/**
 * What each operation does to each row: which rows are left, which are new, and
 * which of their columns change.
 */
module Rows {
  import opened Common
  import opened NodeIndex
  import opened References

  /** The two rows differ in their holders at most. */
  predicate SameButHolders(a: LayerRow, b: LayerRow) {
    a.diffId == b.diffId && a.refs == b.refs && a.downloading == b.downloading
  }

  predicate SameImageButHolders(a: ImageRow, b: ImageRow) {
    a.layers == b.layers && a.downloading == b.downloading
  }

  // ---------- reset_info_of_node ----------

  /** A reset deletes exactly the images without another holder that are not downloading. */
  lemma ResetImages(idx: Index, u: NodeId, id: ImageId)
    ensures id in Reset(idx, u).images <==>
              id in idx.images && (idx.images[id].downloading || exists v :: v in idx.images[id].availableAt && v != u)
    ensures id in Reset(idx, u).images ==>
              var row, row' := idx.images[id], Reset(idx, u).images[id];
              && SameImageButHolders(row, row')
              && forall v :: v in row'.availableAt <==> v in row.availableAt && v != u
  {
    if id in idx.images {
      var holders := Without(idx.images[id].availableAt, u);
      assert holders != [] ==> holders[0] in holders;
    }
  }

  /** A reset deletes exactly the layer rows without another holder that are not downloading. */
  lemma ResetLayers(idx: Index, u: NodeId)
    ensures forall row :: row in idx.layers && (row.downloading || exists v :: v in row.availableAt && v != u) ==>
              exists row' :: row' in Reset(idx, u).layers && LosesHolder(row, row', u)
    ensures forall row' :: row' in Reset(idx, u).layers ==>
              && (row'.downloading || row'.availableAt != [])
              && exists row :: row in idx.layers && LosesHolder(row, row', u)
  {
    ResetRows(idx, u);
    forall row | row in idx.layers && (row.downloading || exists v :: v in row.availableAt && v != u)
      ensures exists row' :: row' in Reset(idx, u).layers && LosesHolder(row, row', u)
    {
      var row' := row.(availableAt := Without(row.availableAt, u));
      assert LosesHolder(row, row', u) && row' in Reset(idx, u).layers;
    }
    forall row' | row' in Reset(idx, u).layers
      ensures exists row :: row in idx.layers && LosesHolder(row, row', u)
    {
      var row :| row in idx.layers && row' == row.(availableAt := Without(row.availableAt, u));
      assert LosesHolder(row, row', u);
    }
  }

  /** The rows that are left keep their order. */
  lemma {:induction false} KeptLayersPlus(a: seq<LayerRow>, b: seq<LayerRow>)
    ensures KeptLayers(a + b) == KeptLayers(a) + KeptLayers(b)
  {
    if a == [] {
      assert a + b == b;
    } else {
      assert (a + b)[0] == a[0] && (a + b)[1..] == a[1..] + b;
      KeptLayersPlus(a[1..], b);
    }
  }

  ghost predicate LosesHolder(row: LayerRow, row': LayerRow, u: NodeId) {
    SameButHolders(row, row') && forall v :: v in row'.availableAt <==> v in row.availableAt && v != u
  }

  // ---------- re-adding what a peer reports ----------

  /** The first of the reported images with an id. */
  predicate FirstImage(infos: seq<ImageInfo>, k: nat, id: ImageId) {
    k < |infos| && infos[k].id == id && forall m :: 0 <= m < k ==> infos[m].id != id
  }

  predicate FirstLayer(infos: seq<LayerInfo>, k: nat, d: DiffId) {
    k < |infos| && infos[k].diffId == d && forall m :: 0 <= m < k ==> infos[m].diffId != d
  }

  /** An image row that was there changes in its holders at most; a new one is as first reported. */
  lemma {:induction false} AddImagesRows(idx: Index, infos: seq<ImageInfo>, u: NodeId, id: ImageId)
    ensures var after := AddImages(idx, infos, u).images;
            && (id in after <==> id in idx.images || id in ImageIds(infos))
            && (id in idx.images ==> SameImageButHolders(idx.images[id], after[id]))
            && (id in after && id !in idx.images ==>
                  exists k: nat :: FirstImage(infos, k, id)
                              && after[id] == ImageRow(infos[k].layers, [u], infos[k].downloading))
    decreases |infos|
  {
    if infos != [] {
      var next, rest := AddImage(idx, infos[0], u), infos[1..];
      AddImagesRows(next, rest, u, id);
      assert infos == [infos[0]] + rest;
      assert ImageIds(infos) == {infos[0].id} + ImageIds(rest);
      var after := AddImages(idx, infos, u).images;
      if id !in idx.images && id == infos[0].id {
        AddAgain(next, rest, u, id);
        assert FirstImage(infos, 0, id);
      } else if id !in idx.images && id in after {
        var k: nat :| FirstImage(rest, k, id) && after[id] == ImageRow(rest[k].layers, [u], rest[k].downloading);
        assert FirstImage(infos, k + 1, id) by {
          assert forall m :: 1 <= m < k + 1 ==> infos[m] == rest[m - 1];
        }
      }
    }
  }

  /** An image that the node holds already is not changed by further reports from it. */
  lemma {:induction false} AddAgain(idx: Index, infos: seq<ImageInfo>, u: NodeId, id: ImageId)
    requires id in idx.images && u in idx.images[id].availableAt
    ensures id in AddImages(idx, infos, u).images && AddImages(idx, infos, u).images[id] == idx.images[id]
    decreases |infos|
  {
    if infos != [] {
      AddAgain(AddImage(idx, infos[0], u), infos[1..], u, id);
    }
  }

  /** One report: rows stay in place, and the reported layer has a row that the node holds. */
  lemma AddLayerRow(idx: Index, info: LayerInfo, u: NodeId)
    ensures var after, k := AddLayer(idx, info, u).layers, FirstRow(idx.layers, info.diffId);
            && |after| == (if k < |idx.layers| then |idx.layers| else k + 1)
            && (forall i :: 0 <= i < |idx.layers| ==> SameButHolders(idx.layers[i], after[i]))
            && after[k].diffId == info.diffId && u in after[k].availableAt
            && (k == |idx.layers| ==> after[k] == LayerRow(info.diffId, [u], [], info.downloading))
  {
    var k := FirstRow(idx.layers, info.diffId);
    if k < |idx.layers| {
      InOrAdded(idx.layers[k].availableAt, u, u);
    }
  }

  /** A layer row that was there changes in its holders at most. */
  lemma {:induction false} AddLayersKeepRows(idx: Index, infos: seq<LayerInfo>, u: NodeId)
    ensures var after := AddLayers(idx, infos, u).layers;
            && |idx.layers| <= |after|
            && forall i :: 0 <= i < |idx.layers| ==> SameButHolders(idx.layers[i], after[i])
    decreases |infos|
  {
    if infos != [] {
      var next := AddLayer(idx, infos[0], u);
      AddLayerRow(idx, infos[0], u);
      AddLayersKeepRows(next, infos[1..], u);
      forall i | 0 <= i < |idx.layers| ensures SameButHolders(idx.layers[i], AddLayers(idx, infos, u).layers[i]) {
        assert SameButHolders(next.layers[i], AddLayers(next, infos[1..], u).layers[i]);
      }
    }
  }

  /** The layer had no row, and `row` is as first reported, without references. */
  ghost predicate NewLayerRow(idx: Index, infos: seq<LayerInfo>, u: NodeId, row: LayerRow) {
    && FirstRow(idx.layers, row.diffId) == |idx.layers|
    && exists k: nat :: FirstLayer(infos, k, row.diffId) && row == LayerRow(row.diffId, [u], [], infos[k].downloading)
  }

  lemma {:induction false} AddLayersNewRows(idx: Index, infos: seq<LayerInfo>, u: NodeId, i: nat)
    requires |idx.layers| <= i < |AddLayers(idx, infos, u).layers|
    ensures NewLayerRow(idx, infos, u, AddLayers(idx, infos, u).layers[i])
    decreases |infos|
  {
    assert infos != [];
    var next, rest := AddLayer(idx, infos[0], u), infos[1..];
    AddLayerRow(idx, infos[0], u);
    if i < |next.layers| {
      AddLayersAgain(next, rest, u, i);
      assert FirstLayer(infos, 0, next.layers[i].diffId);
    } else {
      AddLayersNewRows(next, rest, u, i);
      LaterIsNew(idx, next, infos, u, AddLayers(next, rest, u).layers[i]);
    }
  }

  lemma LaterIsNew(idx: Index, next: Index, infos: seq<LayerInfo>, u: NodeId, row: LayerRow)
    requires infos != [] && NewLayerRow(next, infos[1..], u, row)
    requires |idx.layers| <= |next.layers|
    requires forall i :: 0 <= i < |idx.layers| ==> SameButHolders(idx.layers[i], next.layers[i])
    requires exists i :: 0 <= i < |next.layers| && next.layers[i].diffId == infos[0].diffId
    ensures NewLayerRow(idx, infos, u, row)
  {
    var rest := infos[1..];
    var k: nat :| FirstLayer(rest, k, row.diffId) && row == LayerRow(row.diffId, [u], [], rest[k].downloading);
    assert forall m :: 1 <= m < k + 1 ==> infos[m] == rest[m - 1];
    assert FirstLayer(infos, k + 1, row.diffId);
  }

  lemma {:induction false} AddLayersAgain(idx: Index, infos: seq<LayerInfo>, u: NodeId, i: nat)
    requires i < |idx.layers| && u in idx.layers[i].availableAt
    ensures i < |AddLayers(idx, infos, u).layers| && AddLayers(idx, infos, u).layers[i] == idx.layers[i]
    decreases |infos|
  {
    if infos != [] {
      AddLayersAgain(AddLayer(idx, infos[0], u), infos[1..], u, i);
    }
  }

  // ---------- save_image ----------

  /** The saved image lists the layers found, is held locally as well, and no other image row changes. */
  lemma SaveImageRow(idx: Index, local: NodeId, id: ImageId, found: seq<DiffId>, skip: bool)
    ensures var after := SaveImage(idx, local, id, found, skip).images;
            && after.Keys == idx.images.Keys + {id}
            && after[id].layers == found && !after[id].downloading
            && (forall v :: v in after[id].availableAt <==>
                  v == local || (id in idx.images && v in idx.images[id].availableAt))
            && (forall other :: other in idx.images && other != id ==> after[other] == idx.images[other])
  {
    var holders := if id in idx.images then idx.images[id].availableAt else [];
    forall v ensures v in AddOnce(holders, local) <==> v in holders || v == local {
      InOrAdded(holders, local, v);
    }
  }

  // ---------- delete_image ----------

  /**
   * A deletion unlinks a row that the image lists and the local node advertises:
   * the row loses the image, and the local node when no other image is left.
   */
  ghost predicate Unlinked(row: LayerRow, row': LayerRow, local: NodeId, id: ImageId, list: seq<DiffId>) {
    && row'.diffId == row.diffId && row'.downloading == row.downloading
    && if row.diffId in list && local in row.availableAt then
         && (forall i :: i in row'.refs <==> i in row.refs && i != id)
         && (forall v :: v in row'.availableAt <==> v in row.availableAt && (v != local || row'.refs != []))
       else row' == row
  }

  lemma UnlinkMeaning(row: LayerRow, local: NodeId, id: ImageId, list: seq<DiffId>)
    ensures Unlinked(row, Unlink(row, local, id, list), local, id, list)
  {
  }

  /** Another node holds the image. */
  ghost predicate HeldElsewhere(idx: Index, local: NodeId, id: ImageId)
    requires id in idx.images
  {
    exists v :: v in idx.images[id].availableAt && v != local
  }

  lemma OthersHold(idx: Index, local: NodeId, id: ImageId)
    requires id in idx.images
    ensures HeldElsewhere(idx, local, id) <==> Without(idx.images[id].availableAt, local) != []
  {
    var holders := Without(idx.images[id].availableAt, local);
    assert holders != [] ==> holders[0] in holders;
  }

  /** The image row after a deletion, and the rows of all other images. */
  lemma DeleteImageRow(idx: Index, local: NodeId, id: ImageId)
    requires DeleteImage(idx, local, id).Ok?
    ensures var after := DeleteImage(idx, local, id).value.images;
            && (id in after <==> HeldElsewhere(idx, local, id))
            && (id in after ==>
                  && SameImageButHolders(idx.images[id], after[id])
                  && forall v :: v in after[id].availableAt <==> v in idx.images[id].availableAt && v != local)
            && (forall other :: other != id ==>
                  && (other in after <==> other in idx.images)
                  && (other in after ==> after[other] == idx.images[other]))
  {
    OthersHold(idx, local, id);
  }

  /** While another node holds the image, every layer row stays at its place, unlinked. */
  lemma DeleteKeepsRows(idx: Index, local: NodeId, id: ImageId)
    requires DeleteImage(idx, local, id).Ok? && HeldElsewhere(idx, local, id)
    ensures var after := DeleteImage(idx, local, id).value.layers;
            && |after| == |idx.layers|
            && forall k :: 0 <= k < |after| ==> Unlinked(idx.layers[k], after[k], local, id, idx.images[id].layers)
  {
    OthersHold(idx, local, id);
  }

  /**
   * When its last holder goes, exactly the rows that the image lists and that
   * nobody holds after the unlinking go as well; the others are left unlinked.
   */
  lemma DeleteDropsRows(idx: Index, local: NodeId, id: ImageId)
    requires DeleteImage(idx, local, id).Ok? && !HeldElsewhere(idx, local, id)
    ensures var after, list := DeleteImage(idx, local, id).value.layers, idx.images[id].layers;
            && (forall row :: row in after && row.diffId in list ==> row.availableAt != [])
            && (forall row :: row in after ==>
                  exists was :: was in idx.layers && Unlinked(was, row, local, id, list))
            && (forall was :: was in idx.layers ==>
                  exists row :: Unlinked(was, row, local, id, list)
                                && (row in after <==> row.diffId !in list || row.availableAt != []))
  {
    var list := idx.images[id].layers;
    OthersHold(idx, local, id);
    var unlinked := UnlinkLayers(idx.layers, local, id, list);
    var after := DeleteImage(idx, local, id).value.layers;
    forall row ensures row in after <==> row in unlinked && !(row.diffId in list && row.availableAt == []) {
      DropLayersRows(unlinked, list, row);
    }
    forall row | row in after ensures exists was :: was in idx.layers && Unlinked(was, row, local, id, list) {
      var k :| 0 <= k < |unlinked| && unlinked[k] == row;
      UnlinkMeaning(idx.layers[k], local, id, list);
      assert idx.layers[k] in idx.layers;
    }
    forall was | was in idx.layers
      ensures exists row :: Unlinked(was, row, local, id, list)
                            && (row in after <==> row.diffId !in list || row.availableAt != [])
    {
      UnlinkMeaning(was, local, id, list);
      UnlinkedRow(idx.layers, local, id, list, was);
    }
  }

  /** The rows that are left keep their order. */
  lemma {:induction false} DropLayersPlus(a: seq<LayerRow>, b: seq<LayerRow>, list: seq<DiffId>)
    ensures DropLayers(a + b, list) == DropLayers(a, list) + DropLayers(b, list)
  {
    if a == [] {
      assert a + b == b;
    } else {
      assert (a + b)[0] == a[0] && (a + b)[1..] == a[1..] + b;
      DropLayersPlus(a[1..], b, list);
    }
  }
}
