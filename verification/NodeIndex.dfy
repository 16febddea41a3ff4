/**
 * The image and layer tables of one node as values: which nodes hold what
 * (`available_at`) and which local images use a layer (`local_image_refs`).
 * Each database operation of the plugins is a function here; the class in
 * Store.dfy runs them as the loops of the source.
 */
module NodeIndex {
  import opened Common

  type NodeId = string
  type ImageId = string
  type DiffId = string

  datatype ImageRow = ImageRow(layers: seq<DiffId>, availableAt: seq<NodeId>, downloading: bool)

  datatype LayerRow = LayerRow(diffId: DiffId, availableAt: seq<NodeId>, refs: seq<ImageId>, downloading: bool)

  /** `hash_id` is the primary key of images; `diff_id` is an ordinary column of layers. */
  datatype Index = Index(images: map<ImageId, ImageRow>, layers: seq<LayerRow>)

  /** What a peer reports about one of its images or layers. */
  datatype ImageInfo = ImageInfo(id: ImageId, layers: seq<DiffId>, downloading: bool)

  datatype LayerInfo = LayerInfo(diffId: DiffId, downloading: bool)

  // ---------- queries ----------

  function ImagesOf(idx: Index, u: NodeId): set<ImageId> {
    set i | i in idx.images && u in idx.images[i].availableAt
  }

  function LayersOf(idx: Index, u: NodeId): set<DiffId> {
    set row | row in idx.layers && u in row.availableAt :: row.diffId
  }

  ghost predicate WellFormed(idx: Index) {
    && (forall i :: i in idx.images ==> NoRepeats(idx.images[i].availableAt))
    && (forall row :: row in idx.layers ==> NoRepeats(row.availableAt) && NoRepeats(row.refs))
  }

  /** `diff_id` behaves like a key. */
  ghost predicate UniqueDiffs(layers: seq<LayerRow>) {
    forall i, j :: 0 <= i < j < |layers| ==> layers[i].diffId != layers[j].diffId
  }

  /** The position of the first row with a diff id, or the length of the table. */
  function FirstRow(layers: seq<LayerRow>, d: DiffId): (k: nat)
    ensures k <= |layers|
    ensures k < |layers| ==> layers[k].diffId == d
    ensures forall i :: 0 <= i < k ==> layers[i].diffId != d
  {
    if layers == [] || layers[0].diffId == d then 0 else 1 + FirstRow(layers[1..], d)
  }

  // ---------- reset_info_of_node ----------

  /** Rows that `delete_unavailable_objects` deletes. */
  predicate Unavailable(availableAt: seq<NodeId>, downloading: bool) {
    availableAt == [] && !downloading
  }

  function UnsetImages(images: map<ImageId, ImageRow>, u: NodeId): map<ImageId, ImageRow> {
    map i | i in images :: images[i].(availableAt := Without(images[i].availableAt, u))
  }

  function UnsetLayers(layers: seq<LayerRow>, u: NodeId): seq<LayerRow> {
    seq(|layers|, i requires 0 <= i < |layers| => layers[i].(availableAt := Without(layers[i].availableAt, u)))
  }

  function KeptImages(images: map<ImageId, ImageRow>): map<ImageId, ImageRow> {
    map i | i in images && !Unavailable(images[i].availableAt, images[i].downloading) :: images[i]
  }

  function KeptLayers(layers: seq<LayerRow>): seq<LayerRow> {
    if layers == [] then []
    else (if Unavailable(layers[0].availableAt, layers[0].downloading) then [] else [layers[0]])
         + KeptLayers(layers[1..])
  }

  function DeleteUnavailable(idx: Index): Index {
    Index(KeptImages(idx.images), KeptLayers(idx.layers))
  }

  /** `reset_info_of_node`: forget what a node holds, then drop rows nobody holds. */
  function Reset(idx: Index, u: NodeId): Index {
    DeleteUnavailable(Index(UnsetImages(idx.images, u), UnsetLayers(idx.layers, u)))
  }

  // ---------- re-adding what a peer reports ----------

  /** `save_image_at_node`. */
  function AddImage(idx: Index, info: ImageInfo, u: NodeId): Index {
    if info.id in idx.images then
      var row := idx.images[info.id];
      idx.(images := idx.images[info.id := row.(availableAt := AddOnce(row.availableAt, u))])
    else idx.(images := idx.images[info.id := ImageRow(info.layers, [u], info.downloading)])
  }

  /** The loop of `fetch_images_from_peer`. */
  function AddImages(idx: Index, infos: seq<ImageInfo>, u: NodeId): Index
    decreases |infos|
  {
    if infos == [] then idx else AddImages(AddImage(idx, infos[0], u), infos[1..], u)
  }

  /** `save_layer_at_node`. */
  function AddLayer(idx: Index, info: LayerInfo, u: NodeId): Index {
    var k := FirstRow(idx.layers, info.diffId);
    if k < |idx.layers| then
      var row := idx.layers[k];
      idx.(layers := idx.layers[k := row.(availableAt := AddOnce(row.availableAt, u))])
    else idx.(layers := idx.layers + [LayerRow(info.diffId, [u], [], info.downloading)])
  }

  /** The loop of `fetch_layers_from_peer`. */
  function AddLayers(idx: Index, infos: seq<LayerInfo>, u: NodeId): Index
    decreases |infos|
  {
    if infos == [] then idx else AddLayers(AddLayer(idx, infos[0], u), infos[1..], u)
  }

  // ---------- save_image ----------

  function Touch(row: LayerRow, local: NodeId, id: ImageId): LayerRow {
    row.(refs := AddOnce(row.refs, id), availableAt := AddOnce(row.availableAt, local))
  }

  /**
   * Saving the object loaded for one listed diff id.  The loading came before
   * all saves, so only the first `base` rows could be found; any other object is
   * inserted.
   */
  function SaveLayer(layers: seq<LayerRow>, base: nat, local: NodeId, id: ImageId, d: DiffId): (r: seq<LayerRow>)
    requires base <= |layers|
    ensures base <= |r|
  {
    var k := FirstRow(layers[..base], d);
    if k < base then layers[k := Touch(layers[k], local, id)]
    else layers + [Touch(LayerRow(d, [], [], false), local, id)]
  }

  function SaveLayers(layers: seq<LayerRow>, base: nat, local: NodeId, id: ImageId, found: seq<DiffId>): seq<LayerRow>
    requires base <= |layers|
    decreases |found|
  {
    if found == [] then layers
    else SaveLayers(SaveLayer(layers, base, local, id, found[0]), base, local, id, found[1..])
  }

  /**
   * `save_image`: `found` lists the image's layers that exist in Docker's
   * storage; with `skip` (`skip_updating_layer`) only the image row is written.
   */
  function SaveImage(idx: Index, local: NodeId, id: ImageId, found: seq<DiffId>, skip: bool): Index {
    var holders := if id in idx.images then idx.images[id].availableAt else [];
    Index(idx.images[id := ImageRow(found, AddOnce(holders, local), false)],
          if skip then idx.layers else SaveLayers(idx.layers, |idx.layers|, local, id, found))
  }

  /** `save_image` that raises after its layers were saved: the image row is not written. */
  function InterruptedSave(idx: Index, local: NodeId, id: ImageId, found: seq<DiffId>): Index {
    idx.(layers := SaveLayers(idx.layers, |idx.layers|, local, id, found))
  }

  // ---------- delete_image ----------

  /** One row in `unset_local_layers`. */
  function Unlink(row: LayerRow, local: NodeId, id: ImageId, list: seq<DiffId>): LayerRow {
    if row.diffId in list && local in row.availableAt then
      var refs := Without(row.refs, id);
      row.(refs := refs, availableAt := if refs == [] then Without(row.availableAt, local) else row.availableAt)
    else row
  }

  function UnlinkLayers(layers: seq<LayerRow>, local: NodeId, id: ImageId, list: seq<DiffId>): seq<LayerRow> {
    seq(|layers|, i requires 0 <= i < |layers| => Unlink(layers[i], local, id, list))
  }

  /** `delete_layers`: drop the listed rows that no node holds. */
  function DropLayers(layers: seq<LayerRow>, list: seq<DiffId>): seq<LayerRow> {
    if layers == [] then []
    else (if layers[0].diffId in list && layers[0].availableAt == [] then [] else [layers[0]])
         + DropLayers(layers[1..], list)
  }

  /** `delete_image`; an unknown image raises `DoesNotExist`, shown as `KeyError`. */
  function DeleteImage(idx: Index, local: NodeId, id: ImageId): Result<Index, PyError> {
    if id !in idx.images then Err(KeyError)
    else
      var row := idx.images[id];
      var holders := Without(row.availableAt, local);
      var layers := UnlinkLayers(idx.layers, local, id, row.layers);
      if holders != [] then Ok(Index(idx.images[id := row.(availableAt := holders)], layers))
      else Ok(Index(idx.images - {id}, DropLayers(layers, row.layers)))
  }

  // ---------- rows of the filtered tables ----------

  lemma {:induction false} KeptLayersRows(layers: seq<LayerRow>, row: LayerRow)
    ensures row in KeptLayers(layers) <==> row in layers && !Unavailable(row.availableAt, row.downloading)
  {
    if layers != [] {
      KeptLayersRows(layers[1..], row);
      assert layers == [layers[0]] + layers[1..];
    }
  }

  lemma {:induction false} DropLayersRows(layers: seq<LayerRow>, list: seq<DiffId>, row: LayerRow)
    ensures row in DropLayers(layers, list) <==> row in layers && !(row.diffId in list && row.availableAt == [])
  {
    if layers != [] {
      DropLayersRows(layers[1..], list, row);
      assert layers == [layers[0]] + layers[1..];
    }
  }

  /** The rows of the table after a reset. */
  lemma ResetRows(idx: Index, u: NodeId)
    ensures forall row :: row in idx.layers && !Unavailable(Without(row.availableAt, u), row.downloading) ==>
              row.(availableAt := Without(row.availableAt, u)) in Reset(idx, u).layers
    ensures forall row' :: row' in Reset(idx, u).layers ==>
              exists row :: row in idx.layers && row' == row.(availableAt := Without(row.availableAt, u))
                            && !Unavailable(row'.availableAt, row'.downloading)
  {
    var unset := UnsetLayers(idx.layers, u);
    forall row'
      ensures row' in Reset(idx, u).layers <==> row' in unset && !Unavailable(row'.availableAt, row'.downloading)
    {
      KeptLayersRows(unset, row');
    }
    forall row | row in idx.layers ensures row.(availableAt := Without(row.availableAt, u)) in unset {
      var k :| 0 <= k < |idx.layers| && idx.layers[k] == row;
      assert unset[k] == row.(availableAt := Without(row.availableAt, u));
    }
    forall row' | row' in unset
      ensures exists row :: row in idx.layers && row' == row.(availableAt := Without(row.availableAt, u))
    {
      var k :| 0 <= k < |unset| && unset[k] == row';
      assert idx.layers[k] in idx.layers;
    }
  }

  /** A reset forgets exactly what the node held and nothing that another node holds. */
  lemma ResetHoldings(idx: Index, u: NodeId, v: NodeId)
    ensures ImagesOf(Reset(idx, u), v) == if v == u then {} else ImagesOf(idx, v)
    ensures LayersOf(Reset(idx, u), v) == if v == u then {} else LayersOf(idx, v)
  {
    ResetRows(idx, u);
    var after := Reset(idx, u);
    if v != u {
      forall d | d in LayersOf(idx, v) ensures d in LayersOf(after, v) {
        var row :| row in idx.layers && v in row.availableAt && row.diffId == d;
        assert v in Without(row.availableAt, u);
        assert row.(availableAt := Without(row.availableAt, u)) in after.layers;
      }
    }
  }

  lemma AddImageHoldings(idx: Index, info: ImageInfo, u: NodeId, v: NodeId)
    ensures ImagesOf(AddImage(idx, info, u), v) == ImagesOf(idx, v) + if v == u then {info.id} else {}
    ensures LayersOf(AddImage(idx, info, u), v) == LayersOf(idx, v)
  {
    if info.id in idx.images {
      var row := idx.images[info.id];
      assert Elements(AddOnce(row.availableAt, u)) == Elements(row.availableAt) + {u};
      assert v in AddOnce(row.availableAt, u) <==> v in Elements(AddOnce(row.availableAt, u));
      assert v in row.availableAt <==> v in Elements(row.availableAt);
    }
  }

  function ImageIds(infos: seq<ImageInfo>): set<ImageId> {
    set info | info in infos :: info.id
  }

  function DiffIds(infos: seq<LayerInfo>): set<DiffId> {
    set info | info in infos :: info.diffId
  }

  /** Re-adding images gives the node the reported images and changes no other holding. */
  lemma {:induction false} AddImagesHoldings(idx: Index, infos: seq<ImageInfo>, u: NodeId, v: NodeId)
    ensures ImagesOf(AddImages(idx, infos, u), v) == ImagesOf(idx, v) + if v == u then ImageIds(infos) else {}
    ensures LayersOf(AddImages(idx, infos, u), v) == LayersOf(idx, v)
    decreases |infos|
  {
    if infos != [] {
      AddImageHoldings(idx, infos[0], u, v);
      AddImagesHoldings(AddImage(idx, infos[0], u), infos[1..], u, v);
      assert infos == [infos[0]] + infos[1..];
      assert ImageIds(infos) == {infos[0].id} + ImageIds(infos[1..]);
    }
  }

  lemma AddLayerHoldings(idx: Index, info: LayerInfo, u: NodeId, v: NodeId)
    ensures LayersOf(AddLayer(idx, info, u), v) == LayersOf(idx, v) + if v == u then {info.diffId} else {}
    ensures ImagesOf(AddLayer(idx, info, u), v) == ImagesOf(idx, v)
  {
    var after := AddLayer(idx, info, u).layers;
    var k := FirstRow(idx.layers, info.diffId);
    if k < |idx.layers| {
      var row := idx.layers[k];
      var row' := row.(availableAt := AddOnce(row.availableAt, u));
      InOrAdded(row.availableAt, u, v);
      assert after[k] == row';
      RowsAfterUpdate(idx.layers, k, row', v);
    } else {
      assert after[k] == LayerRow(info.diffId, [u], [], info.downloading);
      assert forall row :: row in after <==> row in idx.layers || row == after[k];
    }
  }

  lemma InOrAdded(s: seq<NodeId>, u: NodeId, v: NodeId)
    ensures v in AddOnce(s, u) <==> v in s || v == u
  {
    assert v in AddOnce(s, u) <==> v in Elements(AddOnce(s, u));
    assert v in s <==> v in Elements(s);
  }

  /** How overwriting one row by one with the same diff id and no fewer holders changes a node's layers. */
  lemma RowsAfterUpdate(layers: seq<LayerRow>, k: nat, row: LayerRow, v: NodeId)
    requires k < |layers| && row.diffId == layers[k].diffId
    requires v in layers[k].availableAt ==> v in row.availableAt
    ensures LayersOf(Index(map[], layers[k := row]), v)
         == LayersOf(Index(map[], layers), v) + if v in row.availableAt then {row.diffId} else {}
  {
    var after := layers[k := row];
    assert after[k] == row && layers[k] in layers && row in after;
    forall r | r in layers && v in r.availableAt
      ensures r.diffId in LayersOf(Index(map[], after), v)
    {
      var i :| 0 <= i < |layers| && layers[i] == r;
      assert after[i] in after;
    }
    forall r | r in after ensures r == row || r in layers {
      var i :| 0 <= i < |after| && after[i] == r;
      assert i != k ==> layers[i] == r;
    }
  }

  /** Re-adding layers gives the node the reported layers and changes no other holding. */
  lemma {:induction false} AddLayersHoldings(idx: Index, infos: seq<LayerInfo>, u: NodeId, v: NodeId)
    ensures LayersOf(AddLayers(idx, infos, u), v) == LayersOf(idx, v) + if v == u then DiffIds(infos) else {}
    ensures ImagesOf(AddLayers(idx, infos, u), v) == ImagesOf(idx, v)
    decreases |infos|
  {
    if infos != [] {
      AddLayerHoldings(idx, infos[0], u, v);
      AddLayersHoldings(AddLayer(idx, infos[0], u), infos[1..], u, v);
      assert infos == [infos[0]] + infos[1..];
      assert DiffIds(infos) == {infos[0].diffId} + DiffIds(infos[1..]);
    }
  }

  /** A whole sync with no interruption. */
  function Sync(idx: Index, u: NodeId, images: seq<ImageInfo>, layers: seq<LayerInfo>): Index {
    AddLayers(AddImages(Reset(idx, u), images, u), layers, u)
  }

  /**
   * Sync is exact replacement with a frame: afterwards the node holds exactly
   * what it reported, and every other node's holdings are as before, although
   * empty rows were deleted and re-created on the way.
   */
  lemma SyncReplaces(idx: Index, u: NodeId, images: seq<ImageInfo>, layers: seq<LayerInfo>, v: NodeId)
    ensures ImagesOf(Sync(idx, u, images, layers), u) == ImageIds(images)
    ensures LayersOf(Sync(idx, u, images, layers), u) == DiffIds(layers)
    ensures v != u ==> ImagesOf(Sync(idx, u, images, layers), v) == ImagesOf(idx, v)
    ensures v != u ==> LayersOf(Sync(idx, u, images, layers), v) == LayersOf(idx, v)
  {
    ResetHoldings(idx, u, u);
    ResetHoldings(idx, u, v);
    AddImagesHoldings(Reset(idx, u), images, u, u);
    AddImagesHoldings(Reset(idx, u), images, u, v);
    AddLayersHoldings(AddImages(Reset(idx, u), images, u), layers, u, u);
    AddLayersHoldings(AddImages(Reset(idx, u), images, u), layers, u, v);
  }
}
