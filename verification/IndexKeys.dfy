/**
 * What every operation keeps about the shape of the tables: no row lists a node
 * or an image twice, and `diff_id` stays a key.
 */
module IndexKeys {
  import opened Common
  import opened NodeIndex

  // ---------- no row lists a node twice ----------

  lemma ResetWellFormed(idx: Index, u: NodeId)
    requires WellFormed(idx)
    ensures WellFormed(Reset(idx, u))
  {
    ResetRows(idx, u);
  }

  lemma {:induction false} AddImagesWellFormed(idx: Index, infos: seq<ImageInfo>, u: NodeId)
    requires WellFormed(idx)
    ensures WellFormed(AddImages(idx, infos, u))
    decreases |infos|
  {
    if infos != [] {
      AddImagesWellFormed(AddImage(idx, infos[0], u), infos[1..], u);
    }
  }

  lemma {:induction false} AddLayersWellFormed(idx: Index, infos: seq<LayerInfo>, u: NodeId)
    requires WellFormed(idx)
    ensures WellFormed(AddLayers(idx, infos, u))
    decreases |infos|
  {
    if infos != [] {
      var k := FirstRow(idx.layers, infos[0].diffId);
      assert k < |idx.layers| ==> idx.layers[k] in idx.layers;
      AddLayersWellFormed(AddLayer(idx, infos[0], u), infos[1..], u);
    }
  }

  lemma {:induction false} SaveLayersWellFormed(images: map<ImageId, ImageRow>, layers: seq<LayerRow>, base: nat,
                                                local: NodeId, id: ImageId, found: seq<DiffId>)
    requires base <= |layers| && WellFormed(Index(images, layers))
    ensures WellFormed(Index(images, SaveLayers(layers, base, local, id, found)))
    decreases |found|
  {
    if found != [] {
      var k := FirstRow(layers[..base], found[0]);
      assert k < base ==> layers[k] in layers;
      SaveLayersWellFormed(images, SaveLayer(layers, base, local, id, found[0]), base, local, id, found[1..]);
    }
  }

  lemma SaveImageWellFormed(idx: Index, local: NodeId, id: ImageId, found: seq<DiffId>, skip: bool)
    requires WellFormed(idx)
    ensures WellFormed(SaveImage(idx, local, id, found, skip))
  {
    SaveLayersWellFormed(idx.images, idx.layers, |idx.layers|, local, id, found);
  }

  lemma DeleteImageWellFormed(idx: Index, local: NodeId, id: ImageId)
    requires WellFormed(idx) && DeleteImage(idx, local, id).Ok?
    ensures WellFormed(DeleteImage(idx, local, id).value)
  {
    var list := idx.images[id].layers;
    var unlinked := UnlinkLayers(idx.layers, local, id, list);
    forall row | row in unlinked ensures NoRepeats(row.availableAt) && NoRepeats(row.refs) {
      var k :| 0 <= k < |unlinked| && unlinked[k] == row;
      assert idx.layers[k] in idx.layers;
    }
    forall row | row in DropLayers(unlinked, list) ensures row in unlinked {
      DropLayersRows(unlinked, list, row);
    }
  }

  // ---------- diff_id is a key ----------

  /** The `diff_id` column. */
  function DiffColumn(layers: seq<LayerRow>): (r: seq<DiffId>)
    ensures |r| == |layers|
    ensures forall i :: 0 <= i < |layers| ==> r[i] == layers[i].diffId
  {
    seq(|layers|, i requires 0 <= i < |layers| => layers[i].diffId)
  }

  lemma UniqueIsColumn(layers: seq<LayerRow>)
    ensures UniqueDiffs(layers) <==> NoRepeats(DiffColumn(layers))
  {
  }

  lemma {:induction false} KeptLayersUnique(layers: seq<LayerRow>)
    requires UniqueDiffs(layers)
    ensures UniqueDiffs(KeptLayers(layers))
  {
    if layers != [] {
      KeptLayersUnique(layers[1..]);
      var rest := KeptLayers(layers[1..]);
      forall i | 0 <= i < |rest| ensures rest[i].diffId != layers[0].diffId {
        KeptLayersRows(layers[1..], rest[i]);
      }
    }
  }

  lemma {:induction false} DropLayersUnique(layers: seq<LayerRow>, list: seq<DiffId>)
    requires UniqueDiffs(layers)
    ensures UniqueDiffs(DropLayers(layers, list))
  {
    if layers != [] {
      DropLayersUnique(layers[1..], list);
      var rest := DropLayers(layers[1..], list);
      forall i | 0 <= i < |rest| ensures rest[i].diffId != layers[0].diffId {
        DropLayersRows(layers[1..], list, rest[i]);
      }
    }
  }

  lemma {:induction false} AddLayersUnique(idx: Index, infos: seq<LayerInfo>, u: NodeId)
    requires UniqueDiffs(idx.layers)
    ensures UniqueDiffs(AddLayers(idx, infos, u).layers)
    decreases |infos|
  {
    if infos != [] {
      AddLayersUnique(AddLayer(idx, infos[0], u), infos[1..], u);
    }
  }

  lemma {:induction false} AddImagesKeepsLayers(idx: Index, infos: seq<ImageInfo>, u: NodeId)
    ensures AddImages(idx, infos, u).layers == idx.layers
    decreases |infos|
  {
    if infos != [] {
      AddImagesKeepsLayers(AddImage(idx, infos[0], u), infos[1..], u);
    }
  }

  /** A sync and a deletion keep `diff_id` a key. */
  lemma SyncKeepsKeys(idx: Index, u: NodeId, images: seq<ImageInfo>, layers: seq<LayerInfo>)
    requires UniqueDiffs(idx.layers)
    ensures UniqueDiffs(Reset(idx, u).layers)
    ensures UniqueDiffs(Sync(idx, u, images, layers).layers)
  {
    KeptLayersUnique(UnsetLayers(idx.layers, u));
    AddImagesKeepsLayers(Reset(idx, u), images, u);
    AddLayersUnique(AddImages(Reset(idx, u), images, u), layers, u);
  }

  lemma DeleteKeepsKeys(idx: Index, local: NodeId, id: ImageId)
    requires UniqueDiffs(idx.layers) && DeleteImage(idx, local, id).Ok?
    ensures UniqueDiffs(DeleteImage(idx, local, id).value.layers)
  {
    var list := idx.images[id].layers;
    DropLayersUnique(UnlinkLayers(idx.layers, local, id, list), list);
  }

  /** The listed diff ids that have no row yet, in order. */
  function Unseen(column: seq<DiffId>, found: seq<DiffId>): (r: seq<DiffId>)
    ensures forall d :: d in r <==> d in found && d !in column
  {
    if found == [] then []
    else
      assert found == [found[0]] + found[1..];
      (if found[0] in column then [] else [found[0]]) + Unseen(column, found[1..])
  }

  lemma SaveLayerColumn(layers: seq<LayerRow>, base: nat, local: NodeId, id: ImageId, d: DiffId)
    requires base <= |layers|
    ensures var next := SaveLayer(layers, base, local, id, d);
            && DiffColumn(next[..base]) == DiffColumn(layers[..base])
            && DiffColumn(next) == DiffColumn(layers) + if d in DiffColumn(layers[..base]) then [] else [d]
  {
    var column := DiffColumn(layers[..base]);
    var k := FirstRow(layers[..base], d);
    if k < base {
      assert column[k] == d;
    }
  }

  /** Saving inserts one row per listed diff id without a row, repetitions included. */
  lemma {:induction false} SaveLayersColumn(layers: seq<LayerRow>, base: nat, local: NodeId, id: ImageId,
                                            found: seq<DiffId>)
    requires base <= |layers|
    ensures DiffColumn(SaveLayers(layers, base, local, id, found))
         == DiffColumn(layers) + Unseen(DiffColumn(layers[..base]), found)
    decreases |found|
  {
    if found != [] {
      var next := SaveLayer(layers, base, local, id, found[0]);
      SaveLayerColumn(layers, base, local, id, found[0]);
      SaveLayersColumn(next, base, local, id, found[1..]);
      var pre := DiffColumn(layers[..base]);
      UnseenFirst(pre, found);
      Regroup(DiffColumn(layers), if found[0] in pre then [] else [found[0]], Unseen(pre, found[1..]));
    }
  }

  lemma UnseenFirst(column: seq<DiffId>, found: seq<DiffId>)
    requires found != []
    ensures Unseen(column, found) == (if found[0] in column then [] else [found[0]]) + Unseen(column, found[1..])
  {
  }

  lemma Regroup(a: seq<DiffId>, b: seq<DiffId>, c: seq<DiffId>)
    ensures (a + b) + c == a + (b + c)
  {
  }

  /** Every diff id that an image lists twice already has a row. */
  ghost predicate RepeatsHaveRows(layers: seq<LayerRow>, found: seq<DiffId>) {
    forall i, j :: 0 <= i < j < |found| && found[i] == found[j] ==>
      exists row :: row in layers && row.diffId == found[i]
  }

  lemma NoRepeatsCons(x: DiffId, rest: seq<DiffId>)
    ensures NoRepeats([x] + rest) <==> x !in rest && NoRepeats(rest)
  {
    var all := [x] + rest;
    assert forall i :: 0 <= i < |rest| ==> all[i + 1] == rest[i];
    if x in rest {
      var k :| 0 <= k < |rest| && rest[k] == x;
      assert all[k + 1] == all[0];
    }
  }

  /** Every diff id that `found` lists twice is in the column. */
  ghost predicate RepeatsIn(column: seq<DiffId>, found: seq<DiffId>) {
    forall i, j :: 0 <= i < j < |found| && found[i] == found[j] ==> found[i] in column
  }

  lemma RepeatsInCons(column: seq<DiffId>, found: seq<DiffId>)
    requires found != []
    ensures RepeatsIn(column, found) <==>
              RepeatsIn(column, found[1..]) && (found[0] in found[1..] ==> found[0] in column)
  {
    var rest := found[1..];
    assert forall i :: 0 <= i < |rest| ==> rest[i] == found[i + 1];
    if found[0] in rest {
      var k :| 0 <= k < |rest| && rest[k] == found[0];
      assert found[0] == found[k + 1];
    }
    if !RepeatsIn(column, rest) {
      var i, j :| 0 <= i < j < |rest| && rest[i] == rest[j] && rest[i] !in column;
      assert found[i + 1] == found[j + 1];
    }
  }

  lemma {:induction false} UnseenNoRepeats(column: seq<DiffId>, found: seq<DiffId>)
    ensures NoRepeats(Unseen(column, found)) <==> RepeatsIn(column, found)
  {
    if found != [] {
      UnseenNoRepeats(column, found[1..]);
      RepeatsInCons(column, found);
      NoRepeatsCons(found[0], Unseen(column, found[1..]));
      assert [] + Unseen(column, found[1..]) == Unseen(column, found[1..]);
    }
  }

  lemma ColumnRows(layers: seq<LayerRow>, d: DiffId)
    ensures d in DiffColumn(layers) <==> exists row :: row in layers && row.diffId == d
  {
    var column := DiffColumn(layers);
    if d in column {
      var k :| 0 <= k < |column| && column[k] == d;
      assert layers[k] in layers;
    }
    if row :| row in layers && row.diffId == d {
      var k :| 0 <= k < |layers| && layers[k] == row;
      assert column[k] == d;
    }
  }

  lemma RepeatsInRows(layers: seq<LayerRow>, found: seq<DiffId>)
    ensures RepeatsHaveRows(layers, found) <==> RepeatsIn(DiffColumn(layers), found)
  {
    forall d ensures d in DiffColumn(layers) <==> exists row :: row in layers && row.diffId == d {
      ColumnRows(layers, d);
    }
  }

  /**
   * `save_image` keeps `diff_id` a key exactly when every diff id the image
   * lists twice already has a row: a repeated new one is inserted twice.
   */
  lemma SaveKeepsKeysIff(idx: Index, local: NodeId, id: ImageId, found: seq<DiffId>)
    requires UniqueDiffs(idx.layers)
    ensures UniqueDiffs(SaveImage(idx, local, id, found, false).layers) <==> RepeatsHaveRows(idx.layers, found)
  {
    var column := DiffColumn(idx.layers);
    var after := SaveLayers(idx.layers, |idx.layers|, local, id, found);
    assert idx.layers[..|idx.layers|] == idx.layers;
    SaveLayersColumn(idx.layers, |idx.layers|, local, id, found);
    UniqueIsColumn(idx.layers);
    UniqueIsColumn(after);
    NoRepeatsPlus(column, Unseen(column, found));
    UnseenNoRepeats(column, found);
    RepeatsInRows(idx.layers, found);
  }

  lemma NoRepeatsPlus(a: seq<DiffId>, b: seq<DiffId>)
    requires NoRepeats(a) && forall d :: d in b ==> d !in a
    ensures NoRepeats(a + b) <==> NoRepeats(b)
  {
    assert forall i :: 0 <= i < |b| ==> (a + b)[|a| + i] == b[i];
    forall i, j | NoRepeats(b) && 0 <= i < j < |a + b| ensures (a + b)[i] != (a + b)[j] {
      if i < |a| <= j {
        assert b[j - |a|] in b && a[i] in a;
      }
    }
  }

  /** A new image that lists one layer twice: its diff id gets two rows. */
  lemma RepeatedLayerExample()
    ensures var idx := SaveImage(Index(map[], []), "n", "i", ["d", "d"], false);
            |idx.layers| == 2 && idx.layers[0].diffId == idx.layers[1].diffId
  {
    var e: seq<LayerRow> := [];
    SaveLayersColumn(e, 0, "n", "i", ["d", "d"]);
    assert Unseen([], ["d", "d"]) == ["d", "d"] by {
      assert ["d", "d"][1..] == ["d"] && ["d"][1..] == [];
    }
    var column := DiffColumn(SaveLayers(e, 0, "n", "i", ["d", "d"]));
    assert column == DiffColumn(e) + Unseen(DiffColumn(e[..0]), ["d", "d"]);
    assert DiffColumn(e) == [] && DiffColumn(e[..0]) == [];
    assert |column| == 2 && column[0] == column[1];
  }
}
