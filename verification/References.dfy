/**
 * Local reference counting of layers: which local images a layer row lists in
 * `local_image_refs`, and when the local node advertises it.
 *
 * `full` is the set of fully saved local images: those whose last local save
 * wrote their layer rows, or listed no layer that such a save had not written.
 */
module References {
  import opened Common
  import opened NodeIndex
  import opened IndexKeys

  // ---------- the invariants ----------

  /** A layer of a fully saved image has a row that lists the image and is advertised. */
  ghost predicate Serves(layers: seq<LayerRow>, local: NodeId, id: ImageId, d: DiffId) {
    exists row :: row in layers && row.diffId == d && id in row.refs && local in row.availableAt
  }

  /** Layer reference safety. */
  ghost predicate RefSafe(idx: Index, local: NodeId, full: set<ImageId>) {
    forall id :: id in full ==>
      && id in idx.images && local in idx.images[id].availableAt
      && forall d :: d in idx.images[id].layers ==> Serves(idx.layers, local, id, d)
  }

  /** Reference exactness of one row. */
  ghost predicate ExactRow(images: map<ImageId, ImageRow>, row: LayerRow, local: NodeId, full: set<ImageId>) {
    && (forall id :: id in row.refs <==> id in full && id in images && row.diffId in images[id].layers)
    && (local in row.availableAt <==> row.refs != [])
  }

  ghost predicate Exact(idx: Index, local: NodeId, full: set<ImageId>) {
    forall row :: row in idx.layers ==> ExactRow(idx.images, row, local, full)
  }

  /** An advertised layer is used by some image. */
  ghost predicate UsedIfLocal(layers: seq<LayerRow>, local: NodeId) {
    forall row :: row in layers && local in row.availableAt ==> row.refs != []
  }

  // ---------- how `full` moves ----------

  function FullAfterSave(idx: Index, full: set<ImageId>, id: ImageId, found: seq<DiffId>, skip: bool): set<ImageId> {
    if !skip then full + {id}
    else if id in idx.images && (forall d :: d in found ==> d in idx.images[id].layers) then full
    else full - {id}
  }

  /** The layers that the row of a fully saved image lists; none for any other image. */
  function OldLayers(idx: Index, full: set<ImageId>, id: ImageId): seq<DiffId> {
    if id in full && id in idx.images then idx.images[id].layers else []
  }

  // ---------- rows after save_image ----------

  lemma TouchTwice(row: LayerRow, local: NodeId, id: ImageId)
    ensures Touch(Touch(row, local, id), local, id) == Touch(row, local, id)
    ensures id in Touch(row, local, id).refs && local in Touch(row, local, id).availableAt
    ensures forall v :: v in Touch(row, local, id).availableAt <==> v in row.availableAt || v == local
    ensures forall i :: i in Touch(row, local, id).refs <==> i in row.refs || i == id
  {
    forall v ensures v in Touch(row, local, id).availableAt <==> v in row.availableAt || v == local {
      InOrAdded(row.availableAt, local, v);
    }
    forall i ensures i in Touch(row, local, id).refs <==> i in row.refs || i == id {
      InOrAdded(row.refs, id, i);
    }
  }

  function NewRow(d: DiffId): LayerRow { LayerRow(d, [], [], false) }

  /** Every row is the old one, the old one touched, or a touched new one. */
  ghost predicate Grown(before: seq<LayerRow>, after: seq<LayerRow>, local: NodeId, id: ImageId, found: seq<DiffId>) {
    && |before| <= |after|
    && (forall i :: 0 <= i < |before| ==>
          after[i] == before[i] || (after[i] == Touch(before[i], local, id) && before[i].diffId in found))
    && (forall i :: |before| <= i < |after| ==>
          after[i] == Touch(NewRow(after[i].diffId), local, id) && after[i].diffId in found)
  }

  lemma GrownTwice(a: seq<LayerRow>, b: seq<LayerRow>, c: seq<LayerRow>, local: NodeId, id: ImageId,
                   d: DiffId, found: seq<DiffId>)
    requires found != [] && found[0] == d
    requires Grown(a, b, local, id, [d]) && Grown(b, c, local, id, found[1..])
    ensures Grown(a, c, local, id, found)
  {
    assert found == [d] + found[1..];
    forall i | 0 <= i < |c|
      ensures i < |a| ==> c[i] == a[i] || (c[i] == Touch(a[i], local, id) && a[i].diffId in found)
      ensures |a| <= i ==> c[i] == Touch(NewRow(c[i].diffId), local, id) && c[i].diffId in found
    {
      if i < |b| {
        TouchTwice(if i < |a| then a[i] else NewRow(b[i].diffId), local, id);
      }
    }
  }

  lemma SaveLayerGrown(layers: seq<LayerRow>, base: nat, local: NodeId, id: ImageId, d: DiffId)
    requires base <= |layers|
    ensures Grown(layers, SaveLayer(layers, base, local, id, d), local, id, [d])
  {
  }

  lemma {:induction false} SaveLayersGrown(layers: seq<LayerRow>, base: nat, local: NodeId, id: ImageId,
                                           found: seq<DiffId>)
    requires base <= |layers|
    ensures Grown(layers, SaveLayers(layers, base, local, id, found), local, id, found)
    decreases |found|
  {
    if found != [] {
      var next := SaveLayer(layers, base, local, id, found[0]);
      SaveLayerGrown(layers, base, local, id, found[0]);
      SaveLayersGrown(next, base, local, id, found[1..]);
      GrownTwice(layers, next, SaveLayers(next, base, local, id, found[1..]), local, id, found[0], found);
    }
  }

  lemma GrownServes(before: seq<LayerRow>, after: seq<LayerRow>, local: NodeId, id: ImageId, found: seq<DiffId>,
                    other: ImageId, d: DiffId)
    requires Grown(before, after, local, id, found)
    requires Serves(before, local, other, d)
    ensures Serves(after, local, other, d)
  {
    var row :| row in before && row.diffId == d && other in row.refs && local in row.availableAt;
    var k :| 0 <= k < |before| && before[k] == row;
    TouchTwice(row, local, id);
    assert after[k] in after;
  }

  /** Each listed layer ends with a row that lists the image and the local node. */
  lemma {:induction false} SaveLayersServes(layers: seq<LayerRow>, base: nat, local: NodeId, id: ImageId,
                                            found: seq<DiffId>, d: DiffId)
    requires base <= |layers| && d in found
    ensures Serves(SaveLayers(layers, base, local, id, found), local, id, d)
    decreases |found|
  {
    var next := SaveLayer(layers, base, local, id, found[0]);
    if d == found[0] {
      var k := FirstRow(layers[..base], d);
      var row := if k < base then layers[k] else NewRow(d);
      TouchTwice(row, local, id);
      assert next[if k < base then k else |layers|] == Touch(row, local, id);
      assert Touch(row, local, id) in next;
      SaveLayersGrown(next, base, local, id, found[1..]);
      GrownServes(next, SaveLayers(next, base, local, id, found[1..]), local, id, found[1..], id, d);
    } else {
      assert found == [found[0]] + found[1..];
      SaveLayersServes(next, base, local, id, found[1..], d);
    }
  }

  // ---------- reference safety: every step keeps it ----------

  lemma SaveRefSafe(idx: Index, local: NodeId, full: set<ImageId>, id: ImageId, found: seq<DiffId>, skip: bool)
    requires RefSafe(idx, local, full)
    ensures RefSafe(SaveImage(idx, local, id, found, skip), local, FullAfterSave(idx, full, id, found, skip))
  {
    var after := SaveImage(idx, local, id, found, skip);
    var full' := FullAfterSave(idx, full, id, found, skip);
    InOrAdded(if id in idx.images then idx.images[id].availableAt else [], local, local);
    SaveLayersGrown(idx.layers, |idx.layers|, local, id, found);
    forall other, d | other in full' && d in after.images[other].layers
      ensures Serves(after.layers, local, other, d)
    {
      if !skip && other == id {
        SaveLayersServes(idx.layers, |idx.layers|, local, id, found, d);
      } else {
        assert Serves(idx.layers, local, other, d);
        if !skip {
          GrownServes(idx.layers, after.layers, local, id, found, other, d);
        }
      }
    }
  }

  /** A save that raises after its layers were saved harms no image. */
  lemma InterruptedRefSafe(idx: Index, local: NodeId, full: set<ImageId>, id: ImageId, found: seq<DiffId>)
    requires RefSafe(idx, local, full)
    ensures RefSafe(InterruptedSave(idx, local, id, found), local, full)
  {
    var after := InterruptedSave(idx, local, id, found);
    SaveLayersGrown(idx.layers, |idx.layers|, local, id, found);
    forall other, d | other in full && d in after.images[other].layers ensures Serves(after.layers, local, other, d) {
      GrownServes(idx.layers, after.layers, local, id, found, other, d);
    }
  }

  lemma UnlinkedRow(layers: seq<LayerRow>, local: NodeId, id: ImageId, list: seq<DiffId>, row: LayerRow)
    requires row in layers
    ensures Unlink(row, local, id, list) in UnlinkLayers(layers, local, id, list)
  {
    var k :| 0 <= k < |layers| && layers[k] == row;
    assert UnlinkLayers(layers, local, id, list)[k] == Unlink(row, local, id, list);
  }

  /** The rows left by a deletion come from rows of the table. */
  lemma DeletedRows(idx: Index, local: NodeId, id: ImageId, row: LayerRow)
    requires DeleteImage(idx, local, id).Ok?
    ensures row in DeleteImage(idx, local, id).value.layers ==>
              exists r :: r in idx.layers && row == Unlink(r, local, id, idx.images[id].layers)
    ensures row.availableAt != []
            && (exists r :: r in idx.layers && row == Unlink(r, local, id, idx.images[id].layers)) ==>
              row in DeleteImage(idx, local, id).value.layers
  {
    var list := idx.images[id].layers;
    var unlinked := UnlinkLayers(idx.layers, local, id, list);
    DropLayersRows(unlinked, list, row);
    if row in unlinked {
      var k :| 0 <= k < |unlinked| && unlinked[k] == row;
      assert idx.layers[k] in idx.layers;
    }
    if r :| r in idx.layers && row == Unlink(r, local, id, list) {
      UnlinkedRow(idx.layers, local, id, list, r);
    }
  }

  /** Deleting one image never un-advertises or deletes a layer that another local image needs. */
  lemma DeleteRefSafe(idx: Index, local: NodeId, full: set<ImageId>, id: ImageId)
    requires RefSafe(idx, local, full) && DeleteImage(idx, local, id).Ok?
    ensures RefSafe(DeleteImage(idx, local, id).value, local, full - {id})
  {
    var after := DeleteImage(idx, local, id).value;
    var list := idx.images[id].layers;
    forall other, d | other in full - {id} && d in after.images[other].layers
      ensures Serves(after.layers, local, other, d)
    {
      assert Serves(idx.layers, local, other, d);
      var row :| row in idx.layers && row.diffId == d && other in row.refs && local in row.availableAt;
      var row' := Unlink(row, local, id, list);
      assert other in row'.refs && local in row'.availableAt;
      DeletedRows(idx, local, id, row');
    }
  }

  lemma ResetRefSafe(idx: Index, local: NodeId, full: set<ImageId>, u: NodeId)
    requires RefSafe(idx, local, full) && u != local
    ensures RefSafe(Reset(idx, u), local, full)
  {
    var after := Reset(idx, u);
    ResetRows(idx, u);
    forall id | id in full ensures id in after.images && local in after.images[id].availableAt {
      assert local in Without(idx.images[id].availableAt, u);
    }
    forall id, d | id in full && d in after.images[id].layers ensures Serves(after.layers, local, id, d) {
      assert Serves(idx.layers, local, id, d);
      var row :| row in idx.layers && row.diffId == d && id in row.refs && local in row.availableAt;
      assert local in Without(row.availableAt, u);
      assert row.(availableAt := Without(row.availableAt, u)) in after.layers;
    }
  }

  lemma {:induction false} AddImagesRefSafe(idx: Index, local: NodeId, full: set<ImageId>,
                                            infos: seq<ImageInfo>, u: NodeId)
    requires RefSafe(idx, local, full)
    ensures RefSafe(AddImages(idx, infos, u), local, full)
    decreases |infos|
  {
    if infos != [] {
      if infos[0].id in idx.images {
        InOrAdded(idx.images[infos[0].id].availableAt, u, local);
      }
      AddImagesRefSafe(AddImage(idx, infos[0], u), local, full, infos[1..], u);
    }
  }

  lemma AddLayerServes(idx: Index, local: NodeId, info: LayerInfo, u: NodeId, id: ImageId, d: DiffId)
    requires Serves(idx.layers, local, id, d)
    ensures Serves(AddLayer(idx, info, u).layers, local, id, d)
  {
    var after := AddLayer(idx, info, u).layers;
    var row :| row in idx.layers && row.diffId == d && id in row.refs && local in row.availableAt;
    var k :| 0 <= k < |idx.layers| && idx.layers[k] == row;
    InOrAdded(row.availableAt, u, local);
    assert after[k] in after;
  }

  lemma {:induction false} AddLayersRefSafe(idx: Index, local: NodeId, full: set<ImageId>,
                                            infos: seq<LayerInfo>, u: NodeId)
    requires RefSafe(idx, local, full)
    ensures RefSafe(AddLayers(idx, infos, u), local, full)
    decreases |infos|
  {
    if infos != [] {
      var after := AddLayer(idx, infos[0], u);
      forall id, d | id in full && d in after.images[id].layers ensures Serves(after.layers, local, id, d) {
        AddLayerServes(idx, local, infos[0], u, id, d);
      }
      AddLayersRefSafe(after, local, full, infos[1..], u);
    }
  }

  // ---------- exactness: the local steps that keep it ----------

  /**
   * What a save must respect.  Without its layers: the list of a fully saved
   * image, as a set, unless it was empty.  With them: no layer of a fully saved
   * image is dropped, and every layer listed twice already has a row.
   */
  ghost predicate SaveGuard(idx: Index, full: set<ImageId>, id: ImageId, found: seq<DiffId>, skip: bool) {
    var was := OldLayers(idx, full, id);
    if skip then was == [] || Elements(was) == Elements(found)
    else Elements(was) <= Elements(found) && RepeatsHaveRows(idx.layers, found)
  }

  /** A save keeps references exact and `diff_id` a key exactly under `SaveGuard`. */
  lemma SaveExactIff(idx: Index, local: NodeId, full: set<ImageId>, id: ImageId, found: seq<DiffId>, skip: bool)
    requires RefSafe(idx, local, full) && Exact(idx, local, full) && UniqueDiffs(idx.layers)
    ensures var after := SaveImage(idx, local, id, found, skip);
            Exact(after, local, FullAfterSave(idx, full, id, found, skip)) && UniqueDiffs(after.layers)
            <==> SaveGuard(idx, full, id, found, skip)
  {
    if skip {
      SkipExactIff(idx, local, full, id, found);
    } else {
      SaveKeepsKeysIff(idx, local, id, found);
      if RepeatsHaveRows(idx.layers, found) {
        FullSaveExactIff(idx, local, full, id, found);
      }
    }
  }

  lemma SkipExactIff(idx: Index, local: NodeId, full: set<ImageId>, id: ImageId, found: seq<DiffId>)
    requires RefSafe(idx, local, full) && Exact(idx, local, full)
    ensures Exact(SaveImage(idx, local, id, found, true), local, FullAfterSave(idx, full, id, found, true))
       <==> SaveGuard(idx, full, id, found, true)
  {
    var after, full' := SaveImage(idx, local, id, found, true), FullAfterSave(idx, full, id, found, true);
    var was := OldLayers(idx, full, id);
    forall row | row in idx.layers
      ensures ExactRow(after.images, row, local, full') <==>
                (row.diffId in was <==> id in full' && row.diffId in found)
    {
      assert ExactRow(idx.images, row, local, full);
    }
    forall d | d in was ensures exists row :: row in idx.layers && row.diffId == d {
      assert Serves(idx.layers, local, id, d);
    }
    assert forall d :: d in Elements(was) <==> d in was;
    assert forall d :: d in Elements(found) <==> d in found;
    assert was != [] ==> was[0] in was;
  }

  lemma FullSaveExactIff(idx: Index, local: NodeId, full: set<ImageId>, id: ImageId, found: seq<DiffId>)
    requires RefSafe(idx, local, full) && Exact(idx, local, full)
    requires UniqueDiffs(SaveImage(idx, local, id, found, false).layers)
    ensures Exact(SaveImage(idx, local, id, found, false), local, full + {id})
       <==> Elements(OldLayers(idx, full, id)) <= Elements(found)
  {
    var after, was := SaveImage(idx, local, id, found, false), OldLayers(idx, full, id);
    SaveLayersGrown(idx.layers, |idx.layers|, local, id, found);
    assert forall d :: d in Elements(was) <==> d in was;
    assert forall d :: d in Elements(found) <==> d in found;
    if Elements(was) <= Elements(found) {
      forall row | row in after.layers ensures ExactRow(after.images, row, local, full + {id}) {
        var k :| 0 <= k < |after.layers| && after.layers[k] == row;
        SavedRowExact(idx, local, full, id, found, k);
      }
    }
    if Exact(after, local, full + {id}) {
      forall d | d in was ensures d in found {
        GrownServes(idx.layers, after.layers, local, id, found, id, d);
        var row :| row in after.layers && row.diffId == d && id in row.refs && local in row.availableAt;
        assert ExactRow(after.images, row, local, full + {id});
      }
    }
  }

  /** One row after a full save, at its position in the table. */
  lemma SavedRowExact(idx: Index, local: NodeId, full: set<ImageId>, id: ImageId, found: seq<DiffId>, k: nat)
    requires RefSafe(idx, local, full) && Exact(idx, local, full)
    requires forall d :: d in OldLayers(idx, full, id) ==> d in found
    requires var after := SaveImage(idx, local, id, found, false);
             && Grown(idx.layers, after.layers, local, id, found) && UniqueDiffs(after.layers)
             && k < |after.layers|
    ensures var after := SaveImage(idx, local, id, found, false);
            ExactRow(after.images, after.layers[k], local, full + {id})
  {
    var after := SaveImage(idx, local, id, found, false);
    var row := after.layers[k];
    if row.diffId in found {
      SaveLayersServes(idx.layers, |idx.layers|, local, id, found, row.diffId);
      var r :| r in after.layers && r.diffId == row.diffId && id in r.refs && local in r.availableAt;
      var m :| 0 <= m < |after.layers| && after.layers[m] == r;
      assert m == k;
    }
    if k < |idx.layers| {
      var was := idx.layers[k];
      assert was in idx.layers && ExactRow(idx.images, was, local, full);
      TouchTwice(was, local, id);
    } else {
      TouchTwice(NewRow(row.diffId), local, id);
      NoRowNoUser(idx, local, full, id, found, k);
    }
  }

  /** A diff id that got a new row is listed by no other fully saved image. */
  lemma NoRowNoUser(idx: Index, local: NodeId, full: set<ImageId>, id: ImageId, found: seq<DiffId>, k: nat)
    requires RefSafe(idx, local, full)
    requires var after := SaveImage(idx, local, id, found, false);
             && Grown(idx.layers, after.layers, local, id, found) && UniqueDiffs(after.layers)
             && |idx.layers| <= k < |after.layers|
    ensures var d := SaveImage(idx, local, id, found, false).layers[k].diffId;
            forall other :: other in full ==> d !in idx.images[other].layers
  {
    var after := SaveImage(idx, local, id, found, false);
    var d := after.layers[k].diffId;
    NewRowIsFirst(idx.layers, after.layers, local, id, found, k);
    forall other | other in full ensures d !in idx.images[other].layers {
      assert !Serves(idx.layers, local, other, d);
    }
  }

  /** A save that raises must list only layers that the row of a fully saved image already has. */
  ghost predicate InterruptedGuard(idx: Index, full: set<ImageId>, id: ImageId, found: seq<DiffId>) {
    forall d :: d in found ==> d in OldLayers(idx, full, id)
  }

  /** A save that raises after its layers were saved keeps references exact exactly under `InterruptedGuard`. */
  lemma InterruptedExactIff(idx: Index, local: NodeId, full: set<ImageId>, id: ImageId, found: seq<DiffId>)
    requires RefSafe(idx, local, full) && Exact(idx, local, full) && UniqueDiffs(idx.layers)
    ensures var after := InterruptedSave(idx, local, id, found);
            Exact(after, local, full) && UniqueDiffs(after.layers) <==> InterruptedGuard(idx, full, id, found)
  {
    var after := InterruptedSave(idx, local, id, found);
    if InterruptedGuard(idx, full, id, found) {
      forall d | d in found ensures Serves(idx.layers, local, id, d) {
      }
      SaveLayersIdle(idx.layers, local, id, found);
    }
    if Exact(after, local, full) {
      forall d | d in found ensures d in OldLayers(idx, full, id) {
        SaveLayersServes(idx.layers, |idx.layers|, local, id, found, d);
        var row :| row in after.layers && row.diffId == d && id in row.refs && local in row.availableAt;
        assert ExactRow(after.images, row, local, full);
      }
    }
  }

  /** Saving layers whose rows already list the image and the local node changes nothing. */
  lemma {:induction false} SaveLayersIdle(layers: seq<LayerRow>, local: NodeId, id: ImageId, found: seq<DiffId>)
    requires UniqueDiffs(layers) && forall d :: d in found ==> Serves(layers, local, id, d)
    ensures SaveLayers(layers, |layers|, local, id, found) == layers
    decreases |found|
  {
    if found != [] {
      var d := found[0];
      var k := FirstRow(layers, d);
      assert Serves(layers, local, id, d);
      var row :| row in layers && row.diffId == d && id in row.refs && local in row.availableAt;
      var m :| 0 <= m < |layers| && layers[m] == row;
      assert m == k && layers[..|layers|] == layers;
      assert SaveLayer(layers, |layers|, local, id, d) == layers;
      assert forall e :: e in found[1..] ==> e in found;
      SaveLayersIdle(layers, local, id, found[1..]);
    }
  }

  /** Every locally advertised layer row falls with its local holder. */
  ghost predicate ResetGuard(layers: seq<LayerRow>, local: NodeId) {
    forall row :: row in layers && local in row.availableAt ==>
      Unavailable(Without(row.availableAt, local), row.downloading)
  }

  /** A local reset keeps references exact exactly under `ResetGuard`. */
  lemma LocalResetExactIff(idx: Index, local: NodeId, full: set<ImageId>)
    requires Exact(idx, local, full)
    ensures Exact(Reset(idx, local), local, {}) <==> ResetGuard(idx.layers, local)
  {
    var after := Reset(idx, local);
    ResetRows(idx, local);
    if ResetGuard(idx.layers, local) {
      forall row | row in after.layers ensures ExactRow(after.images, row, local, {}) {
        var r :| r in idx.layers && row == r.(availableAt := Without(r.availableAt, local));
        assert ExactRow(idx.images, r, local, full);
      }
    }
    if Exact(after, local, {}) {
      forall row | row in idx.layers && local in row.availableAt
        ensures Unavailable(Without(row.availableAt, local), row.downloading)
      {
        assert ExactRow(idx.images, row, local, full);
        var left := row.(availableAt := Without(row.availableAt, local));
        assert row.refs[0] in left.refs && !ExactRow(after.images, left, local, {});
      }
    }
  }

  // ---------- exactness: deletions and syncs keep it ----------

  lemma DeleteExact(idx: Index, local: NodeId, full: set<ImageId>, id: ImageId)
    requires RefSafe(idx, local, full) && Exact(idx, local, full) && DeleteImage(idx, local, id).Ok?
    ensures Exact(DeleteImage(idx, local, id).value, local, full - {id})
  {
    var after := DeleteImage(idx, local, id).value;
    forall row | row in after.layers ensures ExactRow(after.images, row, local, full - {id}) {
      DeletedRows(idx, local, id, row);
      var r :| r in idx.layers && row == Unlink(r, local, id, idx.images[id].layers);
      assert ExactRow(idx.images, r, local, full);
    }
  }

  lemma ResetExact(idx: Index, local: NodeId, full: set<ImageId>, u: NodeId)
    requires RefSafe(idx, local, full) && Exact(idx, local, full) && u != local
    ensures Exact(Reset(idx, u), local, full)
  {
    var after := Reset(idx, u);
    ResetRows(idx, u);
    ResetRefSafe(idx, local, full, u);
    forall row | row in after.layers ensures ExactRow(after.images, row, local, full) {
      var r :| r in idx.layers && row == r.(availableAt := Without(r.availableAt, u));
      assert ExactRow(idx.images, r, local, full);
    }
  }

  lemma {:induction false} AddImagesExact(idx: Index, local: NodeId, full: set<ImageId>,
                                          infos: seq<ImageInfo>, u: NodeId)
    requires RefSafe(idx, local, full) && Exact(idx, local, full)
    ensures Exact(AddImages(idx, infos, u), local, full)
    decreases |infos|
  {
    if infos != [] {
      var after := AddImage(idx, infos[0], u);
      AddImagesRefSafe(idx, local, full, infos[..1], u);
      assert AddImages(idx, infos[..1], u) == after by { assert infos[..1][1..] == []; }
      forall row | row in after.layers ensures ExactRow(after.images, row, local, full) {
        assert ExactRow(idx.images, row, local, full);
      }
      AddImagesExact(after, local, full, infos[1..], u);
    }
  }

  lemma AddLayerExact(idx: Index, local: NodeId, full: set<ImageId>, info: LayerInfo, u: NodeId)
    requires RefSafe(idx, local, full) && Exact(idx, local, full) && u != local
    ensures Exact(AddLayer(idx, info, u), local, full)
  {
    var after := AddLayer(idx, info, u);
    var k := FirstRow(idx.layers, info.diffId);
    forall row | row in after.layers ensures ExactRow(after.images, row, local, full) {
      var m :| 0 <= m < |after.layers| && after.layers[m] == row;
      if m < |idx.layers| {
        assert idx.layers[m] in idx.layers && ExactRow(idx.images, idx.layers[m], local, full);
        InOrAdded(idx.layers[m].availableAt, u, local);
      } else {
        forall id | id in full ensures info.diffId !in idx.images[id].layers {
          assert !Serves(idx.layers, local, id, info.diffId);
        }
      }
    }
  }

  lemma {:induction false} AddLayersExact(idx: Index, local: NodeId, full: set<ImageId>,
                                          infos: seq<LayerInfo>, u: NodeId)
    requires RefSafe(idx, local, full) && Exact(idx, local, full) && u != local
    ensures Exact(AddLayers(idx, infos, u), local, full)
    decreases |infos|
  {
    if infos != [] {
      AddLayerExact(idx, local, full, infos[0], u);
      AddLayersRefSafe(idx, local, full, infos[..1], u);
      assert AddLayers(idx, infos[..1], u) == AddLayer(idx, infos[0], u) by { assert infos[..1][1..] == []; }
      AddLayersExact(AddLayer(idx, infos[0], u), local, full, infos[1..], u);
    }
  }

  // ---------- an advertised layer is used by an image: every step keeps it ----------

  lemma SaveUsed(idx: Index, local: NodeId, id: ImageId, found: seq<DiffId>, skip: bool)
    requires UsedIfLocal(idx.layers, local)
    ensures UsedIfLocal(SaveImage(idx, local, id, found, skip).layers, local)
  {
    var after := SaveImage(idx, local, id, found, skip);
    if !skip {
      SaveLayersGrown(idx.layers, |idx.layers|, local, id, found);
      forall row | row in after.layers && local in row.availableAt ensures row.refs != [] {
        var k :| 0 <= k < |after.layers| && after.layers[k] == row;
        var r := if k < |idx.layers| then idx.layers[k] else NewRow(row.diffId);
        TouchTwice(r, local, id);
        assert k < |idx.layers| ==> r in idx.layers;
      }
    }
  }

  lemma DeleteUsed(idx: Index, local: NodeId, id: ImageId)
    requires UsedIfLocal(idx.layers, local) && DeleteImage(idx, local, id).Ok?
    ensures UsedIfLocal(DeleteImage(idx, local, id).value.layers, local)
  {
    forall row | row in DeleteImage(idx, local, id).value.layers && local in row.availableAt ensures row.refs != [] {
      DeletedRows(idx, local, id, row);
    }
  }

  /** ... a local reset included. */
  lemma ResetUsed(idx: Index, local: NodeId, u: NodeId)
    requires UsedIfLocal(idx.layers, local)
    ensures UsedIfLocal(Reset(idx, u).layers, local)
  {
    ResetRows(idx, u);
  }

  lemma {:induction false} AddImagesUsed(idx: Index, local: NodeId, infos: seq<ImageInfo>, u: NodeId)
    requires UsedIfLocal(idx.layers, local)
    ensures UsedIfLocal(AddImages(idx, infos, u).layers, local)
  {
    AddImagesKeepsLayers(idx, infos, u);
  }

  lemma {:induction false} AddLayersUsed(idx: Index, local: NodeId, infos: seq<LayerInfo>, u: NodeId)
    requires UsedIfLocal(idx.layers, local) && u != local
    ensures UsedIfLocal(AddLayers(idx, infos, u).layers, local)
    decreases |infos|
  {
    if infos != [] {
      var k := FirstRow(idx.layers, infos[0].diffId);
      if k < |idx.layers| {
        assert idx.layers[k] in idx.layers;
        InOrAdded(idx.layers[k].availableAt, u, local);
      }
      AddLayersUsed(AddLayer(idx, infos[0], u), local, infos[1..], u);
    }
  }

  // ---------- holdings of other nodes under local operations ----------

  lemma GrownHoldings(before: seq<LayerRow>, after: seq<LayerRow>, local: NodeId, id: ImageId, found: seq<DiffId>,
                      v: NodeId)
    requires Grown(before, after, local, id, found)
    ensures LayersOf(Index(map[], before), v) <= LayersOf(Index(map[], after), v)
    ensures forall d :: d in LayersOf(Index(map[], after), v) && d !in LayersOf(Index(map[], before), v) ==>
              v == local && d in found
  {
    forall row | row in before && v in row.availableAt ensures row.diffId in LayersOf(Index(map[], after), v) {
      var k :| 0 <= k < |before| && before[k] == row;
      TouchTwice(row, local, id);
      assert after[k] in after;
    }
    forall row | row in after && v in row.availableAt
      ensures row.diffId in LayersOf(Index(map[], before), v) || (v == local && row.diffId in found)
    {
      var k :| 0 <= k < |after| && after[k] == row;
      TouchTwice(if k < |before| then before[k] else NewRow(row.diffId), local, id);
      assert k < |before| ==> before[k] in before;
    }
  }

  /** A save adds the image, and with its layers every listed layer, to the local holdings only. */
  lemma SaveHoldings(idx: Index, local: NodeId, id: ImageId, found: seq<DiffId>, skip: bool, v: NodeId)
    ensures var after := SaveImage(idx, local, id, found, skip);
            && ImagesOf(after, v) == ImagesOf(idx, v) + (if v == local then {id} else {})
            && LayersOf(after, v) == LayersOf(idx, v) + (if v == local && !skip then Elements(found) else {})
  {
    var after := SaveImage(idx, local, id, found, skip);
    InOrAdded(if id in idx.images then idx.images[id].availableAt else [], local, v);
    if !skip {
      SaveLayersGrown(idx.layers, |idx.layers|, local, id, found);
      GrownHoldings(idx.layers, after.layers, local, id, found, v);
      if v == local {
        forall d | d in found ensures d in LayersOf(after, v) {
          SaveLayersServes(idx.layers, |idx.layers|, local, id, found, d);
        }
      }
    }
  }

  lemma InterruptedHoldings(idx: Index, local: NodeId, id: ImageId, found: seq<DiffId>, v: NodeId)
    requires v != local
    ensures var after := InterruptedSave(idx, local, id, found);
            ImagesOf(after, v) == ImagesOf(idx, v) && LayersOf(after, v) == LayersOf(idx, v)
  {
    SaveHoldings(idx, local, id, found, false, v);
    assert InterruptedSave(idx, local, id, found).layers == SaveImage(idx, local, id, found, false).layers;
  }

  lemma DeleteHoldings(idx: Index, local: NodeId, id: ImageId, v: NodeId)
    requires DeleteImage(idx, local, id).Ok? && v != local
    ensures ImagesOf(DeleteImage(idx, local, id).value, v) == ImagesOf(idx, v)
    ensures LayersOf(DeleteImage(idx, local, id).value, v) == LayersOf(idx, v)
  {
    var after := DeleteImage(idx, local, id).value;
    var list := idx.images[id].layers;
    if v in idx.images[id].availableAt {
      assert v in Without(idx.images[id].availableAt, local);
    }
    forall d | d in LayersOf(idx, v) ensures d in LayersOf(after, v) {
      var row :| row in idx.layers && v in row.availableAt && row.diffId == d;
      DeletedRows(idx, local, id, Unlink(row, local, id, list));
    }
    forall d | d in LayersOf(after, v) ensures d in LayersOf(idx, v) {
      var row :| row in after.layers && v in row.availableAt && row.diffId == d;
      DeletedRows(idx, local, id, row);
    }
  }

  /** After a deletion the local node no longer holds the image. */
  lemma DeletedIsGone(idx: Index, local: NodeId, id: ImageId)
    requires DeleteImage(idx, local, id).Ok?
    ensures ImagesOf(DeleteImage(idx, local, id).value, local) == ImagesOf(idx, local) - {id}
  {
  }

  /**
   * Which layers stay advertised after a deletion: those of the rows that the
   * local node advertised and that the image does not list, or that another
   * image is recorded for.
   */
  lemma DeleteAdvertises(idx: Index, local: NodeId, id: ImageId, d: DiffId)
    requires DeleteImage(idx, local, id).Ok?
    ensures d in LayersOf(DeleteImage(idx, local, id).value, local) <==>
              exists row :: row in idx.layers && row.diffId == d && local in row.availableAt
                            && (d in idx.images[id].layers ==> ListsAnother(row, id))
  {
    var after, list := DeleteImage(idx, local, id).value, idx.images[id].layers;
    if row :| row in idx.layers && row.diffId == d && local in row.availableAt
              && (d in list ==> ListsAnother(row, id))
    {
      var row' := Unlink(row, local, id, list);
      assert local in row'.availableAt;
      DeletedRows(idx, local, id, row');
      assert row' in after.layers;
    }
    if d in LayersOf(after, local) {
      var row' :| row' in after.layers && local in row'.availableAt && row'.diffId == d;
      DeletedRows(idx, local, id, row');
      var row :| row in idx.layers && row' == Unlink(row, local, id, list);
      if d in list {
        assert row'.refs != [] && row'.refs[0] in Without(row.refs, id);
      }
    }
  }

  /** The row lists an image other than `id`. */
  ghost predicate ListsAnother(row: LayerRow, id: ImageId) {
    exists other :: other in row.refs && other != id
  }

  lemma OnlyRow(layers: seq<LayerRow>, row: LayerRow)
    requires UniqueDiffs(layers) && row in layers
    ensures forall r :: r in layers && r.diffId == row.diffId ==> r == row
  {
    var k :| 0 <= k < |layers| && layers[k] == row;
    forall r | r in layers && r.diffId == row.diffId ensures r == row {
      var m :| 0 <= m < |layers| && layers[m] == r;
      assert m == k;
    }
  }

  /** The row of a listed layer after a save, and the row it comes from. */
  lemma SavedRow(idx: Index, local: NodeId, id: ImageId, found: seq<DiffId>, d: DiffId)
    returns (row: LayerRow, was: LayerRow)
    requires UniqueDiffs(idx.layers) && RepeatsHaveRows(idx.layers, found) && d in found
    ensures var saved := SaveImage(idx, local, id, found, false).layers;
            row in saved && UniqueDiffs(saved)
    ensures row.diffId == d && local in row.availableAt
    ensures ListsAnother(row, id) <==> ListsAnother(was, id)
    ensures was in idx.layers || (was == NewRow(d) && forall r :: r in idx.layers ==> r.diffId != d)
    ensures was.diffId == d
  {
    var saved := SaveImage(idx, local, id, found, false).layers;
    SaveLayersGrown(idx.layers, |idx.layers|, local, id, found);
    SaveKeepsKeysIff(idx, local, id, found);
    SaveLayersServes(idx.layers, |idx.layers|, local, id, found, d);
    row :| row in saved && row.diffId == d && id in row.refs && local in row.availableAt;
    var k :| 0 <= k < |saved| && saved[k] == row;
    was := if k < |idx.layers| then idx.layers[k] else NewRow(d);
    TouchTwice(was, local, id);
    if k >= |idx.layers| {
      NewRowIsFirst(idx.layers, saved, local, id, found, k);
    }
  }

  /** A row added by a save is the first one with its diff id. */
  lemma NewRowIsFirst(before: seq<LayerRow>, after: seq<LayerRow>, local: NodeId, id: ImageId, found: seq<DiffId>,
                      k: nat)
    requires Grown(before, after, local, id, found) && UniqueDiffs(after) && |before| <= k < |after|
    ensures forall r :: r in before ==> r.diffId != after[k].diffId
  {
    forall r | r in before ensures r.diffId != after[k].diffId {
      var m :| 0 <= m < |before| && before[m] == r;
      assert after[m].diffId == r.diffId;
    }
  }

  /**
   * Saving an image and deleting it again leaves a listed layer advertised
   * exactly when a row of the layer listed another image before.
   */
  lemma SaveThenDelete(idx: Index, local: NodeId, id: ImageId, found: seq<DiffId>, d: DiffId)
    requires UniqueDiffs(idx.layers) && RepeatsHaveRows(idx.layers, found) && d in found
    ensures var end := DeleteImage(SaveImage(idx, local, id, found, false), local, id);
            && end.Ok?
            && (d in LayersOf(end.value, local) <==>
                  exists row :: row in idx.layers && row.diffId == d && ListsAnother(row, id))
  {
    var saved := SaveImage(idx, local, id, found, false);
    var row, was := SavedRow(idx, local, id, found, d);
    DeleteAdvertises(saved, local, id, d);
    OnlyRow(saved.layers, row);
    if was in idx.layers {
      OnlyRow(idx.layers, was);
    }
  }

  // ---------- inputs on which exactness is lost ----------

  function NoIndex(): Index { Index(map[], []) }

  lemma NoIndexIsExact(local: NodeId)
    ensures RefSafe(NoIndex(), local, {}) && Exact(NoIndex(), local, {}) && UniqueDiffs(NoIndex().layers)
  {
  }

  /** An interrupted save: the layer lists an image that was not saved. */
  lemma InterruptedSaveExample()
    ensures Exact(NoIndex(), "n", {}) && !Exact(InterruptedSave(NoIndex(), "n", "i", ["d"]), "n", {})
  {
    var after := InterruptedSave(NoIndex(), "n", "i", ["d"]);
    SaveLayersServes([], 0, "n", "i", ["d"], "d");
    var row :| row in after.layers && row.diffId == "d" && "i" in row.refs && "n" in row.availableAt;
    assert !ExactRow(after.images, row, "n", {});
  }

  /** A changed layer list, saved with or without its layers: the dropped layer still lists the image. */
  lemma ChangedLayersExample(skip: bool)
    ensures var idx := SaveImage(NoIndex(), "n", "i", ["d", "e"], false);
            && Exact(idx, "n", {"i"})
            && !Exact(SaveImage(idx, "n", "i", ["d"], skip), "n", FullAfterSave(idx, {"i"}, "i", ["d"], skip))
  {
    var none, both, one := NoIndex(), ["d", "e"], ["d"];
    var idx := SaveImage(none, "n", "i", both, false);
    assert "d"[0] != "e"[0];
    NoIndexIsExact("n");
    SaveRefSafe(none, "n", {}, "i", both, false);
    SaveExactIff(none, "n", {}, "i", both, false);
    assert {} + {"i"} == {"i"};
    SaveExactIff(idx, "n", {"i"}, "i", one, skip);
    assert "e" in Elements(both) && "e" !in Elements(one);
    if !skip {
      assert RepeatsHaveRows(idx.layers, one);
      SaveKeepsKeysIff(idx, "n", "i", one);
    }
  }

  lemma TwiceInserted(local: NodeId, id: ImageId, d: DiffId)
    ensures |SaveLayers([], 0, local, id, [d, d])| == 2
  {
    var none: seq<LayerRow> := [];
    SaveLayersColumn(none, 0, local, id, [d, d]);
    assert [d, d][1..] == [d] && [d][1..] == [];
    assert DiffColumn(none) == [] && DiffColumn(none[..0]) == [];
    UnseenFirst([], [d, d]);
    UnseenFirst([], [d]);
    assert |DiffColumn(SaveLayers(none, 0, local, id, [d, d]))| == 2;
  }

  lemma TwiceSaved(local: NodeId, id: ImageId, d: DiffId)
    ensures var layers := SaveImage(NoIndex(), local, id, [d, d], false).layers;
            |layers| == 2 && forall row :: row in layers ==> row == LayerRow(d, [local], [id], false)
  {
    var layers := SaveLayers([], 0, local, id, [d, d]);
    TwiceInserted(local, id, d);
    SaveLayersGrown([], 0, local, id, [d, d]);
    forall row | row in layers ensures row == LayerRow(d, [local], [id], false) {
      var m :| 0 <= m < |layers| && layers[m] == row;
    }
  }

  /** A new layer listed twice: the next image that uses the layer is missing from its second row. */
  lemma RepeatedLayerSavedTwice(local: NodeId, id: ImageId, other: ImageId, d: DiffId)
    requires id != other
    ensures var idx := SaveImage(NoIndex(), local, id, [d, d], false);
            && Exact(idx, local, {id})
            && !Exact(SaveImage(idx, local, other, [d], false), local, {id, other})
  {
    var idx := SaveImage(NoIndex(), local, id, [d, d], false);
    TwiceSaved(local, id, d);
    assert idx.layers[0] in idx.layers && idx.layers[1] in idx.layers;
    var after := SaveImage(idx, local, other, [d], false);
    assert [d][1..] == [] && idx.layers[..2] == idx.layers;
    assert after.layers == SaveLayers(SaveLayer(idx.layers, 2, local, other, d), 2, local, other, []);
    var second := after.layers[1];
    assert second in after.layers && other !in second.refs;
    assert !ExactRow(after.images, second, local, {id, other});
  }

  /** The only row of the example, and the row that the local reset leaves. */
  function SharedRow(): LayerRow { LayerRow("d", ["n", "p"], ["i"], false) }

  function LeftRow(): LayerRow { LayerRow("d", ["p"], ["i"], false) }

  function SharedIndex(): Index { Index(map["i" := ImageRow(["d"], ["n", "p"], false)], [SharedRow()]) }

  /**
   * A local reset clears `available_at` but not the references of rows that
   * another node keeps alive: image "i" stays listed although no local image is
   * left, so exactness is lost.
   */
  lemma ResetLeavesStaleReference()
    ensures RefSafe(SharedIndex(), "n", {"i"}) && Exact(SharedIndex(), "n", {"i"})
    ensures Reset(SharedIndex(), "n").layers == [LeftRow()]
    ensures !Exact(Reset(SharedIndex(), "n"), "n", {})
  {
    var idx, left := SharedIndex(), LeftRow();
    assert idx.layers[0] == SharedRow();
    assert Serves(idx.layers, "n", "i", "d");
    assert Without(["n", "p"], "n") == ["p"] by {
      assert ["n", "p"][1..] == ["p"] && ["p"][1..] == [];
      assert "n"[0] != "p"[0];
    }
    assert UnsetLayers(idx.layers, "n") == [left];
    assert KeptLayers([left]) == [left] by { assert [left][1..] == []; }
    var reset := Reset(idx, "n");
    assert left in reset.layers && "i" in left.refs;
    assert !ExactRow(reset.images, left, "n", {});
  }

  /**
   * The consequence: after saving and then deleting an image that uses the layer,
   * the stale reference keeps the layer advertised by a node with no such image.
   */
  lemma StaleReferenceAdvertises(idx: Index)
    requires idx.layers == [LeftRow()] && "k" !in idx.images
    ensures var end := DeleteImage(SaveImage(idx, "n", "k", ["d"], false), "n", "k");
            end.Ok? && "k" !in end.value.images && LayersOf(end.value, "n") == {"d"}
  {
    var saved := SaveImage(idx, "n", "k", ["d"], false);
    assert "k"[0] != "i"[0] && "n"[0] != "p"[0];
    assert idx.layers[0] == LeftRow() && LeftRow().refs[0] == "i" && "i" in LeftRow().refs;
    assert ListsAnother(LeftRow(), "k");
    SaveThenDelete(idx, "n", "k", ["d"], "d");
    SaveHoldings(idx, "n", "k", ["d"], false, "n");
    assert LayersOf(saved, "n") == {"d"};
    forall e | e in LayersOf(DeleteImage(saved, "n", "k").value, "n") ensures e == "d" {
      DeleteAdvertises(saved, "n", "k", e);
    }
    assert Without(["n"], "n") == [] by { assert ["n"][1..] == []; }
  }
}
