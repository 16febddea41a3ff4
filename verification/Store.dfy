/**
 * The database of one daemon and the plugin methods that load, mutate and save
 * its rows.  Each method is proved to compute the operation of NodeIndex.dfy.
 */
module Store {
  import opened Common
  import opened NodeIndex
  import opened References

  /** A loaded or new `ContainerImage` object. */
  class ContainerImage {
    const hashId: ImageId
    var layers: seq<DiffId>
    var availableAt: seq<NodeId>
    var downloading: bool

    constructor (hashId: ImageId, row: ImageRow)
      ensures this.hashId == hashId && Row() == row
    {
      this.hashId, layers, availableAt, downloading := hashId, row.layers, row.availableAt, row.downloading;
    }

    function Row(): ImageRow
      reads this
    {
      ImageRow(layers, availableAt, downloading)
    }

    method SetAvailableAt(uuid: NodeId)
      modifies this`availableAt
      ensures availableAt == AddOnce(old(availableAt), uuid)
    {
      if uuid in availableAt { return; }
      availableAt := availableAt + [uuid];
    }

    method UnsetAvailableAt(uuid: NodeId)
      modifies this`availableAt
      ensures availableAt == Without(old(availableAt), uuid)
    {
      if uuid !in availableAt { return; }
      availableAt := Without(availableAt, uuid);
    }
  }

  /** A loaded or new `ContainerLayer` object; `row` is its primary key once it has one. */
  class ContainerLayer {
    const diffId: DiffId
    const row: Option<nat>
    var availableAt: seq<NodeId>
    var localImageRefs: seq<ImageId>
    var downloading: bool

    constructor (row: Option<nat>, content: LayerRow)
      ensures this.row == row && diffId == content.diffId && Row() == content
    {
      this.row, diffId := row, content.diffId;
      availableAt, localImageRefs, downloading := content.availableAt, content.refs, content.downloading;
    }

    function Row(): LayerRow
      reads this
    {
      LayerRow(diffId, availableAt, localImageRefs, downloading)
    }

    method SetAvailableAt(uuid: NodeId)
      modifies this`availableAt
      ensures availableAt == AddOnce(old(availableAt), uuid)
    {
      if uuid in availableAt { return; }
      availableAt := availableAt + [uuid];
    }

    method UnsetAvailableAt(uuid: NodeId)
      modifies this`availableAt
      ensures availableAt == Without(old(availableAt), uuid)
    {
      if uuid !in availableAt { return; }
      availableAt := Without(availableAt, uuid);
    }

    method SetLocalImageRefs(id: ImageId)
      modifies this`localImageRefs
      ensures localImageRefs == AddOnce(old(localImageRefs), id)
    {
      if id in localImageRefs { return; }
      localImageRefs := localImageRefs + [id];
    }

    method UnsetLocalImageRefs(id: ImageId)
      modifies this`localImageRefs
      ensures localImageRefs == Without(old(localImageRefs), id)
    {
      if id !in localImageRefs { return; }
      localImageRefs := Without(localImageRefs, id);
    }
  }

  class Database {
    const local: NodeId
    var images: map<ImageId, ImageRow>
    var layers: seq<LayerRow>

    constructor (local: NodeId)
      ensures this.local == local && Now() == Index(map[], [])
    {
      this.local, images, layers := local, map[], [];
    }

    /** The tables as a value. */
    function Now(): Index
      reads this
    {
      Index(images, layers)
    }

    // ---------- loading and saving rows ----------

    method SaveImageRow(image: ContainerImage)
      modifies this`images
      ensures images == old(images)[image.hashId := image.Row()]
    {
      images := images[image.hashId := image.Row()];
    }

    /** `layer.save()`: an update when the object has a key, an insertion otherwise. */
    method SaveLayerRow(layer: ContainerLayer)
      requires layer.row.Some? ==> layer.row.value < |layers|
      modifies this`layers
      ensures layers == if layer.row.Some? then old(layers)[layer.row.value := layer.Row()]
                        else old(layers) + [layer.Row()]
    {
      if layer.row.Some? {
        layers := layers[layer.row.value := layer.Row()];
      } else {
        layers := layers + [layer.Row()];
      }
    }

    /** `ContainerLayer.get(diff_id == d)`, or a new object. */
    method GetOrNewLayer(d: DiffId) returns (layer: ContainerLayer)
      ensures fresh(layer)
      ensures var k := FirstRow(layers, d);
              layer.row == (if k < |layers| then Some(k) else None)
              && layer.Row() == (if k < |layers| then layers[k] else NewRow(d))
    {
      var k := FirstRow(layers, d);
      if k < |layers| {
        layer := new ContainerLayer(Some(k), layers[k]);
      } else {
        layer := new ContainerLayer(None, LayerRow(d, [], [], false));
      }
    }

    // ---------- reset_info_of_node ----------

    /** One row of the loop below. */
    method UnsetImageOf(i: ImageId, u: NodeId)
      requires i in images
      modifies this`images
      ensures images == old(images)[i := UnsetImages(old(images), u)[i]]
    {
      var image := new ContainerImage(i, images[i]);
      if u in image.availableAt {
        image.UnsetAvailableAt(u);
        SaveImageRow(image);
      }
    }

    method UnsetImagesOf(u: NodeId)
      modifies this`images
      ensures images == UnsetImages(old(images), u)
    {
      var todo := images.Keys;
      while todo != {}
        invariant todo <= images.Keys == old(images).Keys
        invariant forall i :: i in todo ==> images[i] == old(images)[i]
        invariant forall i :: i in images && i !in todo ==> images[i] == UnsetImages(old(images), u)[i]
        decreases |todo|
      {
        var i :| i in todo;
        UnsetImageOf(i, u);
        todo := todo - {i};
      }
    }

    method UnsetLayersOf(u: NodeId)
      modifies this`layers
      ensures layers == UnsetLayers(old(layers), u)
    {
      var k := 0;
      while k < |layers|
        invariant 0 <= k <= |layers| == |old(layers)|
        invariant forall i :: 0 <= i < k ==> layers[i] == UnsetLayers(old(layers), u)[i]
        invariant forall i :: k <= i < |layers| ==> layers[i] == old(layers)[i]
      {
        var layer := new ContainerLayer(Some(k), layers[k]);
        if u in layer.availableAt {
          layer.UnsetAvailableAt(u);
          SaveLayerRow(layer);
        }
        k := k + 1;
      }
    }

    /** The two `DELETE ... WHERE` statements. */
    method DeleteUnavailableObjects()
      modifies this
      ensures Now() == DeleteUnavailable(old(Now()))
    {
      images := map i | i in images && !Unavailable(images[i].availableAt, images[i].downloading) :: images[i];
      layers := KeptLayers(layers);
    }

    method ResetInfoOfNode(u: NodeId)
      modifies this
      ensures Now() == Reset(old(Now()), u)
    {
      UnsetImagesOf(u);
      UnsetLayersOf(u);
      DeleteUnavailableObjects();
    }

    // ---------- sync ----------

    method SaveImageAtNode(info: ImageInfo, u: NodeId)
      modifies this`images
      ensures Now() == AddImage(old(Now()), info, u)
    {
      if info.id in images {
        var image := new ContainerImage(info.id, images[info.id]);
        image.SetAvailableAt(u);
        SaveImageRow(image);
      } else {
        var image := new ContainerImage(info.id, ImageRow(info.layers, [u], info.downloading));
        SaveImageRow(image);
      }
    }

    method FetchImagesFromPeer(reply: seq<ImageInfo>, u: NodeId)
      modifies this`images
      ensures Now() == AddImages(old(Now()), reply, u)
    {
      var i := 0;
      while i < |reply|
        invariant 0 <= i <= |reply|
        invariant AddImages(Now(), reply[i..], u) == AddImages(old(Now()), reply, u)
      {
        assert reply[i..][0] == reply[i] && reply[i..][1..] == reply[i + 1..];
        SaveImageAtNode(reply[i], u);
        i := i + 1;
      }
    }

    method SaveLayerAtNode(info: LayerInfo, u: NodeId)
      modifies this`layers
      ensures Now() == AddLayer(old(Now()), info, u)
    {
      var layer := GetOrNewLayer(info.diffId);
      if layer.row.Some? {
        layer.SetAvailableAt(u);
      } else {
        layer := new ContainerLayer(None, LayerRow(info.diffId, [u], [], info.downloading));
      }
      SaveLayerRow(layer);
    }

    method FetchLayersFromPeer(reply: seq<LayerInfo>, u: NodeId)
      modifies this`layers
      ensures Now() == AddLayers(old(Now()), reply, u)
    {
      var i := 0;
      while i < |reply|
        invariant 0 <= i <= |reply|
        invariant AddLayers(Now(), reply[i..], u) == AddLayers(old(Now()), reply, u)
      {
        assert reply[i..][0] == reply[i] && reply[i..][1..] == reply[i + 1..];
        SaveLayerAtNode(reply[i], u);
        i := i + 1;
      }
    }

    /** The docker plugin's `sync`, when no request fails. */
    method SyncWith(u: NodeId, imageReply: seq<ImageInfo>, layerReply: seq<LayerInfo>)
      modifies this
      ensures Now() == Sync(old(Now()), u, imageReply, layerReply)
    {
      ResetInfoOfNode(u);
      FetchImagesFromPeer(imageReply, u);
      FetchLayersFromPeer(layerReply, u);
    }

    // ---------- save_image ----------

    /** `get_image_layers`: one object per listed diff id, all loaded before any is saved. */
    method GetImageLayers(found: seq<DiffId>, id: ImageId) returns (objects: seq<ContainerLayer>)
      ensures |objects| == |found|
      ensures forall i :: 0 <= i < |found| ==> fresh(objects[i])
      ensures forall i, j :: 0 <= i < j < |found| ==> objects[i] != objects[j]
      ensures forall i :: 0 <= i < |found| ==> Loaded(objects[i], layers, found[i], id)
    {
      objects := [];
      while |objects| < |found|
        invariant |objects| <= |found|
        invariant forall i :: 0 <= i < |objects| ==> fresh(objects[i])
        invariant forall i, j :: 0 <= i < j < |objects| ==> objects[i] != objects[j]
        invariant forall i :: 0 <= i < |objects| ==> Loaded(objects[i], layers, found[i], id)
      {
        var layer := GetOrNewLayer(found[|objects|]);
        layer.SetLocalImageRefs(id);
        objects := objects + [layer];
      }
    }

    /** One iteration of the saving loop, for an object loaded from the table `before`. */
    method AdvertiseLayer(layer: ContainerLayer, id: ImageId, d: DiffId, ghost before: seq<LayerRow>)
      requires Loaded(layer, before, d, id) && TouchedFrom(before, layers, local, id)
      modifies this`layers, layer`availableAt
      ensures layers == SaveLayer(old(layers), |before|, local, id, d)
      ensures TouchedFrom(before, layers, local, id)
    {
      layer.SetAvailableAt(local);
      SavedObject(before, layers, local, id, d);
      SaveLayerRow(layer);
    }

    /** The loop that advertises and saves the loaded layers. */
    method SaveImageLayers(objects: seq<ContainerLayer>, id: ImageId, found: seq<DiffId>)
      requires |objects| == |found|
      requires forall i, j :: 0 <= i < j < |found| ==> objects[i] != objects[j]
      requires forall i :: 0 <= i < |found| ==> Loaded(objects[i], layers, found[i], id)
      modifies this`layers, objects
      ensures layers == SaveLayers(old(layers), |old(layers)|, local, id, found)
    {
      ghost var before := layers;
      var i := 0;
      while i < |objects|
        invariant 0 <= i <= |objects|
        invariant TouchedFrom(before, layers, local, id)
        invariant forall j :: i <= j < |found| ==> Loaded(objects[j], before, found[j], id)
        invariant SaveLayers(layers, |before|, local, id, found[i..]) == SaveLayers(before, |before|, local, id, found)
      {
        assert found[i..][0] == found[i] && found[i..][1..] == found[i + 1..];
        AdvertiseLayer(objects[i], id, found[i], before);
        i := i + 1;
      }
    }

    /** Loading all layer objects and, unless skipped, advertising and saving them. */
    method SaveLayersOf(id: ImageId, found: seq<DiffId>, skip: bool)
      modifies this`layers
      ensures layers == if skip then old(layers) else SaveLayers(old(layers), |old(layers)|, local, id, found)
    {
      var objects := GetImageLayers(found, id);
      if !skip {
        SaveImageLayers(objects, id, found);
      }
    }

    /**
     * `configReadable` says whether the image's configuration file can be read; if
     * not, the call raises after the layers were saved.
     */
    method SaveImage(id: ImageId, found: seq<DiffId>, skip: bool, configReadable: bool) returns (ok: bool)
      modifies this
      ensures ok == configReadable
      ensures Now() == if ok then NodeIndex.SaveImage(old(Now()), local, id, found, skip)
                       else if skip then old(Now())
                       else InterruptedSave(old(Now()), local, id, found)
    {
      var holders := if id in images then images[id].availableAt else [];
      SaveLayersOf(id, found, skip);
      var image := new ContainerImage(id, ImageRow(found, holders, false));
      image.SetAvailableAt(local);
      if !configReadable { return false; }
      SaveImageRow(image);
      return true;
    }

    // ---------- delete_image ----------

    method UnsetLocalLayer(k: nat, list: seq<DiffId>, id: ImageId)
      requires k < |layers|
      modifies this`layers
      ensures layers == old(layers)[k := Unlink(old(layers)[k], local, id, list)]
    {
      if layers[k].diffId in list && local in layers[k].availableAt {
        var layer := new ContainerLayer(Some(k), layers[k]);
        layer.UnsetLocalImageRefs(id);
        if layer.localImageRefs == [] {
          layer.UnsetAvailableAt(local);
        }
        SaveLayerRow(layer);
      }
    }

    method UnsetLocalLayers(list: seq<DiffId>, id: ImageId)
      modifies this`layers
      ensures layers == UnlinkLayers(old(layers), local, id, list)
    {
      var k := 0;
      while k < |layers|
        invariant 0 <= k <= |layers| == |old(layers)|
        invariant forall i :: 0 <= i < k ==> layers[i] == Unlink(old(layers)[i], local, id, list)
        invariant forall i :: k <= i < |layers| ==> layers[i] == old(layers)[i]
      {
        UnsetLocalLayer(k, list, id);
        k := k + 1;
      }
    }

    method DeleteLayers(list: seq<DiffId>)
      modifies this`layers
      ensures layers == DropLayers(old(layers), list)
    {
      var k := 0;
      assert [] + DropLayers(layers, list) == DropLayers(layers, list);
      while k < |layers|
        invariant 0 <= k <= |layers|
        invariant layers[..k] + DropLayers(layers[k..], list) == DropLayers(old(layers), list)
        decreases |layers| - k
      {
        DropAt(layers, k, list);
        if layers[k].diffId in list && layers[k].availableAt == [] {
          layers := layers[..k] + layers[k + 1..];
        } else {
          k := k + 1;
        }
      }
      assert layers[..k] + [] == layers;
    }

    method DeleteImage(id: ImageId) returns (result: Result<(), PyError>)
      modifies this
      ensures match NodeIndex.DeleteImage(old(Now()), local, id)
              case Ok(after) => result == Ok(()) && Now() == after
              case Err(e) => result == Err(e) && Now() == old(Now())
    {
      if id !in images { return Err(KeyError); }
      var image := new ContainerImage(id, images[id]);
      image.UnsetAvailableAt(local);
      UnsetLocalLayers(image.layers, id);
      if image.availableAt != [] {
        SaveImageRow(image);
      } else {
        images := images - {id};
        DeleteLayers(image.layers);
      }
      return Ok(());
    }
  }

  /** Dropping from position `k` on: either the row goes, or it is passed over. */
  lemma DropAt(layers: seq<LayerRow>, k: nat, list: seq<DiffId>)
    requires k < |layers|
    ensures var whole := layers[..k] + DropLayers(layers[k..], list);
            var without := layers[..k] + layers[k + 1..];
            if layers[k].diffId in list && layers[k].availableAt == []
            then without[..k] + DropLayers(without[k..], list) == whole
            else layers[..k + 1] + DropLayers(layers[k + 1..], list) == whole
  {
    var rest := layers[k + 1..];
    var without := layers[..k] + rest;
    assert layers[k..][0] == layers[k] && layers[k..][1..] == rest;
    assert without[..k] == layers[..k] && without[k..] == rest;
    assert layers[..k + 1] == layers[..k] + [layers[k]];
    assert (layers[..k] + [layers[k]]) + DropLayers(rest, list) == layers[..k] + ([layers[k]] + DropLayers(rest, list));
    assert [] + DropLayers(rest, list) == DropLayers(rest, list);
  }

  /** A layer object as `get_image_layers` returns it, not yet advertised. */
  ghost predicate Loaded(layer: ContainerLayer, layers: seq<LayerRow>, d: DiffId, id: ImageId)
    reads layer
  {
    var k := FirstRow(layers, d);
    var row := if k < |layers| then layers[k] else NewRow(d);
    && layer.row == (if k < |layers| then Some(k) else None)
    && layer.Row() == row.(refs := AddOnce(row.refs, id))
  }

  /** The first rows of `layers` are those of `before`, some of them touched. */
  ghost predicate TouchedFrom(before: seq<LayerRow>, layers: seq<LayerRow>, local: NodeId, id: ImageId) {
    && |before| <= |layers|
    && forall j :: 0 <= j < |before| ==> layers[j] == before[j] || layers[j] == Touch(before[j], local, id)
  }

  /** Saving the stale copy of a row writes what `SaveLayer` writes. */
  lemma SavedObject(before: seq<LayerRow>, layers: seq<LayerRow>, local: NodeId, id: ImageId, d: DiffId)
    requires TouchedFrom(before, layers, local, id)
    ensures var k := FirstRow(before, d);
            SaveLayer(layers, |before|, local, id, d)
            == if k < |before| then layers[k := Touch(before[k], local, id)]
               else layers + [Touch(NewRow(d), local, id)]
  {
    var k, m := FirstRow(before, d), FirstRow(layers[..|before|], d);
    assert forall j :: 0 <= j < |before| ==> layers[..|before|][j].diffId == before[j].diffId;
    assert k == m;
    if k < |before| {
      TouchTwice(before[k], local, id);
    }
  }
}
