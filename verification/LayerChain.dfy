/**
 * From image manifests to layer mappings: chain ids (OCI Image Format
 * Specification, Image Configuration, section "Layer ChainID") and the history
 * rebuilt from a schema 1 manifest.  SHA-256 is any function to hex strings.
 */
module LayerChain {
  import opened Common
  import opened SplitJoin

  type DiffId = string
  type Digest = string

  predicate IsHexDigit(c: char) {
    '0' <= c <= '9' || 'a' <= c <= 'f'
  }

  type Hex = s: string | forall c :: c in s ==> IsHexDigit(c)

  type Hash = string -> Hex

  const ID_PREFIX := "sha256:"

  function AddIdPrefix(s: string): string {
    if ID_PREFIX <= s then s else ID_PREFIX + s
  }

  /** `calc_chain_id`. */
  function CalcChainId(h: Hash, parent: string, diffId: DiffId): string {
    AddIdPrefix(h(parent + " " + diffId))
  }

  /** The `Digest` of the specification. */
  function DigestOf(h: Hash, text: string): Digest {
    "sha256:" + h(text)
  }

  /** ChainID(L0) = DiffID(L0); ChainID(L0|...|Ln) = Digest(ChainID(L0|...|Ln-1) + " " + DiffID(Ln)). */
  function ChainID(h: Hash, diffIds: seq<DiffId>): string
    requires diffIds != []
    decreases |diffIds|
  {
    var n := |diffIds| - 1;
    if n == 0 then diffIds[0]
    else DigestOf(h, ChainID(h, diffIds[..n]) + " " + diffIds[n])
  }

  /** The source's step computes the step of the specification: a hash never starts with the prefix. */
  lemma CalcIsDigest(h: Hash, parent: string, diffId: DiffId)
    ensures CalcChainId(h, parent, diffId) == DigestOf(h, parent + " " + diffId)
  {
    var s: string := h(parent + " " + diffId);
    assert s != "" ==> s[0] in s;
    assert !(ID_PREFIX <= s);
  }

  /** The chain id that the mapping loops have computed after `n` layers. */
  function ChainUpTo(h: Hash, diffIds: seq<DiffId>, n: nat): string
    requires 1 <= n <= |diffIds|
  {
    if n == 1 then diffIds[0] else CalcChainId(h, ChainUpTo(h, diffIds, n - 1), diffIds[n - 1])
  }

  lemma {:induction false} ChainUpToIsChainID(h: Hash, diffIds: seq<DiffId>, n: nat)
    requires 1 <= n <= |diffIds|
    ensures ChainUpTo(h, diffIds, n) == ChainID(h, diffIds[..n])
  {
    if n > 1 {
      ChainUpToIsChainID(h, diffIds, n - 1);
      assert diffIds[..n][..n - 1] == diffIds[..n - 1];
      CalcIsDigest(h, ChainID(h, diffIds[..n - 1]), diffIds[n - 1]);
    }
  }

  // ---------- the mapping loops ----------

  /** `diffid_mapping` and `layerdb_mapping`. */
  datatype Mappings = Mappings(digests: map<DiffId, Digest>, chains: map<DiffId, string>)

  /** The mappings after the first `n` layers. */
  function Mapped(m: Mappings, h: Hash, diffIds: seq<DiffId>, digests: seq<Digest>, n: nat): Mappings
    requires n <= |diffIds| && n <= |digests|
  {
    if n == 0 then m
    else
      var before := Mapped(m, h, diffIds, digests, n - 1);
      Mappings(before.digests[diffIds[n - 1] := digests[n - 1]],
               before.chains[diffIds[n - 1] := ChainUpTo(h, diffIds, n)])
  }

  /** `k` is the last position of its diff id among the first `n`. */
  ghost predicate LastOccurrence(diffIds: seq<DiffId>, n: nat, k: nat) {
    k < n <= |diffIds| && forall j :: k < j < n ==> diffIds[j] != diffIds[k]
  }

  /**
   * Chain ids are correct: each diff id maps to the ChainID of the prefix that
   * ends at its last occurrence, and to the digest at that index.
   */
  lemma {:induction false} MappedAtLastOccurrence(m: Mappings, h: Hash, diffIds: seq<DiffId>, digests: seq<Digest>,
                                                  n: nat, k: nat)
    requires n <= |digests| && LastOccurrence(diffIds, n, k)
    ensures var after := Mapped(m, h, diffIds, digests, n);
            && diffIds[k] in after.digests && after.digests[diffIds[k]] == digests[k]
            && diffIds[k] in after.chains && after.chains[diffIds[k]] == ChainID(h, diffIds[..k + 1])
    decreases n
  {
    if k < n - 1 {
      MappedAtLastOccurrence(m, h, diffIds, digests, n - 1, k);
    } else {
      ChainUpToIsChainID(h, diffIds, n);
    }
  }

  /** The entries of diff ids that the image does not list are untouched, and no others appear. */
  lemma {:induction false} MappedElsewhere(m: Mappings, h: Hash, diffIds: seq<DiffId>, digests: seq<Digest>,
                                           n: nat, d: DiffId)
    requires n <= |diffIds| && n <= |digests| && d !in diffIds[..n]
    ensures var after := Mapped(m, h, diffIds, digests, n);
            && (d in after.digests <==> d in m.digests) && (d in m.digests ==> after.digests[d] == m.digests[d])
            && (d in after.chains <==> d in m.chains) && (d in m.chains ==> after.chains[d] == m.chains[d])
    decreases n
  {
    if n > 0 {
      assert diffIds[..n] == diffIds[..n - 1] + [diffIds[n - 1]];
      MappedElsewhere(m, h, diffIds, digests, n - 1, d);
    }
  }

  /** Every listed diff id has a last occurrence, so the two lemmas above cover all entries. */
  lemma {:induction false} HasLastOccurrence(diffIds: seq<DiffId>, n: nat, d: DiffId) returns (k: nat)
    requires n <= |diffIds| && d in diffIds[..n]
    ensures LastOccurrence(diffIds, n, k) && diffIds[k] == d
  {
    if diffIds[n - 1] == d {
      k := n - 1;
    } else {
      assert diffIds[..n] == diffIds[..n - 1] + [diffIds[n - 1]];
      k := HasLastOccurrence(diffIds, n - 1, d);
    }
  }

  /** Where a mapping loop stands after `i` layers that started from the mappings `m`. */
  ghost predicate MappedUpTo(m: Mappings, h: Hash, diffIds: seq<DiffId>, digests: seq<Digest>, i: nat,
                             chainId: string, now: Mappings)
    requires i <= |diffIds| && i <= |digests| && diffIds != []
  {
    && now == Mapped(m, h, diffIds, digests, i)
    && chainId == if i == 0 then diffIds[0] else ChainUpTo(h, diffIds, i)
  }

  class ContainerPackaging {
    const hash: Hash
    var diffidMapping: map<DiffId, Digest>
    var layerdbMapping: map<DiffId, string>

    constructor (hash: Hash)
      ensures this.hash == hash && Now() == Mappings(map[], map[])
    {
      this.hash, diffidMapping, layerdbMapping := hash, map[], map[];
    }

    function Now(): Mappings
      reads this
    {
      Mappings(diffidMapping, layerdbMapping)
    }

    /** The body of both mapping loops; `chainId` is the id of the layer before, if there is one. */
    method MapLayer(ghost start: Mappings, diffIds: seq<DiffId>, digests: seq<Digest>, i: nat, chainId: string)
      returns (next: string)
      requires i < |diffIds| && i < |digests| && MappedUpTo(start, hash, diffIds, digests, i, chainId, Now())
      modifies this`diffidMapping, this`layerdbMapping
      ensures MappedUpTo(start, hash, diffIds, digests, i + 1, next, Now())
    {
      next := if i == 0 then chainId else CalcChainId(hash, chainId, diffIds[i]);
      diffidMapping := diffidMapping[diffIds[i] := digests[i]];
      layerdbMapping := layerdbMapping[diffIds[i] := next];
    }

    /** The loop of `fetch_config_schema_v2`; a manifest with fewer layers than diff ids raises midway. */
    method MapLayersV2(diffIds: seq<DiffId>, layers: seq<Digest>) returns (r: Result<(), PyError>)
      modifies this`diffidMapping, this`layerdbMapping
      ensures diffIds == [] ==> r == Err(IndexError) && Now() == old(Now())
      ensures diffIds != [] && |diffIds| <= |layers| ==>
                r == Ok(()) && Now() == Mapped(old(Now()), hash, diffIds, layers, |diffIds|)
      ensures |diffIds| > |layers| ==>
                r == Err(IndexError) && Now() == Mapped(old(Now()), hash, diffIds, layers, |layers|)
    {
      if diffIds == [] { return Err(IndexError); }
      ghost var start := Now();
      var chainId, i := diffIds[0], 0;
      while i < |diffIds|
        invariant 0 <= i <= |diffIds| && i <= |layers|
        invariant MappedUpTo(start, hash, diffIds, layers, i, chainId, Now())
      {
        if i >= |layers| { return Err(IndexError); }
        chainId := MapLayer(start, diffIds, layers, i, chainId);
        i := i + 1;
      }
      assert Now() == Mapped(start, hash, diffIds, layers, i);
      return Ok(());
    }

    /** The loop of `fetch_config_schema_v1` over its descriptors, one computed diff id for each. */
    method MapLayersV1(diffIds: seq<DiffId>, descriptors: seq<Digest>) returns (r: Result<(), PyError>)
      requires |diffIds| == |descriptors|
      modifies this`diffidMapping, this`layerdbMapping
      ensures diffIds == [] ==> r == Err(IndexError) && Now() == old(Now())
      ensures diffIds != [] ==>
                r == Ok(()) && Now() == Mapped(old(Now()), hash, diffIds, descriptors, |diffIds|)
    {
      if diffIds == [] { return Err(IndexError); }
      ghost var start := Now();
      var chainId, i := diffIds[0], 0;
      while i < |descriptors|
        invariant 0 <= i <= |descriptors|
        invariant MappedUpTo(start, hash, diffIds, descriptors, i, chainId, Now())
      {
        chainId := MapLayer(start, diffIds, descriptors, i, chainId);
        i := i + 1;
      }
      assert Now() == Mapped(start, hash, diffIds, descriptors, i);
      return Ok(());
    }
  }

  // ---------- the history of a schema 1 manifest ----------

  /** `container_config` of an entry: absent, without a `Cmd` key, or with a list (empty for null). */
  datatype Command = NoConfig | NoCmd | Cmd(words: seq<string>)

  /** One parsed `v1Compatibility` entry. */
  datatype Compat = Compat(created: Option<string>, author: Option<string>, command: Command,
                           comment: Option<string>, throwaway: bool)

  datatype History = History(created: Option<string>, author: Option<string>, createdBy: Option<string>,
                             comment: Option<string>, emptyLayer: bool)

  /** The history entry has the fields of the manifest entry. */
  predicate Describes(entry: History, c: Compat) {
    && entry.created == c.created && entry.author == c.author && entry.comment == c.comment
    && entry.emptyLayer == c.throwaway
    && entry.createdBy == if c.command.Cmd? && c.command.words != [] then Some(Join(c.command.words, ' ')) else None
  }

  /** Manifest index `n - 1 - j` goes to history position `j`: the order is reversed. */
  ghost predicate Reversed(history: seq<History>, compat: seq<Compat>, n: nat)
    requires n <= |compat|
  {
    |history| == n && forall j :: 0 <= j < n ==> Describes(history[j], compat[n - 1 - j])
  }

  /** `ix` lists the manifest indexes from `low` to `n` that have a layer, descending. */
  ghost predicate LayerIndexes(ix: seq<nat>, compat: seq<Compat>, low: nat, n: nat)
    requires n <= |compat|
  {
    && (forall k, l :: 0 <= k < l < |ix| ==> ix[k] > ix[l])
    && (forall k :: 0 <= k < |ix| ==> low <= ix[k] < n && !compat[ix[k]].throwaway)
    && (forall i :: low <= i < n && !compat[i].throwaway ==> i in ix)
  }

  /** The descriptors are the layers of the manifest entries that are no throwaways, last entry first. */
  ghost predicate Taken(descriptors: seq<Digest>, ix: seq<nat>, fsLayers: seq<Digest>) {
    |descriptors| == |ix| && forall k :: 0 <= k < |ix| ==> ix[k] < |fsLayers| && descriptors[k] == fsLayers[ix[k]]
  }

  /** The descriptors follow from the manifest alone. */
  ghost predicate TakenFrom(descriptors: seq<Digest>, compat: seq<Compat>, fsLayers: seq<Digest>)
    requires |fsLayers| <= |compat|
  {
    exists ix: seq<nat> :: LayerIndexes(ix, compat, 0, |fsLayers|) && Taken(descriptors, ix, fsLayers)
  }

  lemma LayerIndexesNext(ix: seq<nat>, compat: seq<Compat>, i: nat, n: nat)
    requires i < n <= |compat| && LayerIndexes(ix, compat, i + 1, n)
    ensures LayerIndexes(if compat[i].throwaway then ix else ix + [i], compat, i, n)
  {
    if !compat[i].throwaway {
      assert (ix + [i])[|ix|] == i;
      assert forall m :: m in ix ==> m in ix + [i];
    }
  }

  /** The positions of the history entries that have a layer. */
  function NonEmpty(history: seq<History>): (r: seq<nat>)
    ensures forall k :: 0 <= k < |r| ==> r[k] < |history|
  {
    if history == [] then []
    else
      var n := |history| - 1;
      NonEmpty(history[..n]) + if history[n].emptyLayer then [] else [n]
  }

  /** `NonEmpty` lists exactly those positions, in ascending order. */
  lemma {:induction false} NonEmptyMeaning(history: seq<History>)
    ensures forall j :: j in NonEmpty(history) <==> 0 <= j < |history| && !history[j].emptyLayer
    ensures forall k, l :: 0 <= k < l < |NonEmpty(history)| ==> NonEmpty(history)[k] < NonEmpty(history)[l]
  {
    if history != [] {
      NonEmptyMeaning(history[..|history| - 1]);
    }
  }

  lemma NonEmptyAppend(history: seq<History>, entry: History)
    ensures NonEmpty(history + [entry]) == NonEmpty(history) + if entry.emptyLayer then [] else [|history|]
  {
    assert (history + [entry])[..|history|] == history;
  }

  /** The k-th descriptor is the layer at the manifest index of the k-th non-empty history entry. */
  ghost predicate Aligned(history: seq<History>, descriptors: seq<Digest>, fsLayers: seq<Digest>)
    requires |history| <= |fsLayers|
  {
    && |descriptors| == |NonEmpty(history)|
    && forall k :: 0 <= k < |descriptors| ==> descriptors[k] == fsLayers[|fsLayers| - 1 - NonEmpty(history)[k]]
  }

  lemma AlignedAppend(history: seq<History>, descriptors: seq<Digest>, fsLayers: seq<Digest>, entry: History)
    requires |history| < |fsLayers| && Aligned(history, descriptors, fsLayers)
    ensures var more := if entry.emptyLayer then [] else [fsLayers[|fsLayers| - 1 - |history|]];
            Aligned(history + [entry], descriptors + more, fsLayers)
  {
    NonEmptyAppend(history, entry);
    var before, after := NonEmpty(history), NonEmpty(history + [entry]);
    var more := if entry.emptyLayer then [] else [fsLayers[|fsLayers| - 1 - |history|]];
    forall k | 0 <= k < |descriptors + more|
      ensures (descriptors + more)[k] == fsLayers[|fsLayers| - 1 - after[k]]
    {
      assert after[k] == if k < |before| then before[k] else |history|;
    }
  }

  /** The history rebuilt so far has the fields of the manifest entries from `low` on. */
  ghost predicate Described(history: seq<History>, compat: seq<Compat>, low: nat, n: nat)
    requires low <= n <= |compat|
  {
    |history| == n - low && forall j :: 0 <= j < |history| ==> Describes(history[j], compat[n - 1 - j])
  }

  /** Where the reversal stands when the manifest entries from `low` on are done. */
  ghost predicate Rebuilt(history: seq<History>, descriptors: seq<Digest>, ix: seq<nat>,
                          fsLayers: seq<Digest>, compat: seq<Compat>, low: nat)
    requires low <= |fsLayers| <= |compat|
  {
    && Described(history, compat, low, |fsLayers|)
    && LayerIndexes(ix, compat, low, |fsLayers|) && Taken(descriptors, ix, fsLayers)
    && Aligned(history, descriptors, fsLayers)
  }

  lemma TakenNext(descriptors: seq<Digest>, ix: seq<nat>, fsLayers: seq<Digest>, i: nat)
    requires i < |fsLayers| && Taken(descriptors, ix, fsLayers)
    ensures Taken(descriptors + [fsLayers[i]], ix + [i], fsLayers)
  {
  }

  lemma DescribedNext(history: seq<History>, compat: seq<Compat>, i: nat, n: nat, entry: History)
    requires i < n <= |compat| && Described(history, compat, i + 1, n) && Describes(entry, compat[i])
    ensures Described(history + [entry], compat, i, n)
  {
  }

  lemma RebuildStep(history: seq<History>, descriptors: seq<Digest>, ix: seq<nat>,
                    fsLayers: seq<Digest>, compat: seq<Compat>, i: nat, entry: History)
    requires i < |fsLayers| <= |compat| && Rebuilt(history, descriptors, ix, fsLayers, compat, i + 1)
    requires Describes(entry, compat[i])
    ensures if compat[i].throwaway then Rebuilt(history + [entry], descriptors, ix, fsLayers, compat, i)
            else Rebuilt(history + [entry], descriptors + [fsLayers[i]], ix + [i], fsLayers, compat, i)
  {
    assert Described(history + [entry], compat, i, |fsLayers|) by {
      DescribedNext(history, compat, i, |fsLayers|, entry);
    }
    LayerIndexesNext(ix, compat, i, |fsLayers|);
    TakenNext(descriptors, ix, fsLayers, i);
    AlignedNext(history, descriptors, fsLayers, entry, i);
  }

  lemma AlignedNext(history: seq<History>, descriptors: seq<Digest>, fsLayers: seq<Digest>, entry: History, i: nat)
    requires |history| < |fsLayers| && Aligned(history, descriptors, fsLayers) && i == |fsLayers| - 1 - |history|
    ensures entry.emptyLayer ==> Aligned(history + [entry], descriptors, fsLayers)
    ensures !entry.emptyLayer ==> Aligned(history + [entry], descriptors + [fsLayers[i]], fsLayers)
  {
    AlignedAppend(history, descriptors, fsLayers, entry);
    assert descriptors + [] == descriptors;
  }

  /** An entry that the loop reads has a `container_config` without `Cmd`. */
  ghost predicate LacksCmd(compat: seq<Compat>, low: nat, n: nat)
    requires n <= |compat|
  {
    exists i :: low <= i < n && compat[i].command.NoCmd?
  }

  /**
   * The reversal loop: one history entry per `fsLayer` in reverse order with the
   * fields of its manifest entry, and as descriptors the layers of the entries
   * that are no throwaways.  The k-th descriptor belongs to the k-th history
   * entry with a layer.  A history that is too short raises at the first access.
   */
  method RebuildHistory(fsLayers: seq<Digest>, compat: seq<Compat>)
    returns (r: Result<(seq<History>, seq<Digest>), PyError>)
    ensures |compat| < |fsLayers| ==> r == Err(IndexError)
    ensures |fsLayers| <= |compat| && LacksCmd(compat, 0, |fsLayers|) ==> r == Err(KeyError)
    ensures |fsLayers| <= |compat| && !LacksCmd(compat, 0, |fsLayers|) ==>
              && r.Ok?
              && Reversed(r.value.0, compat, |fsLayers|)
              && TakenFrom(r.value.1, compat, fsLayers)
              && Aligned(r.value.0, r.value.1, fsLayers)
  {
    if |fsLayers| > |compat| { return Err(IndexError); }
    var history: seq<History>, descriptors: seq<Digest> := [], [];
    ghost var ix: seq<nat> := [];
    var i := |fsLayers| - 1;
    while i >= 0
      invariant -1 <= i <= |fsLayers| - 1
      invariant !LacksCmd(compat, i + 1, |fsLayers|)
      invariant Rebuilt(history, descriptors, ix, fsLayers, compat, i + 1)
      decreases i
    {
      var c := compat[i];
      if c.command.NoCmd? { return Err(KeyError); }
      var createdBy := if c.command.Cmd? && c.command.words != [] then Some(Join(c.command.words, ' ')) else None;
      var entry := History(c.created, c.author, createdBy, c.comment, c.throwaway);
      RebuildStep(history, descriptors, ix, fsLayers, compat, i, entry);
      history := history + [entry];
      if !c.throwaway {
        descriptors, ix := descriptors + [fsLayers[i]], ix + [i];
      }
      i := i - 1;
    }
    return Ok((history, descriptors));
  }
}
