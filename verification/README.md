# Beiran: verified models

Dafny models of the parts of Beiran whose correctness is least visible in the
code, with proofs. `dafny verify dfyconfig.toml` checks the whole project.

The streaming JSONPath evaluator (`beiran/util.py`)

- `SubPath.dfy` is the path parser as it consumes its character list, with a
  printer that inverts it; `PathGrammar.dfy` is the language it accepts and the
  exceptions of all other texts; `PyInt.dfy` is `int` and `str`.
- `JsonStreamer.dfy` is the event machine with its key stack, value stack and
  depth counter, as a class and as a function of its state.
- `TreeSelection.dfy` proves that the machine refines the selection of nodes from
  the finished tree; `StackInvariant.dfy` says what the stacks hold at each pop;
  `PathSemantics.dfy` proves that the bottom-up machine computes the top-down
  evaluation of the path; `Slices.dfy` goes from path texts to slices and index
  lists. `Arithmetic.dfy` has the facts about division that these and `Probe.dfy` use.

The replicated index of images and layers (docker and container plugins, `peer.py`)

- `NodeIndex.dfy` has the tables of one node and every operation on them as
  values; `Store.dfy` has the methods that load, mutate and save row objects,
  proved to compute these operations.
- `Rows.dfy` says what each operation does to each row. `IndexKeys.dfy` and
  `References.dfy` prove what the operations keep: keys, repetition-free lists, and
  the local reference counts of layers.
- `Cluster.dfy` is the replication protocol as a transition system: any number of
  peers that change, announce changes late, and are polled, wiped, refetched and
  recorded, interleaved with local saves, deletions and resets, with failures at
  any point.

The lifecycle of peers

- `PeerLoop.dfy` is the loop of one connection and its failure detector,
  `Probe.dfy` the retry loop over addresses, `Registry.dfy` the probe tasks with
  the peer registry, `Discovery.dfy` the DNS discovery rounds.

Image references and layer chains (container plugin)

- `ImageRef.dfy` with `SplitJoin.dfy` is the reference parser and printer;
  `LayerChain.dfy` has chain ids (OCI Image Format Specification, Image
  Configuration, section "Layer ChainID") and the schema 1 history.

## Assumptions

- Events of a document come in the order of the text; a scalar inside an object is
  a `value` event and any other scalar an `element` event.
- One step of the protocol is the code between two suspension points:
  `reset_info_of_node`, each re-add loop, `save_image` and `delete_image` are single
  steps. A reply to a fetch lists what the peer holds when it is fetched and is
  applied in a later step.
- Each peer is served by one loop; that the daemon starts one is proved in `Registry.dfy`.
- `LIKE '%"x"%'` on a list column is membership, and `ContainerLayer.get` finds the
  first matching row.
- `fully saved` images are those whose last local save wrote their layer rows, or
  listed only layers that such a save had written.
- SHA-256 is any function to strings of hexadecimal digits.

## Where code and documentation differ

The model follows the code.

- `parse_subpath` documents slices with exactly two colons. The code also takes one
  colon and index lists, and its numbers are whatever `int` takes; a single index
  `$[3]` raises (`Slices.SingleIndexRaises`).
- `reset_info_of_node` is documented as deleting local objects; it resets any node.
- `probe_node` documents `retries = -1` as trying until the node is found and
  `extra_addr` as further addresses to check. With -1 only the first address is
  tried (`Probe.ForeverFirst`), and the extra addresses are never tried
  (`Probe.ExtraAddressesRaise`).
- A probe of an address that carries a uuid registers nothing
  (`Registry.RegistersIff`), and a removed node does not come back
  (`Registry.RemovedStaysRemoved`).

Properties that fail in general come with inputs on which they fail and the exact
condition under which they hold:

- agreement with a peer that never announced a change (`Cluster.UnannouncedPeerExample`,
  `Cluster.VersionSyncSafety`);
- `diff_id` as a key, for a new image that lists a layer twice
  (`IndexKeys.RepeatedLayerExample`, `IndexKeys.SaveKeepsKeysIff`);
- exact references after a local reset (`References.ResetLeavesStaleReference`), an
  interrupted save (`References.InterruptedSaveExample`), a changed layer list
  (`References.ChangedLayersExample`) or a repeated new layer
  (`References.RepeatedLayerSavedTwice`), with the conditions in
  `References.LocalResetExactIff`, `References.InterruptedExactIff` and
  `References.SaveExactIff`, and over runs in `Cluster.ReferenceExactness`;
- alternating discovery events (`Discovery.RepeatedNewcomerExample`,
  `Discovery.Reconciles`);
- idempotent normalisation (`ImageRef.EmptyPathExamples`, `ImageRef.IdempotentIff`).

## Model

| member | source | states |
|---|---|---|
| PyInt.ToIntOfText | beiran/util.py:196-221 | `int(str(n)) == n` for every integer, through the model of `int` with its white space, signs and underscores |
| PyInt.ToIntMeaning | beiran/util.py:196-221 | for every text, `int(text)` gives n if and only if the text is white space, an optional sign, digits with single underscores between them, and white space, with that value |
| PyInt.SpaceBeforeNumber | beiran/util.py:196-221 | a number behind a blank or a tab, as in `$[0, 2]`, is read |
| PyInt.NumberExample | beiran/util.py:196-221 | ` -1_0 ` is read as -10 |
| SubPath.TakeUntil | beiran/util.py:175-180 | the loop takes exactly the characters before the first stop character and leaves the rest |
| SubPath.ReadSlice | beiran/util.py:196-216 | what one `[a:b:c]` selector consumes and gives, or which exception it raises |
| SubPath.ReadIndexes | beiran/util.py:217-221 | an index list ends in a sorted list of all its numbers, or in the exception of the first malformed piece |
| SubPath.ReadSelector | beiran/util.py:188-225 | one pass of the main loop: the rule of the selector and the characters left, or the exception |
| SubPath.ParseSubpath | beiran/util.py:146-227 | the loop that destructively consumes characters computes the parse of the whole text and ends because the list shrinks |
| SubPath.SortedIsPermutation | beiran/util.py:221 | the stored index list is an ordered permutation of the written one |
| SubPath.ParsePrint | beiran/util.py:146-227 | printing a canonical rule list and parsing the text gives the list back |
| SubPath.ParseRange | beiran/util.py:146-227 | a rule list is the parse of some text if and only if it is canonical |
| SubPath.ParsePrintParse | beiran/util.py:146-227 | for every text the parser accepts, printing its rules and parsing again changes nothing |
| PathGrammar.SelectorSpelled | beiran/util.py:188-225 | a selector is read from any of its spellings, whatever follows it |
| PathGrammar.ParseMeaning | beiran/util.py:146-227 | the language of the parser: a text parses to a rule list if and only if it is `$` followed by spellings of the rules |
| PathGrammar.SelectorFailsMeaning | beiran/util.py:188-225 | which exception a selector raises: it starts with neither `.` nor `[`, it ends too early, or one of its numbers is malformed, in the order of reading |
| PathGrammar.ParseFails | beiran/util.py:146-227 | for every text, the parser raises e if and only if the text is empty, does not start with `$`, or is spelled up to a selector that fails with e |
| JsonStreamer.Streamer.constructor | beiran/util.py:239-245 | a new generator stands at keys `[None]`, no values, depth 0 |
| JsonStreamer.Streamer.Matches | beiran/util.py:248-267 | the test of all rules against the key stack, stopping at the first rule that fails or raises |
| JsonStreamer.Streamer.PopValue | beiran/util.py:303-319 | the whole effect of a pop: judge, yield, store in the parent, advance the key stack, or raise |
| JsonStreamer.Streamer.Handle | beiran/util.py:272-319 | the effect of one event on both stacks, the depth and the output |
| JsonStreamer.Streamer.Feed | beiran/util.py:269-319 | draining the queue of one chunk runs the machine over that chunk's events |
| JsonStreamer.ChunksDoNotMatter | beiran/util.py:269-272 | the output is the same however the events are cut into chunks |
| TreeSelection.NodesAreReachable | beiran/util.py:243-319 | the node list of a document holds exactly the (path, value) pairs that a walk from the root reaches, every occurrence of a repeated key included |
| TreeSelection.RunNode | beiran/util.py:271-319 | reading any sub-document emits exactly the selected nodes at and below it and leaves its built value in its parent |
| TreeSelection.StreamingRefinesSelection | beiran/util.py:230-319 | on every document and rule list the machine yields the selected values in document order, raises exactly when selection does, and otherwise ends with keys `[None]`, no values, depth 0 |
| TreeSelection.SelectRaises | beiran/util.py:258-266 | an exception ends the run exactly when some node at the rules' depth makes a rule raise, and it is a TypeError or ZeroDivisionError, never an empty-stack pop |
| TreeSelection.JudgeAllMeansEvery | beiran/util.py:309 | `all(...)` over the zipped stacks holds exactly when every rule accepts its key |
| TreeSelection.YieldedMeaning | beiran/util.py:230-319 | a value is yielded if and only if some path with one key per rule leads to a node with that built value and satisfies every rule |
| TreeSelection.LastKeyWins | beiran/util.py:312-314 | in a built dictionary the last occurrence of a repeated key wins |
| TreeSelection.NoOtherKeys | beiran/util.py:312-314 | a built dictionary has no other keys |
| StackInvariant.TraceNode | beiran/util.py:303-319 | the pops of any sub-document follow its nodes one for one |
| StackInvariant.PopsFollowTheTree | beiran/util.py:303-319 | at the i-th pop both stacks have height depth, the key stack is the exact path of the i-th node and the value stack ends in that node fully built; without an exception every node is popped once |
| PathSemantics.JudgeMeaning | beiran/util.py:248-267 | a rule accepts a key exactly when the selector means it (equal names, listed indexes, start plus a multiple of step below the end), and raises exactly for slices: TypeError on a key that is no index, ZeroDivisionError on an index from start on and before the end with step 0 |
| PathSemantics.JudgeAllMeaning | beiran/util.py:309 | `all(...)` over a path accepts when every selector does and raises what the first other one raises |
| PathSemantics.RunRaisesIff | beiran/util.py:230-319 | a run ends in an exception if and only if some path of one key per rule leads to a node and a selector fails on it while those before accept; the exception is that of such a path |
| PathSemantics.WithoutSlices | beiran/util.py:258-266 | a rule list without slices raises on no document |
| PathSemantics.SelectEvaluates | beiran/util.py:230-319 | bottom-up selection at any node equals top-down evaluation from that node, exceptions included |
| PathSemantics.StreamingEvaluates | beiran/util.py:146-319 | for every path text that parses and every document, the machine yields exactly the top-down evaluation of the path and ends with its exception, if any |
| PathSemantics.StreamingEvaluatesPlain | beiran/util.py:146-319 | unless a selector fails on some path, that is the list of the plain values of the path |
| PathSemantics.StreamingWithoutSlices | beiran/util.py:146-319 | in particular for every path text without slices, on every document |
| Slices.ParseSlicePath | beiran/util.py:196-216 | left-out numbers of a slice mean start 0, no end, step 1 |
| Slices.SliceMeansSlice | beiran/util.py:196-216 | from text to values: every slice path with natural numbers and non-zero step yields the Python slice of the array (section 2.3.4 of RFC 9535 for this subset) |
| Slices.ZeroStepRaises | beiran/util.py:265 | a slice with step 0 raises a ZeroDivisionError exactly when the array has an index from start on, which may be negative, and before the end, and otherwise yields nothing |
| Slices.SliceOfObjectRaises | beiran/util.py:263 | a slice of an object raises a TypeError exactly when the object has a member |
| Slices.PySliceAt | beiran/util.py:262-266 | the k-th element of the slice is the array element at start + k * step |
| Slices.PySliceEnds | beiran/util.py:262-266 | the slice stops only where the next index is past the end or the array |
| Slices.ParseIndexPath | beiran/util.py:217-221 | an index path in any order and with repetitions parses to the sorted list |
| Slices.IndexListMeansPicks | beiran/util.py:258-260 | from text to values: the elements at a strictly ascending list of indexes that holds exactly the listed indexes in range, whatever the order or repetition in the path |
| Slices.ListedOnceUnique | beiran/util.py:258-260 | that description determines the yielded values |
| Slices.SingleIndexRaises | beiran/util.py:196-197 | `$[n]` raises an IndexError: the selector needs a colon or a comma |
| NodeIndex.ResetRows | plugins/beiran_package_container/util.py:39-62 | the layer rows left by a reset are exactly the old rows without the node, minus those with no holder that are not downloading |
| NodeIndex.ResetHoldings | plugins/beiran_package_container/util.py:39-62 | a reset forgets everything one node holds and nothing another node holds |
| NodeIndex.AddImagesHoldings | plugins/beiran_package_container/container.py:131-154 | re-adding images adds exactly the reported ids to that node and changes no other holding |
| NodeIndex.AddLayersHoldings | plugins/beiran_interface_docker/plugin_docker.py:101-127 | re-adding layers adds exactly the reported diff ids to that node and changes no other holding |
| NodeIndex.SyncReplaces | plugins/beiran_interface_docker/plugin_docker.py:95-99 | a sync is exact replacement for the peer and leaves every other node's holdings unchanged |
| Rows.ResetImages | plugins/beiran_package_container/util.py:39-62 | a reset deletes exactly the image rows with no other holder that are not downloading; the others lose the node and nothing else |
| Rows.ResetLayers | plugins/beiran_package_container/util.py:39-62 | the same for the layer rows |
| Rows.KeptLayersPlus | plugins/beiran_package_container/util.py:57-62 | the layer rows that a reset leaves keep their order |
| Rows.AddImagesRows | plugins/beiran_package_container/container.py:131-154 | a new image row has the layers and the progress first reported for it and one holder; a row that was there changes in its holders at most |
| Rows.AddLayersKeepRows | plugins/beiran_interface_docker/plugin_docker.py:101-127 | re-adding layers keeps every row in its place, changed in its holders at most |
| Rows.AddLayersNewRows | plugins/beiran_interface_docker/plugin_docker.py:101-127 | a new layer row is for a diff id without a row, as first reported, with one holder and no references |
| Rows.SaveImageRow | plugins/beiran_interface_docker/plugin_docker.py:311-346 | a save gives the image row the layers found and the local holder, and changes no other image row |
| Rows.UnlinkMeaning | plugins/beiran_interface_docker/plugin_docker.py:288-300 | a row that the image lists and the local node advertises loses the image, and the local node if no reference is left; other rows are unchanged |
| Rows.DeleteImageRow | plugins/beiran_interface_docker/plugin_docker.py:274-286 | the image row stays, without the local node, if and only if another node holds the image; other image rows are unchanged |
| Rows.DeleteKeepsRows | plugins/beiran_interface_docker/plugin_docker.py:277-281 | while another node holds the image, every layer row stays in its place, unlinked |
| Rows.DeleteDropsRows | plugins/beiran_interface_docker/plugin_docker.py:282-283 | when the last holder goes, exactly the listed layer rows that nobody holds after the unlinking are deleted |
| Rows.DropLayersPlus | plugins/beiran_package_container/container.py:156-165 | the layer rows that a deletion leaves keep their order |
| IndexKeys.ResetWellFormed | plugins/beiran_package_container/models.py:43-47 | a reset keeps every row free of repeated nodes and images |
| IndexKeys.SaveImageWellFormed | plugins/beiran_package_container/models.py:37-41 | a save keeps every row free of repeated nodes and images |
| IndexKeys.DeleteImageWellFormed | plugins/beiran_package_container/models.py:200-206 | a deletion keeps every row free of repeated nodes and images |
| IndexKeys.AddLayersWellFormed | plugins/beiran_package_container/models.py:37-41 | re-adding layers keeps every row free of repeated nodes and images |
| IndexKeys.SyncKeepsKeys | plugins/beiran_interface_docker/plugin_docker.py:95-127 | a reset and a whole sync keep `diff_id` unique |
| IndexKeys.DeleteKeepsKeys | plugins/beiran_interface_docker/plugin_docker.py:265-300 | a deletion keeps `diff_id` unique |
| IndexKeys.SaveLayersColumn | plugins/beiran_interface_docker/plugin_docker.py:331-339 | a save inserts one row per listed diff id without a row, repetitions included |
| IndexKeys.SaveKeepsKeysIff | plugins/beiran_interface_docker/util.py:312-354 | a save keeps `diff_id` unique if and only if every diff id the image lists twice already has a row |
| IndexKeys.RepeatedLayerExample | plugins/beiran_interface_docker/util.py:348-354 | a new image that lists a new layer twice gets two rows for it |
| References.SaveRefSafe | plugins/beiran_interface_docker/plugin_docker.py:302-346 | a save keeps layer reference safety, and establishes it for the saved image when its layers are written |
| References.InterruptedRefSafe | plugins/beiran_interface_docker/plugin_docker.py:335-346 | a save that raises after its layers were saved keeps layer reference safety |
| References.DeleteRefSafe | plugins/beiran_interface_docker/plugin_docker.py:265-300 | deleting an image never un-advertises or deletes a layer that another local image needs |
| References.ResetRefSafe | plugins/beiran_package_container/util.py:39-62 | resetting a peer keeps layer reference safety |
| References.AddImagesRefSafe | plugins/beiran_package_container/container.py:131-154 | re-adding a peer's images keeps layer reference safety |
| References.AddLayersRefSafe | plugins/beiran_interface_docker/plugin_docker.py:101-127 | re-adding a peer's layers keeps layer reference safety |
| References.SaveExactIff | plugins/beiran_interface_docker/plugin_docker.py:302-346 | a save keeps references exact and `diff_id` unique if and only if: with its layers, it drops no layer of a fully saved image and every layer listed twice already has a row; without them, it lists the same set of layers, or the image had none |
| References.InterruptedExactIff | plugins/beiran_interface_docker/plugin_docker.py:335-346 | a save that raises after its layers were saved keeps them if and only if each layer it lists belongs to the row of the image, already fully saved |
| References.LocalResetExactIff | plugins/beiran_package_container/util.py:39-62 | a local reset keeps references exact if and only if every layer row that the local node advertises is deleted by it |
| References.DeleteExact | plugins/beiran_interface_docker/plugin_docker.py:265-300 | a deletion keeps reference exactness |
| References.ResetExact | plugins/beiran_package_container/util.py:39-62 | resetting a peer keeps reference exactness |
| References.AddImagesExact | plugins/beiran_package_container/container.py:131-154 | re-adding a peer's images keeps reference exactness |
| References.AddLayersExact | plugins/beiran_interface_docker/plugin_docker.py:101-127 | re-adding a peer's layers keeps reference exactness |
| References.ResetUsed | plugins/beiran_package_container/util.py:39-62 | after any reset, a local one included, an advertised layer is still listed by some image |
| References.SaveUsed | plugins/beiran_interface_docker/plugin_docker.py:335-339 | after a save an advertised layer is still listed by some image |
| References.DeleteUsed | plugins/beiran_interface_docker/plugin_docker.py:294-300 | after a deletion an advertised layer is still listed by some image |
| References.AddLayersUsed | plugins/beiran_interface_docker/plugin_docker.py:101-127 | after re-adding a peer's layers an advertised layer is still listed by some image |
| References.SaveHoldings | plugins/beiran_interface_docker/plugin_docker.py:302-346 | a save adds the image, and with its layers all listed layers, to the local node's holdings only |
| References.DeleteHoldings | plugins/beiran_interface_docker/plugin_docker.py:265-300 | a deletion changes no other node's holdings |
| References.DeletedIsGone | plugins/beiran_interface_docker/plugin_docker.py:274-281 | after a deletion the local node holds the same images but the deleted one |
| References.DeleteAdvertises | plugins/beiran_interface_docker/plugin_docker.py:288-300 | on all tables: a layer stays advertised after a deletion if and only if a row of it was advertised that the image does not list or that lists another image |
| References.SaveThenDelete | plugins/beiran_interface_docker/plugin_docker.py:265-346 | saving an image and deleting it again leaves a layer it lists advertised if and only if a row of the layer listed another image before |
| References.InterruptedSaveExample | plugins/beiran_interface_docker/plugin_docker.py:335-346 | an interrupted save of a new image: its layer lists an image that was not saved |
| References.ChangedLayersExample | plugins/beiran_interface_docker/plugin_docker.py:331-339 | a full image saved again with fewer layers, with or without updating them: the dropped layer still lists it |
| References.RepeatedLayerSavedTwice | plugins/beiran_interface_docker/util.py:348-354 | after a new image lists a new layer twice, the next image that uses the layer is missing from its second row |
| References.ResetLeavesStaleReference | plugins/beiran_package_container/util.py:47-52 | a local reset breaks exactness: a layer that a peer keeps alive still lists a local image that is gone |
| References.StaleReferenceAdvertises | plugins/beiran_interface_docker/plugin_docker.py:288-300 | an instance of `SaveThenDelete` after that reset: the local node advertises a layer of no local image |
| Store.ContainerImage.SetAvailableAt | plugins/beiran_package_container/models.py:37-41 | adds a node once |
| Store.ContainerImage.UnsetAvailableAt | plugins/beiran_package_container/models.py:43-47 | removes every occurrence of a node |
| Store.ContainerLayer.SetLocalImageRefs | plugins/beiran_package_container/models.py:194-198 | adds an image reference once |
| Store.ContainerLayer.UnsetLocalImageRefs | plugins/beiran_package_container/models.py:200-206 | removes every occurrence of an image reference |
| Store.Database.UnsetImagesOf | plugins/beiran_package_container/util.py:41-45 | the loop over image rows removes the node from each of them |
| Store.Database.UnsetLayersOf | plugins/beiran_package_container/util.py:47-52 | the loop over layer rows removes the node from each of them |
| Store.Database.DeleteUnavailableObjects | plugins/beiran_package_container/util.py:57-62 | deletes exactly the rows with no holder that are not downloading |
| Store.Database.ResetInfoOfNode | plugins/beiran_package_container/util.py:39-54 | performs the reset whose effect ResetRows and ResetHoldings describe |
| Store.Database.SaveImageAtNode | plugins/beiran_package_container/container.py:131-142 | get-or-insert of one reported image |
| Store.Database.FetchImagesFromPeer | plugins/beiran_package_container/container.py:144-154 | the loop over a reply of images |
| Store.Database.SaveLayerAtNode | plugins/beiran_interface_docker/plugin_docker.py:101-115 | get-or-insert of one reported layer |
| Store.Database.FetchLayersFromPeer | plugins/beiran_interface_docker/plugin_docker.py:117-127 | the loop over a reply of layers |
| Store.Database.SyncWith | plugins/beiran_interface_docker/plugin_docker.py:95-99 | the three parts of a sync in order |
| Store.Database.GetImageLayers | plugins/beiran_interface_docker/util.py:312-323 | all layer objects are loaded, with the image referenced, before any is saved |
| Store.Database.SaveImageLayers | plugins/beiran_interface_docker/plugin_docker.py:335-339 | saving the loaded copies one by one, although they may be stale, writes what saving against the current table writes |
| Store.Database.SaveImage | plugins/beiran_interface_docker/plugin_docker.py:302-346 | the new image and layer tables after a local save, or the layer table alone when reading the configuration raises |
| Store.Database.UnsetLocalLayers | plugins/beiran_interface_docker/plugin_docker.py:288-300 | the loop that unlinks an image from its advertised layers |
| Store.Database.DeleteLayers | plugins/beiran_package_container/container.py:156-165 | deletes exactly the listed layer rows without holders |
| Store.Database.DeleteImage | plugins/beiran_interface_docker/plugin_docker.py:265-286 | the new tables after a deletion, or no change when the image is unknown |
| Cluster.StepFrame | beiran/daemon/peer.py:89-110 | no step changes the recorded holdings of a peer other than its own |
| Cluster.OwnStepInv | beiran/daemon/peer.py:89-110 | each step of a peer's loop keeps the relation between versions, pending changes, copied parts and holdings |
| Cluster.StepKeepsSyncInv | beiran/daemon/peer.py:143-161 | every step of the transition system keeps the synchronisation invariant |
| Cluster.VersionSyncSafety | beiran/daemon/peer.py:89-110 | in every reachable state of every interleaving a peer whose recorded version is current and whose changes are all announced agrees with the index, if and only if initially each peer has version at least 1, a pending change, or agreement |
| Cluster.UnannouncedPeerExample | beiran/daemon/peer.py:76 | a peer with holdings and version 0 is taken to be in sync and not copied |
| Cluster.PassConverges | beiran/daemon/peer.py:89-110 | one undisturbed pass of a loop, from any state of the index, ends in agreement with the version recorded and all other holdings unchanged |
| Cluster.FailureRecovers | beiran/daemon/peer.py:143-167 | after a failure at any point of a loop the next undisturbed pass ends in agreement |
| Cluster.ChangeIsCopied | beiran/daemon/peer.py:89-110 | a change that a peer announces is what the next undisturbed pass copies |
| Cluster.StepKeepsLocalInv | plugins/beiran_interface_docker/plugin_docker.py:265-348 | every step keeps layer reference safety, repetition-free rows, and a user for each advertised layer |
| Cluster.LayerReferenceSafety | plugins/beiran_interface_docker/plugin_docker.py:265-348 | the same over every run, local resets and interrupted syncs included |
| Cluster.StepExactIff | plugins/beiran_interface_docker/plugin_docker.py:265-348 | from a state with exact references a step leads to one if and only if it meets the guard of its kind; syncs and deletions always do |
| Cluster.ReferenceExactness | plugins/beiran_interface_docker/plugin_docker.py:265-348 | each layer's references are exactly the fully saved local images listing it, it is advertised exactly when there is one, and `diff_id` is unique, at every point of a run if and only if every step met its guard |
| Cluster.ContentRunsAreExact | plugins/beiran_interface_docker/util.py:312-367 | when the id of an image determines the layers its saves list, the same holds if and only if each interrupted save was of a fully saved image or of no layers, each save repeated only layers with a row, and each local reset left no row it had advertised |
| Cluster.PlainRunsAreGuarded | plugins/beiran_interface_docker/util.py:312-367 | in particular in every run without local resets and interrupted saves whose images list no layer twice |
| PeerLoop.NotYetLost | beiran/daemon/peer.py:143-167 | while no two adjacent checks failed, every check is made and the next interval follows from the last outcome |
| PeerLoop.BeginMeaning | beiran/daemon/peer.py:125-135 | what the first sync leaves: status, recorded version, and whether the loop goes on |
| PeerLoop.CheckMeaning | beiran/daemon/peer.py:143-173 | what one check leaves: the peer is lost by the second failure in a row, a first failure changes neither status nor version, a success records the version |
| PeerLoop.LoopRecords | beiran/daemon/peer.py:143-167 | while the peer is not lost its recorded version is that of the last successful check, and it is online if and only if it was or some check synced it |
| PeerLoop.ChecksMade | beiran/daemon/peer.py:143-173 | one sleep before each check made, and no check after the one that loses the peer |
| PeerLoop.DetectorExact | beiran/daemon/peer.py:143-173 | the peer is lost exactly when two adjacent checks failed, no check follows the first such pair, and the last two sleeps are 15 + 5, or 30 + 5 when no check had succeeded |
| PeerLoop.LoopDetects | beiran/daemon/peer.py:147-173 | the loop with its syncs loses the peer exactly as the detector on its outcomes |
| PeerLoop.LostExactly | beiran/daemon/peer.py:125-173 | a loop whose first sync raised never marks its peer; any other marks it lost exactly after two adjacent failures |
| PeerLoop.Peer.Sync | beiran/daemon/peer.py:89-110 | a sync raises, does nothing, or records the version it read and sets the node online |
| PeerLoop.Peer.Loop | beiran/daemon/peer.py:125-173 | the loop over any sequence of answers ends in the state that the checks one after the other give |
| Probe.TryProbe | beiran/daemon/peer.py:244-268 | every run that ends: with positive retries fetch k goes to target k div retries, with negative ones to the first target; all fetches but the last were refused, and the result is that of the last |
| Probe.ForeverIff | beiran/daemon/peer.py:249-266 | with negative retries the loop never ends if and only if there is a target and the first one always refuses |
| Probe.ExplainsUnique | beiran/daemon/peer.py:249-268 | these facts determine the fetches and the result |
| Probe.FullCountIff | beiran/daemon/peer.py:249-268 | all retries * targets fetches are made exactly when every fetch before the last is refused |
| Probe.PlainProbe | beiran/daemon/peer.py:236-268 | an ordinary probe makes at most `retries` fetches of its one address and ends with the first that is not refused |
| Probe.ForeverFirst | beiran/daemon/peer.py:249-266 | with negative retries only the first target is ever fetched, for any number of rounds |
| Probe.ExtraAddressesRaise | beiran/daemon/peer.py:241-242 | extra addresses are appended as one list and never tried; reaching them raises |
| Registry.Peers.FindOrCreate | beiran/daemon/peer.py:44-49 | a peer is made only for an unregistered uuid |
| Registry.Peers.SetOffline | beiran/daemon/nodes.py:95-103 | removes a node from the collection if it is there |
| Registry.Peers.FinishProbe | beiran/daemon/peer.py:277-310 | the result of a probe and its effect on registry, node collection and peers made |
| Registry.StepKeepsInv | beiran/daemon/peer.py:270-310 | each step of any probe task keeps the registry invariant and only grows the registry |
| Registry.BootInv | beiran/daemon/main.py:348-359 | the daemon starts with its own node listed and its own peer registered, which satisfies the invariant |
| Registry.OneLoopPerPeer | beiran/daemon/peer.py:44-87 | over all interleavings a registered remote uuid had exactly one peer made and any other none, listed nodes are registered, and one task at most is past the lock |
| Registry.ProbeOutcome | beiran/daemon/peer.py:270-310 | a probe that found a new node adds exactly that node to registry, listed nodes and peers made and returns it; any other probe changes nothing and returns the registered uuid it met, or nothing |
| Registry.RegistersIff | beiran/daemon/peer.py:272-303 | a probe changes the shared state exactly when its address has no uuid and an unregistered node answered |
| Registry.ProbeRegisters | beiran/daemon/peer.py:270-310 | an undisturbed probe of an address without uuid ends with the node that answered registered and listed, and the lock free |
| Registry.ProbeOfKnown | beiran/daemon/peer.py:272-297 | an undisturbed probe of an address with a uuid changes nothing |
| Registry.ListedUnlessRemoved | beiran/daemon/main.py:97-116 | over all interleavings a registered uuid is listed if and only if no removal of it came after its registration |
| Registry.ListedFromBoot | beiran/daemon/main.py:348-359 | from the start of the daemon a uuid is listed if and only if it is registered and was not removed after its registration |
| Registry.RemovedStaysRemoved | beiran/daemon/main.py:97-116 | a node removed from the collection while its peer is registered is never listed again |
| Discovery.DnsDiscovery.Newcomers | plugins/beiran_discovery_dns/dns.py:81 | each address outside the node set is kept as often as the answer lists it |
| Discovery.DnsDiscovery.Goodbyers | plugins/beiran_discovery_dns/dns.py:82 | exactly the known nodes missing from the answer, each once |
| Discovery.OthersCount | plugins/beiran_discovery_dns/dns.py:74-80 | of an answer only the own address is left out; others keep their multiplicity |
| Discovery.DnsDiscovery.Round | plugins/beiran_discovery_dns/dns.py:77-92 | after a round the node set is the answer without self, and the events of each address are determined |
| Discovery.RoundAlternatesIff | plugins/beiran_discovery_dns/dns.py:77-92 | a round keeps the alternation of all addresses if and only if no newcomer is listed twice |
| Discovery.Reconciles | plugins/beiran_discovery_dns/dns.py:74-92 | over any run the node set is the last answer without self, and each address alternates if and only if no newcomer of a round was listed twice |
| Discovery.EventsCountMembership | plugins/beiran_discovery_dns/dns.py:83-91 | over any run discovered minus undiscovered events are the change of membership, for all addresses, if and only if no newcomer was listed twice |
| Discovery.DuplicateFreeAnswers | plugins/beiran_discovery_dns/dns.py:74-92 | in particular over runs of duplicate-free answers |
| Discovery.RepeatedNewcomerExample | plugins/beiran_discovery_dns/dns.py:81-86 | an answer that lists a newcomer twice: two discovered events in a row |
| SplitJoin.SplitJoined | plugins/beiran_package_container/image_ref.py:43-64 | splitting a join of separator-free parts gives the parts |
| SplitJoin.JoinSplit | plugins/beiran_package_container/image_ref.py:43-64 | joining a split text gives the text |
| ImageRef.EndingReadBack | plugins/beiran_package_container/image_ref.py:89-102 | exactly which name, sign and suffix are read back as they are spelled |
| ImageRef.SpellAgain | plugins/beiran_package_container/image_ref.py:89-102 | reading a spelled ending again may move the sign but spells the same text, for several `@` and `:` too |
| ImageRef.ReadEnding | plugins/beiran_package_container/image_ref.py:89-102 | an ending is read at its only `@`, else at its first `:` dropping what follows a second one, else it is a name with the default tag |
| ImageRef.SpelledMeaning | plugins/beiran_package_container/image_ref.py:89-102 | a last component with one sign is spelled as it is written, one without any gets `:latest` |
| ImageRef.NormalForm | plugins/beiran_package_container/image_ref.py:35-87 | the normal form of every reference from its text: `library` below the default domain for a plain name, the default domain put before a reference without a domain, and otherwise the reference itself, except that `docker.io/name` gains `library` and `domain//name` loses its empty path |
| ImageRef.ReferenceIsKept | plugins/beiran_package_container/image_ref.py:35-87 | a reference whose last component is read back as spelled is kept, behind the default domain if it has none |
| ImageRef.NormalizeIsProper | plugins/beiran_package_container/image_ref.py:35-79 | every result has a slash-free domain with `.` or `:`, a sign `@` or `:`, and a slash-free suffix |
| ImageRef.NormalizeMarshal | plugins/beiran_package_container/image_ref.py:35-87 | component by component, what a second pass makes of a marshalled reference |
| ImageRef.ComponentsRoundTripIff | plugins/beiran_package_container/image_ref.py:35-112 | normalising a marshalled tuple gives the same four components if and only if the tuple is canonical |
| ImageRef.LosesPathMeaning | plugins/beiran_package_container/image_ref.py:47-64 | the two shapes of references whose path is empty below docker.io |
| ImageRef.TwoPasses | plugins/beiran_package_container/image_ref.py:35-87 | what two passes make of any reference, part by part |
| ImageRef.IdempotentIff | plugins/beiran_package_container/image_ref.py:81-87 | normalise-and-marshal is idempotent if and only if the reference is neither `/name` without the index setting nor `docker.io//name` |
| ImageRef.EmptyPathExamples | plugins/beiran_package_container/image_ref.py:47-64 | `/ubuntu` and `docker.io//ubuntu` become `docker.io/ubuntu:latest` and then `docker.io/library/ubuntu:latest` |
| ImageRef.IdempotentWithoutEmptyParts | plugins/beiran_package_container/image_ref.py:81-87 | in particular on every reference without an empty component |
| LayerChain.CalcIsDigest | plugins/beiran_package_container/util.py:108-112 | `calc_chain_id` is the digest step of the specification |
| LayerChain.ChainUpToIsChainID | plugins/beiran_package_container/container.py:359-368 | the chain id that the loops carry after n layers is the ChainID of the first n diff ids |
| LayerChain.MappedAtLastOccurrence | plugins/beiran_package_container/container.py:359-384 | each diff id maps to the ChainID of the prefix ending at its last occurrence and to the digest at that index |
| LayerChain.MappedElsewhere | plugins/beiran_package_container/container.py:424-436 | entries of other diff ids are untouched |
| LayerChain.ContainerPackaging.MapLayersV1 | plugins/beiran_package_container/container.py:359-384 | the schema 1 loop writes those mappings; an image without layers raises |
| LayerChain.ContainerPackaging.MapLayersV2 | plugins/beiran_package_container/container.py:424-436 | the schema 2 loop writes the same mappings for equal lists; missing layers raise after the ones present were written |
| LayerChain.NonEmptyMeaning | plugins/beiran_package_container/container.py:339-345 | the positions of history entries with a layer, in ascending order |
| LayerChain.RebuildHistory | plugins/beiran_package_container/container.py:318-353 | the rebuilt history has, in reverse order, the fields of the manifest entries; the descriptors are the layers of exactly the entries that are no throwaways, last first, and the k-th belongs to the k-th history entry with a layer; a short history or a missing `Cmd` raises |

## Left out

- PyInt.ToIntOfText: digits other than `0` to `9`, which `int` also accepts, are not modelled, because no path printed by a program uses them.
- Probe.TryProbe: requires a run that ends; with negative retries Probe.ForeverIff says exactly which runs do not, and Probe.ForeverFirst what they fetch.
- Tokenising JSON and decoding UTF-8 in chunks: the libraries are not part of this model.
- Row copies held across suspension points inside `save_image`: the call is one step.
- Tags, sizes, paths, digests and other columns of the two tables: no property here depends on them.
- A restart of a peer that loses changes awaiting their bump.
- `PeerAddress` parsing, node database rows, status columns other than the peer's own.
- Registry authentication, downloads, archives, file caches and reading Docker's storage.
- HTTP and WebSocket handlers, clients, command lines, progress bars, gRPC services.
- Version strings, configuration lookup, log setup and `History`: only easy members.
