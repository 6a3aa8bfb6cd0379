# IR epoch diff: reconciliation and graph-expansion model

A Dafny model of the core of a tool that compares two snapshots ("epochs") of a
compiler's intermediate representation. It has three parts:

- **Procedure reconciler** (`Reconcile`, `DiffHook`): two per-epoch procedure indexes
  are merged into one list. Every procedure name appears once, classified `unchanged`,
  `modified`, `added` or `removed`. A procedure's before/after IR text is fetched on
  demand and cached in its item.
- **Graph expansion controller** (`GraphController`): the nodes of one control-flow
  graph carry `isExpanded` and `originalExpanded`. A single-node toggle flips one node.
  A bulk collapse remembers each node's state, and a bulk expand restores it. The bulk
  result goes through an opaque layout function. `allNodesExpanded` records the last
  bulk intent.
- **Procedure-index normalisation** (`ProcedureIndex`): the backend reads an epoch's
  `procedures_with_lines.json` and turns its mixed entries into names, or into
  name/hash records.

Everything is immutable datatypes and pure functions. The collaborators the core
calls are function-typed parameters, and a `Result` failure stands for a rejected
promise or a raised exception. The parameters are:

- the index fetch and the IR-text fetch;
- the layout function;
- the backend's file contents (a map from path to bytes);
- JSON decoding;
- SHA-256.

`Outcome` holds `Option` and `Result`.

Notable behaviour of the code, which the model keeps:

- **Merge order.** Names are listed in `Set` insertion order, not sorted: start-epoch
  names first, then end-only names (`Reconcile.MergeOrder`).
- **Failed index fetch.** A failed load keeps the previous list and only sets `error`.
  A successful reload does not clear an earlier error (`DiffHook.LoadMetadata`).
- **Order of the text fetches.** The before text is awaited first. A rejected before
  fetch ends the call, so the after text is not requested (`DiffHook.FetchProcedureBody`).
- **Empty texts.** The fetch guard tests `!proc.before`, so a fetched empty text counts
  as missing and is requested again on the next call (`DiffHook.EmptyTextRefetched`).
  A second call is a no-op only once both texts are non-empty (`DiffHook.FetchBodyIdempotent`).
- **Layout rejection.** Both setters run after `applyLayout` resolves, so a rejected
  layout changes nothing (`GraphController.ToggleAllExpand`).
- **Toggled nodes.** A toggle never touches `originalExpanded`, so collapse-then-expand
  restores even nodes toggled in between (`GraphController.CollapseThenExpandRestores`).

The operation models use the corrected definitions of the Findings table: the hook's
load uses the own-property merge, and its body fetch uses the corrected error text. The
as-written behaviour is modelled next to them (see "## Left out" and "## Findings").

## Model

| member | source | states |
|---|---|---|
| `Reconcile.ByName` | frontend/src/hooks/useHierarchicalIrDiff.ts:38-41 | the lookup table has exactly the index's names as keys, and each name maps to the last record carrying it |
| `Reconcile.Distinct` | frontend/src/hooks/useHierarchicalIrDiff.ts:45-48 | the `Set` of names holds exactly the names of the input |
| `Reconcile.DistinctHasNoDuplicates` | frontend/src/hooks/useHierarchicalIrDiff.ts:45-48 | no name is listed twice |
| `Reconcile.DistinctKeepsFirstOccurrenceOrder` | frontend/src/hooks/useHierarchicalIrDiff.ts:45-48 | names are listed in the order of their first occurrence |
| `Reconcile.DistinctAppend` | frontend/src/hooks/useHierarchicalIrDiff.ts:45-48 | the set of start names followed by end names is the start names' set order followed by the end-only names in end order |
| `Reconcile.Classify` | frontend/src/hooks/useHierarchicalIrDiff.ts:53-63 | `added` iff there is no start record, `removed` iff there is no end record, `unchanged` iff both exist and the start `beforeHash` equals the end `afterHash`; otherwise `modified` |
| `Reconcile.Merge` | frontend/src/hooks/useHierarchicalIrDiff.ts:43-69 | one item per name of the `Set` enumeration, carrying that name, in that order, with no before/after text; its statuses and metadata are stated by `Reconcile.MergeClassifies`, and its order and coverage by `Reconcile.MergeOrder`, `Reconcile.MergeEnumeratesUnion` and `Reconcile.MergePartition` |
| `Reconcile.MergeClassifies` | frontend/src/hooks/useHierarchicalIrDiff.ts:49-68 | every merged item has the status its name's presence and hash equality call for; its metadata is the end record if there is one, else the start record; it has no before/after text |
| `Reconcile.MergeOrder` | frontend/src/hooks/useHierarchicalIrDiff.ts:45-49 | the merged list names start-epoch procedures first in first-occurrence order, then the end-only ones in end order |
| `Reconcile.MergeEnumeratesUnion` | frontend/src/hooks/useHierarchicalIrDiff.ts:45-49 | the merged list has an item for a name iff the name is in either index, with no name twice |
| `Reconcile.MergePartition` | frontend/src/hooks/useHierarchicalIrDiff.ts:49-63 | added names are end minus start, removed are start minus end, unchanged and modified together are the intersection |
| `Reconcile.MergeExample` | frontend/src/hooks/useHierarchicalIrDiff.ts:49-68 | start {foo, bar}, end {foo, baz} with foo's hash kept gives foo unchanged, bar removed, baz added |
| `Reconcile.RawItemFor` | frontend/src/hooks/useHierarchicalIrDiff.ts:50-66 | with prototype-chain lookups, a name that has an own record on either side never gets `undefined` as metadata |
| `Reconcile.MergeAsWritten` | frontend/src/hooks/useHierarchicalIrDiff.ts:43-69 | the merge as written has one item per name of the `Set` enumeration, and no item's metadata is `undefined`, so the `beforeProc!` assertion always holds |
| `Reconcile.InheritedNameMisclassified` | frontend/src/hooks/useHierarchicalIrDiff.ts:50-66 | the merge as written reports a start-only `toString` as modified with an inherited member as metadata, where `Merge` reports it removed |
| `Reconcile.InheritedNamesMisclassified` | frontend/src/hooks/useHierarchicalIrDiff.ts:50-66 | for every one of the twelve `Object.prototype` names with an own record in exactly one epoch, the code's item is modified, where `Merge` gives removed (start only) or added (end only) |
| `Reconcile.MergeAsWrittenAgrees` | frontend/src/hooks/useHierarchicalIrDiff.ts:50-66 | when no name is an `Object.prototype` member, the merge as written gives the same metadata and statuses as `Merge` |
| `DiffHook.InitialState` | frontend/src/hooks/useHierarchicalIrDiff.ts:22-24 | the hook starts with no procedures, `loading` true and no error |
| `DiffHook.LoadingUntilBothEpochs` | frontend/src/hooks/useHierarchicalIrDiff.ts:22-27 | from the initial state, `loading` stays true (and nothing else changes) exactly while one of the epochs is falsy |
| `DiffHook.LoadMetadata` | frontend/src/hooks/useHierarchicalIrDiff.ts:26-81 | without two truthy epochs nothing changes; otherwise loading ends, and either both fetches succeeded and the list becomes their (own-property) merge with the error untouched, or the list is kept and the error is the message of a failed fetch |
| `DiffHook.LoadedListIsClassified` | frontend/src/hooks/useHierarchicalIrDiff.ts:45-71 | a freshly loaded list is classified by presence and hashes, has unique names and no text, and no added item has before text and no removed item has after text |
| `DiffHook.Find` | frontend/src/hooks/useHierarchicalIrDiff.ts:85 | returns the first position whose item has the name, or none when no item has it |
| `DiffHook.FetchProcedureBody` | frontend/src/hooks/useHierarchicalIrDiff.ts:84-101 | an unknown name changes nothing and requests nothing; otherwise only the found item can change, and only in its texts. A rejected before fetch ends the call: only before was requested, nothing is cached, and the error is set. Otherwise before is requested iff it is missing and the item is not added, and after iff it is missing and the item is not removed, in that order (start epoch for before, end epoch for after). Each fetched text is cached in the item. A rejected after fetch leaves after as it was and sets the error, and with no rejection the error is kept. The text-fits-status invariant is kept |
| `DiffHook.FetchBodyIdempotent` | frontend/src/hooks/useHierarchicalIrDiff.ts:89-94 | once a call fetched non-empty texts, a second call makes no request and changes nothing |
| `DiffHook.EmptyTextRefetched` | frontend/src/hooks/useHierarchicalIrDiff.ts:89-90 | a before text fetched as "" is requested again by the next call |
| `DiffHook.PartialFetchKept` | frontend/src/hooks/useHierarchicalIrDiff.ts:89-100 | when the before fetch succeeds and the after fetch fails, the before text is kept, after is unchanged and the error is set |
| `DiffHook.RemovedFetchesOnlyBefore` | frontend/src/hooks/useHierarchicalIrDiff.ts:89-94 | a removed item without text requests only its before text, and its after stays absent |
| `DiffHook.BodyError` | frontend/src/hooks/useHierarchicalIrDiff.ts:99 | the error text starts with the fixed prefix; it continues with the message when there is one, and otherwise ends with the procedure name |
| `DiffHook.BodyErrorAsWritten` | frontend/src/hooks/useHierarchicalIrDiff.ts:99 | the error text as written is the fixed prefix followed by exactly the rejection's message |
| `DiffHook.BodyErrorFallbackUnreachable` | frontend/src/hooks/useHierarchicalIrDiff.ts:99 | the text as written is always prefix plus message, so an empty message yields the bare prefix |
| `GraphController.Init` | frontend/src/hooks/useGraphController.ts:15-20 | the controller starts with the given nodes and edges and `allNodesExpanded` false |
| `GraphController.ToggleNodeExpand` | frontend/src/hooks/useGraphController.ts:22-33 | nodes whose id differs are unchanged; a matching node keeps its id, position and every data field except `isExpanded`, which is negated; count, edges and the hint are kept |
| `GraphController.ToggleTwiceRestores` | frontend/src/hooks/useGraphController.ts:27 | toggling the same id twice gives back the original state |
| `GraphController.BulkUpdate` | frontend/src/hooks/useGraphController.ts:37-46 | count, order, ids, positions and all other data are kept; collapse sets `isExpanded` false and `originalExpanded` to the prior `isExpanded`; expand sets `isExpanded` to `originalExpanded`, or true when undefined, and keeps `originalExpanded` |
| `GraphController.ToggleEach` | frontend/src/hooks/useGraphController.ts:22-33 | any sequence of toggles keeps node count, ids and every `originalExpanded` |
| `GraphController.CollapseThenExpandRestores` | frontend/src/hooks/useGraphController.ts:41-44 | collapse, any toggles, then expand gives every node back its pre-collapse `isExpanded` |
| `GraphController.CollapseTwiceForgets` | frontend/src/hooks/useGraphController.ts:41-44 | two collapses in a row overwrite the memory, so the next expand leaves every node collapsed |
| `GraphController.ToggleAllExpand` | frontend/src/hooks/useGraphController.ts:35-54 | when the layout rejects, the rejection propagates and no state is produced; otherwise the nodes are exactly the layout's nodes, the edges are the old ones, and `allNodesExpanded` equals `expand` |
| `GraphController.BulkRoundTripRestores` | frontend/src/hooks/useGraphController.ts:35-54 | with a layout that keeps node ids and data, collapse-all then expand-all restores every node's `isExpanded` and leaves the hint on |
| `GraphController.HintIgnoresToggles` | frontend/src/hooks/useGraphController.ts:20-51 | after expand-all, toggling an expanded node collapses it while `allNodesExpanded` stays true |
| `ProcedureIndex.ComputeHash` | backend/src/main.py:46-50 | a missing file hashes to "", and an existing one to the digest of its bytes |
| `ProcedureIndex.EmptyHashIffMissing` | backend/src/main.py:46-50 | with 64-character hex digests, the hash is "" exactly when the file is missing |
| `ProcedureIndex.Entries` | backend/src/main.py:71 | iteration visits a list's items, an object's keys, a string's characters, and fails on any other value |
| `ProcedureIndex.Field` | backend/src/main.py:73-74 | a key lookup succeeds iff the object has the key, and yields that key's value |
| `ProcedureIndex.NormalizeRecords` | backend/src/main.py:70-90 | succeeds iff every contributed name is a string; at most one record per entry; each record's hashes are those of its before.ir and after.ir files |
| `ProcedureIndex.NormalizeNames` | backend/src/main.py:150-155 | the names list is no longer than the input |
| `ProcedureIndex.NormalizeNamesAppend` | backend/src/main.py:150-155 | normalising a concatenation is concatenating the normalisations, so input order is kept |
| `ProcedureIndex.NormalizeNamesOfEntry` | backend/src/main.py:151-155 | a string contributes itself, a dict with "name" contributes that value, anything else contributes nothing |
| `ProcedureIndex.NamesMatchRecords` | backend/src/main.py:150-155 | whenever the record loop succeeds, the names loop yields exactly the record names in the same order |
| `ProcedureIndex.ReadIndex` | backend/src/main.py:59-71 | a missing index file fails with 404 and the epoch in the detail; a file that does not decode raises; a decoded document yields what iterating it visits (`ProcedureIndex.Entries`) |
| `ProcedureIndex.GetProcedureRecords` | backend/src/main.py:56-90 | a failure to read the index is passed on; once read, it answers iff every contributed name is a string, with one record per accepted entry in index order (its names are the names loop's), each hashing that procedure's before.ir and after.ir under the epoch directory |
| `ProcedureIndex.GetProcedureNames` | backend/src/main.py:131-157 | a failure to read the index is passed on; once read, it always answers with the names loop over the index entries |
| `ProcedureIndex.NamesEndpointMatchesRecords` | backend/src/main.py:131-157 | once the index is read, the names endpoint always answers, and with the record endpoint's names whenever that one answers |
| `ProcedureIndex.ProceduresWithLinesAsWritten` | backend/src/main.py:93-96 | the route as written fails exactly when reading the index fails, and otherwise answers the names loop's list, as the names-only `get_procedures` does |
| `ProcedureIndex.ProceduresWithLinesAsWrittenDiffers` | backend/src/main.py:93-96 | for an index holding only "f", the route as written answers `["f"]` rather than the records of `/ir/{epoch}/procedures` |
| `ProcedureIndex.ProceduresWithLines` | backend/src/main.py:93-96 | fails exactly when the records endpoint fails; otherwise it answers, element by element, the JSON objects of the records `/ir/{epoch}/procedures` computes, each with string name, beforeHash and afterHash |
| `ProcedureIndex.ProceduresWithLinesNames` | backend/src/main.py:93-96 | whenever the corrected route answers, the `"name"` fields of its elements, in order, are the index's procedure names as the names loop gives them |

## Left out

- React scheduling and stale responses: the model does not represent in-flight fetches overwriting newer state, re-renders, or the `loading` value visible while a fetch is pending. Only settled states are modelled.
- DiffHook.LoadMetadata: when both index fetches fail, which message `Promise.all` reports depends on timing. The model takes the order as a parameter, and the contract only says the error is one of the failed fetches' messages.
- The HTTP wrappers in frontend/src/api/viewer.ts (URLs, status handling, their `errorText ||` fallbacks) are left out. The core sees them only as fallible fetch parameters.
- `fetchGraphJson` and building a graph from CFG JSON are left out. The controller starts from given nodes and edges.
- Graph panel fit-view timing, node rendering and syntax highlighting, the diff viewer and the `diff`/`diff2html` wrapper are left out: they are UI only.
- Node records keep only `id`, `position` and the named `CustomNodeData` fields. Other ReactFlow node fields and extra index-signature fields are left out; the controller copies them unchanged.
- `onNodesChange`, `onEdgesChange`, `setNodes` and `setEdges` as exposed to the view (drag, select, direct replacement) are left out.
- Layout positions and any property of `applyLayout` are left out. `BulkRoundTripRestores` assumes a layout that keeps ids and data, as a stated requirement.
- Backend I/O is left out: FastAPI routing, CORS, directory selection and the other endpoints (epochs, IR text, CFG). File read errors, text encodings and SHA-256 itself are left out too. Paths are lists of components, so `pathlib`'s handling of separators or absolute parts inside a procedure name is not modelled.
- JSON numbers are integers. Floats and duplicate object keys are left out.
- DiffHook.LoadMetadata: installs the own-property merge `Reconcile.Merge`, not the prototype-chain lookup the code performs. The two agree on every pair of indexes with no `Object.prototype` member name (`Reconcile.MergeAsWrittenAgrees`). On the twelve such names the code's result is `Reconcile.MergeAsWritten` (first row of Findings). `DiffHook.LoadedListIsClassified` describes the corrected list too.
- DiffHook.FetchProcedureBody: sets the error to the corrected text `DiffHook.BodyError`. The code always sets `"Error fetching procedure body: " + message`, which is `DiffHook.BodyErrorAsWritten`. The two differ only when the rejection's message is empty: the code then gives the bare prefix, where the model appends the fallback naming the procedure (third row of Findings).
- DiffHook.PartialFetchKept: its error clause uses the corrected `DiffHook.BodyError` text, for the same reason as `DiffHook.FetchProcedureBody`.

## Findings

| source | as written | input that shows it | evidently intended | confidence | as-written member | corrected member |
|---|---|---|---|---|---|---|
| frontend/src/hooks/useHierarchicalIrDiff.ts:50-51 | `beforeMap[name]` and `afterMap[name]` are looked up on plain objects. These inherit `Object.prototype` members, and those count as present | a start index holding only a procedure named `toString`, and an empty end index (any of the twelve inherited names, on either side alone) | own-property lookup: `toString` is removed, with its own record as metadata | high, not executed | `Reconcile.MergeAsWritten`, `Reconcile.InheritedNameMisclassified`, `Reconcile.InheritedNamesMisclassified` | `Reconcile.Merge`, `Reconcile.MergeClassifies`, `Reconcile.MergePartition` |
| backend/src/main.py:96 | `get_procedures_with_lines` calls the global `get_procedures`, which by then names the second, names-only definition at line 132 | an index file holding `["f"]` | the same record list as `/ir/{epoch}/procedures`, as its docstring says | high, not executed | `ProcedureIndex.ProceduresWithLinesAsWritten`, `ProcedureIndex.ProceduresWithLinesAsWrittenDiffers` | `ProcedureIndex.ProceduresWithLines`, `ProcedureIndex.ProceduresWithLinesNames` |
| frontend/src/hooks/useHierarchicalIrDiff.ts:99 | `prefix + err.message \|\| fallback` groups as `(prefix + err.message) \|\| fallback`, so the fallback naming the procedure is never used | a rejection whose message is empty gives the bare prefix | `prefix + (err.message \|\| fallback)` | medium, not executed | `DiffHook.BodyErrorAsWritten`, `DiffHook.BodyErrorFallbackUnreachable` | `DiffHook.BodyError` |
