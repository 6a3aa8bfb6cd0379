/** The state held by the hierarchical IR diff hook
    (frontend/src/hooks/useHierarchicalIrDiff.ts): the merged procedure list, the
    loading flag and the last error, as changed by the epoch-change effect and by the
    on-demand fetch of one procedure's IR text. The two HTTP fetches are parameters;
    a `Failure` stands for a rejected promise and carries the error's message. */
module DiffHook {
  import opened Outcome
  import opened Reconcile

  datatype Side = Before | After

  /** One call of `fetchIrCode(epoch, procedureName, side)`. */
  datatype IrRequest = IrRequest(epoch: string, name: string, side: Side)

  datatype HookState = HookState(procedures: seq<ProcedureDiffItem>, loading: bool, error: Option<string>)

  /** `fetchProcedureIndex(epoch)` */
  type IndexFetch = string -> Result<seq<ProcedureMetadata>, string>

  /** `fetchIrCode(epoch, procedureName, side)` */
  type IrFetch = IrRequest -> Result<string, string>

  /** The three `useState` initial values: no procedures, loading, no error. */
  function InitialState(): (st: HookState)
    ensures st.procedures == [] && st.loading && st.error.None?
  {
    HookState([], true, None)
  }

  /** JavaScript truthiness of a `string | null` or `string | undefined`: the empty string is falsy. */
  predicate Present(s: Option<string>) {
    s.Some? && s.value != ""
  }

  /** The text a `string | null` epoch contributes to a request URL: `null` prints as "null". */
  function EpochText(epoch: Option<string>): string {
    if epoch.Some? then epoch.value else "null"
  }

  /** No item holds text its status rules out: an added procedure has no before text,
      a removed one no after text. */
  ghost predicate TextsFitStatus(procedures: seq<ProcedureDiffItem>) {
    forall item :: item in procedures ==>
      (item.status == Added ==> item.before.None?) && (item.status == Removed ==> item.after.None?)
  }

  /** The epoch-change effect. Without two truthy epochs nothing happens. Otherwise both
      indexes are fetched; if both succeed the list is replaced by their merge (an earlier
      error stays), else the rejection `Promise.all` reports first becomes the error and the
      list is kept. `startRejectsFirst` says which rejection comes first when both fetches fail. */
  function LoadMetadata(st: HookState, startEpoch: Option<string>, endEpoch: Option<string>,
                        fetchIndex: IndexFetch, startRejectsFirst: bool): (st': HookState)
    ensures !Present(startEpoch) || !Present(endEpoch) ==> st' == st
    ensures Present(startEpoch) && Present(endEpoch) ==> !st'.loading
    ensures Present(startEpoch) && Present(endEpoch) ==>
      var startResult := fetchIndex(startEpoch.value);
      var endResult := fetchIndex(endEpoch.value);
      if startResult.Success? && endResult.Success? then
        st'.procedures == Merge(startResult.value, endResult.value) && st'.error == st.error
      else
        && st'.procedures == st.procedures
        && ((startResult.Failure? && st'.error == Some(startResult.error)) ||
            (endResult.Failure? && st'.error == Some(endResult.error)))
  {
    if !Present(startEpoch) || !Present(endEpoch) then st
    else
      var startResult := fetchIndex(startEpoch.value);
      var endResult := fetchIndex(endEpoch.value);
      if startResult.Failure? && (startRejectsFirst || endResult.Success?) then
        st.(loading := false, error := Some(startResult.error))
      else if endResult.Failure? then
        st.(loading := false, error := Some(endResult.error))
      else
        st.(procedures := Merge(startResult.value, endResult.value), loading := false)
  }

  /** Until both epochs are truthy the hook stays in its initial state, still loading;
      with both present the first load settles and `loading` is false. */
  lemma LoadingUntilBothEpochs(startEpoch: Option<string>, endEpoch: Option<string>,
                               fetchIndex: IndexFetch, startRejectsFirst: bool)
    ensures var st := LoadMetadata(InitialState(), startEpoch, endEpoch, fetchIndex, startRejectsFirst);
      st.loading <==> !Present(startEpoch) || !Present(endEpoch)
    ensures !Present(startEpoch) || !Present(endEpoch) ==>
      LoadMetadata(InitialState(), startEpoch, endEpoch, fetchIndex, startRejectsFirst) == InitialState()
  {
  }

  /** A freshly loaded list is classified by presence and hashes, carries no text, and
      lists each procedure of either epoch once. */
  lemma LoadedListIsClassified(st: HookState, startEpoch: Option<string>, endEpoch: Option<string>,
                               fetchIndex: IndexFetch, startRejectsFirst: bool)
    requires Present(startEpoch) && Present(endEpoch)
    requires fetchIndex(startEpoch.value).Success? && fetchIndex(endEpoch.value).Success?
    ensures var st' := LoadMetadata(st, startEpoch, endEpoch, fetchIndex, startRejectsFirst);
      var startIndex := fetchIndex(startEpoch.value).value;
      var endIndex := fetchIndex(endEpoch.value).value;
      && (forall item :: item in st'.procedures ==>
            ClassifiedBy(startIndex, endIndex, item) && FreshFrom(startIndex, endIndex, item))
      && NoDuplicates(ItemNames(st'.procedures))
      && TextsFitStatus(st'.procedures)
  {
    var startIndex := fetchIndex(startEpoch.value).value;
    var endIndex := fetchIndex(endEpoch.value).value;
    MergeClassifies(startIndex, endIndex);
    MergeEnumeratesUnion(startIndex, endIndex);
  }

  /** The position of the first item named `name` (`procedures.find`), if any. */
  function Find(procedures: seq<ProcedureDiffItem>, name: string): (found: Option<nat>)
    ensures found.Some? ==> found.value < |procedures| && procedures[found.value].metadata.name == name
    ensures found.Some? ==> forall k :: 0 <= k < found.value ==> procedures[k].metadata.name != name
    ensures found.None? ==> forall k :: 0 <= k < |procedures| ==> procedures[k].metadata.name != name
  {
    if |procedures| == 0 then None
    else if procedures[0].metadata.name == name then Some(0)
    else
      match Find(procedures[1..], name)
      case None => None
      case Some(k) => Some(k + 1)
  }

  /** `!proc.before && proc.status !== 'added'` */
  predicate NeedsBefore(item: ProcedureDiffItem) {
    !Present(item.before) && item.status != Added
  }

  /** `!proc.after && proc.status !== 'removed'` */
  predicate NeedsAfter(item: ProcedureDiffItem) {
    !Present(item.after) && item.status != Removed
  }

  const BodyErrorPrefix: string := "Error fetching procedure body: "

  /** The error text as the source computes it: `prefix + message || fallback` groups as
      `(prefix + message) || fallback`, and the left side is never empty. */
  function BodyErrorAsWritten(name: string, message: string): (text: string)
    ensures |BodyErrorPrefix| <= |text| && text[..|BodyErrorPrefix|] == BodyErrorPrefix
    ensures text[|BodyErrorPrefix|..] == message
  {
    var primary := BodyErrorPrefix + message;
    if primary != "" then primary else "Failed to fetch IR code for " + name
  }

  /** The error text with the fallback applied to the message, as evidently intended:
      `prefix + (message || fallback)`. */
  function BodyError(name: string, message: string): (text: string)
    ensures |BodyErrorPrefix| <= |text| && text[..|BodyErrorPrefix|] == BodyErrorPrefix
    ensures message != "" ==> text[|BodyErrorPrefix|..] == message
    ensures message == "" ==> |name| <= |text| && text[|text| - |name|..] == name
  {
    BodyErrorPrefix + (if message != "" then message else "Failed to fetch IR code for " + name)
  }

  /** The fallback of the as-written text is dead: it is always the prefix and the message. */
  lemma BodyErrorFallbackUnreachable(name: string, message: string)
    ensures BodyErrorAsWritten(name, message) == BodyErrorPrefix + message
    ensures message == "" ==> BodyErrorAsWritten(name, message) == BodyErrorPrefix
  {
  }

  /** The outcome of a body fetch: the new state and the requests made, in order. */
  datatype BodyOutcome = BodyOutcome(state: HookState, requests: seq<IrRequest>)

  /** `fetchProcedureBody(procName)`: fill in the first matching item's missing texts,
      the before text first. A failed fetch stops the call and sets the error; a before
      text already fetched by then stays in the item, which the source mutates in place. */
  function FetchProcedureBody(st: HookState, startEpoch: Option<string>, endEpoch: Option<string>,
                              name: string, fetchIr: IrFetch): (out: BodyOutcome)
    ensures Find(st.procedures, name).None? ==> out == BodyOutcome(st, [])
    ensures |out.state.procedures| == |st.procedures| && out.state.loading == st.loading
    ensures forall k :: 0 <= k < |st.procedures| && Some(k) != Find(st.procedures, name) ==>
      out.state.procedures[k] == st.procedures[k]
    ensures forall k :: 0 <= k < |st.procedures| ==>
      out.state.procedures[k].metadata == st.procedures[k].metadata &&
      out.state.procedures[k].status == st.procedures[k].status
    ensures Find(st.procedures, name).Some? ==>
      var proc := st.procedures[Find(st.procedures, name).value];
      && (forall r :: r in out.requests ==> r.name == name)
      && (IrRequest(EpochText(startEpoch), name, Before) in out.requests <==> NeedsBefore(proc))
      && (forall r :: r in out.requests && r.side == Before ==> r.epoch == EpochText(startEpoch))
      && (forall r :: r in out.requests && r.side == After ==> r.epoch == EpochText(endEpoch) && NeedsAfter(proc))
      && (|out.requests| == 2 ==> out.requests[0].side == Before && out.requests[1].side == After)
    ensures Find(st.procedures, name).Some? ==>
      var i := Find(st.procedures, name).value;
      var proc := st.procedures[i];
      var beforeRequest := IrRequest(EpochText(startEpoch), name, Before);
      var afterRequest := IrRequest(EpochText(endEpoch), name, After);
      if NeedsBefore(proc) && fetchIr(beforeRequest).Failure? then
        // a rejected before fetch ends the call: nothing is cached and after is not asked for
        && out.requests == [beforeRequest]
        && out.state.procedures == st.procedures
        && out.state.error == Some(BodyError(name, fetchIr(beforeRequest).error))
      else
        && out.requests == (if NeedsBefore(proc) then [beforeRequest] else []) +
                           (if NeedsAfter(proc) then [afterRequest] else [])
        && out.state.procedures[i].before ==
             (if NeedsBefore(proc) then Some(fetchIr(beforeRequest).value) else proc.before)
        && out.state.procedures[i].after ==
             (if NeedsAfter(proc) && fetchIr(afterRequest).Success? then Some(fetchIr(afterRequest).value)
              else proc.after)
        && out.state.error ==
             (if NeedsAfter(proc) && fetchIr(afterRequest).Failure?
              then Some(BodyError(name, fetchIr(afterRequest).error)) else st.error)
    ensures TextsFitStatus(st.procedures) ==> TextsFitStatus(out.state.procedures)
  {
    match Find(st.procedures, name)
    case None => BodyOutcome(st, [])
    case Some(i) =>
      var proc := st.procedures[i];
      var beforeRequest := IrRequest(EpochText(startEpoch), name, Before);
      var afterRequest := IrRequest(EpochText(endEpoch), name, After);
      if NeedsBefore(proc) && fetchIr(beforeRequest).Failure? then
        BodyOutcome(st.(error := Some(BodyError(name, fetchIr(beforeRequest).error))), [beforeRequest])
      else
        var proc1 := if NeedsBefore(proc) then proc.(before := Some(fetchIr(beforeRequest).value)) else proc;
        var requests := if NeedsBefore(proc) then [beforeRequest] else [];
        if !NeedsAfter(proc1) then
          BodyOutcome(st.(procedures := st.procedures[i := proc1]), requests)
        else if fetchIr(afterRequest).Failure? then
          BodyOutcome(st.(procedures := st.procedures[i := proc1],
                          error := Some(BodyError(name, fetchIr(afterRequest).error))),
                      requests + [afterRequest])
        else
          BodyOutcome(st.(procedures := st.procedures[i := proc1.(after := Some(fetchIr(afterRequest).value))]),
                      requests + [afterRequest])
  }

  /** Every request of a call succeeded with non-empty text. */
  ghost predicate AllFetchedText(requests: seq<IrRequest>, fetchIr: IrFetch) {
    forall r :: r in requests ==> fetchIr(r).Success? && fetchIr(r).value != ""
  }

  /** Once a call has fetched non-empty texts, calling again requests nothing and changes nothing. */
  lemma FetchBodyIdempotent(st: HookState, startEpoch: Option<string>, endEpoch: Option<string>,
                            name: string, fetchIr: IrFetch)
    requires AllFetchedText(FetchProcedureBody(st, startEpoch, endEpoch, name, fetchIr).requests, fetchIr)
    ensures var once := FetchProcedureBody(st, startEpoch, endEpoch, name, fetchIr);
      FetchProcedureBody(once.state, startEpoch, endEpoch, name, fetchIr) == BodyOutcome(once.state, [])
  {
    var once := FetchProcedureBody(st, startEpoch, endEpoch, name, fetchIr);
    var found := Find(st.procedures, name);
    if found.Some? {
      var i := found.value;
      SameNamesSameFind(st.procedures, once.state.procedures, name);
      var proc := st.procedures[i];
      var beforeRequest := IrRequest(EpochText(startEpoch), name, Before);
      var afterRequest := IrRequest(EpochText(endEpoch), name, After);
      if NeedsBefore(proc) {
        assert beforeRequest in once.requests;
      }
      if NeedsAfter(proc) {
        assert afterRequest in once.requests;
      }
      assert once.state.procedures[i := once.state.procedures[i]] == once.state.procedures;
    }
  }

  /** Lists whose items carry the same names agree on where a name is first found. */
  lemma SameNamesSameFind(a: seq<ProcedureDiffItem>, b: seq<ProcedureDiffItem>, name: string)
    requires |a| == |b|
    requires forall k :: 0 <= k < |a| ==> a[k].metadata.name == b[k].metadata.name
    ensures Find(a, name) == Find(b, name)
  {
    var fa := Find(a, name);
    var fb := Find(b, name);
    if fa.Some? && fb.Some? {
      assert !(fa.value < fb.value) && !(fb.value < fa.value);
    }
  }

  /** A fetched empty text still reads as missing, so the next call fetches it again. */
  lemma EmptyTextRefetched(st: HookState, startEpoch: Option<string>, endEpoch: Option<string>,
                           name: string, fetchIr: IrFetch)
    requires Find(st.procedures, name).Some?
    requires NeedsBefore(st.procedures[Find(st.procedures, name).value])
    requires fetchIr(IrRequest(EpochText(startEpoch), name, Before)) == Success("")
    ensures var once := FetchProcedureBody(st, startEpoch, endEpoch, name, fetchIr);
      IrRequest(EpochText(startEpoch), name, Before) in
        FetchProcedureBody(once.state, startEpoch, endEpoch, name, fetchIr).requests
  {
    var once := FetchProcedureBody(st, startEpoch, endEpoch, name, fetchIr);
    SameNamesSameFind(st.procedures, once.state.procedures, name);
  }

  /** When the after fetch fails, the before text fetched just before it is kept and the
      error names the failure. */
  lemma PartialFetchKept(st: HookState, startEpoch: Option<string>, endEpoch: Option<string>,
                         name: string, fetchIr: IrFetch)
    requires Find(st.procedures, name).Some?
    requires NeedsBefore(st.procedures[Find(st.procedures, name).value])
    requires NeedsAfter(st.procedures[Find(st.procedures, name).value])
    requires fetchIr(IrRequest(EpochText(startEpoch), name, Before)).Success?
    requires fetchIr(IrRequest(EpochText(endEpoch), name, After)).Failure?
    ensures var out := FetchProcedureBody(st, startEpoch, endEpoch, name, fetchIr);
      var i := Find(st.procedures, name).value;
      && out.state.procedures[i].before == Some(fetchIr(IrRequest(EpochText(startEpoch), name, Before)).value)
      && out.state.procedures[i].after == st.procedures[i].after
      && out.state.error == Some(BodyError(name, fetchIr(IrRequest(EpochText(endEpoch), name, After)).error))
  {
  }

  /** A removed procedure with no text fetches only its before text; after stays absent. */
  lemma RemovedFetchesOnlyBefore(st: HookState, startEpoch: Option<string>, endEpoch: Option<string>,
                                 name: string, fetchIr: IrFetch)
    requires Find(st.procedures, name).Some?
    requires st.procedures[Find(st.procedures, name).value].status == Removed
    requires st.procedures[Find(st.procedures, name).value].before.None?
    requires st.procedures[Find(st.procedures, name).value].after.None?
    ensures var out := FetchProcedureBody(st, startEpoch, endEpoch, name, fetchIr);
      && out.requests == [IrRequest(EpochText(startEpoch), name, Before)]
      && out.state.procedures[Find(st.procedures, name).value].after.None?
  {
  }
}
