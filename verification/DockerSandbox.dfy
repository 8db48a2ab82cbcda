/** The Docker backend: one run with its deferred clean-up, and one pass of the reaper.  What
    the outside world answers is an input. */
module DockerSandboxes {
  import opened Option
  import opened GoInt
  import opened DockerModel
  import opened LimitWriters
  import L = ResourceLimits

  const MAX_OUTPUT_BYTES := 1024 * 1024
  const COMPILE_FAIL_EXIT_CODE := 100

  datatype LangEntry = LangEntry(defaultVersion: string, limits: L.LangLimits, images: map<string, string>)

  datatype LookupError = UnsupportedLanguage | UnsupportedVersion

  datatype Lookup = Found(image: string, limits: L.LangLimits) | NotFound(error: LookupError)

  function LookupSpec(specs: map<string, LangEntry>, lang: string, version: string): Lookup {
    if lang !in specs then NotFound(UnsupportedLanguage)
    else
      var entry := specs[lang];
      var v := if version == "" then entry.defaultVersion else version;
      if v !in entry.images then NotFound(UnsupportedVersion) else Found(entry.images[v], entry.limits)
  }

  datatype RunSpec = RunSpec(language: string, version: string, stdin: string, timeout: int64, memoryBytes: int64)

  datatype Status = OK | RuntimeError | Timeout | OOM | CompileError

  datatype RunResult = RunResult(stdout: string, stderr: string, exitCode: int, status: Status)

  datatype Ret = Done(result: RunResult) | Unsupported(error: LookupError) | InternalError

  /** How waiting for the container ends; oomKilled is false when inspecting it fails. */
  datatype Wait = WaitFailed(deadline: bool, requestEnded: bool) | Exited(code: int, oomKilled: bool)

  datatype Chunk = Chunk(toStderr: bool, data: string)

  /** What the outside world answers to one run. */
  datatype World = World(
    workspaceOk: bool, created: Option<Id>, requestEnded: bool, attachOk: bool, startOk: bool,
    stdinOk: bool, closeOk: bool, wait: Wait, logsOk: bool, output: seq<Chunk>, demuxOk: bool)

  /** What the run asks of the outside world. */
  datatype Call =
    | StageWorkspace | RemoveWorkspace
    | Create(image: string, memoryBytes: int)
    | Remove(id: Id)
    | Attach(id: Id) | CloseAttach(id: Id) | Start(id: Id) | WriteStdin(id: Id) | CloseStdin(id: Id)
    | AwaitExit(id: Id, timeout: int) | Inspect(id: Id) | Logs(id: Id)

  predicate UsesOnly(c: Call, id: Id) {
    match c
    case Attach(x) => x == id
    case CloseAttach(x) => x == id
    case Start(x) => x == id
    case WriteStdin(x) => x == id
    case CloseStdin(x) => x == id
    case AwaitExit(x, _) => x == id
    case Inspect(x) => x == id
    case Logs(x) => x == id
    case _ => false
  }

  function StatusForExit(code: int): Status {
    if code == 0 then OK else if code == COMPILE_FAIL_EXIT_CODE then CompileError else RuntimeError
  }

  predicate Attached(spec: RunSpec, w: World) { !w.requestEnded && (spec.stdin != "" ==> w.attachOk) }

  predicate Started(spec: RunSpec, w: World) { Attached(spec, w) && w.startOk }

  predicate Fed(spec: RunSpec, w: World) { Started(spec, w) && (spec.stdin != "" ==> w.stdinOk && w.closeOk) }

  predicate TimedOut(w: World) { w.wait.WaitFailed? && w.wait.deadline && !w.wait.requestEnded }

  /** Exit code 137 without a kill of ours means the kernel did it. */
  predicate OutOfMemory(w: World) { w.wait.Exited? && (w.wait.oomKilled || w.wait.code == 137) }

  /** All bytes of one stream. */
  function Stream(output: seq<Chunk>, toStderr: bool): string {
    if output == [] then "" else
    var n := |output| - 1;
    Stream(output[..n], toStderr) + (if output[n].toStderr == toStderr then output[n].data else "")
  }

  class DockerSandbox {
    const specs: map<string, LangEntry>
    var calls: seq<Call>
    var store: map<Id, Container>   // the managed containers of the daemon

    constructor (specs: map<string, LangEntry>)
      ensures this.specs == specs && calls == [] && store == map[]
    {
      this.specs, calls, store := specs, [], map[];
    }

    /** A whole run.  The deferred calls come last, in reverse order of their registration. */
    method Run(spec: RunSpec, w: World) returns (ret: Ret)
      modifies this`calls
      ensures LookupSpec(specs, spec.language, spec.version).NotFound? ==>
        calls == old(calls) && ret == Unsupported(LookupSpec(specs, spec.language, spec.version).error)
      ensures LookupSpec(specs, spec.language, spec.version).Found? ==>
        calls == old(calls) + Script(spec, w, LookupSpec(specs, spec.language, spec.version))
      ensures LookupSpec(specs, spec.language, spec.version).Found? ==>
        if w.workspaceOk && w.created.Some? then Result(spec, w, ret) else ret == InternalError
      ensures ret == Unsupported(UnsupportedLanguage) <==> spec.language !in specs
      ensures spec.language !in specs ==> calls == old(calls)
      ensures spec.language in specs ==>
        var entry := specs[spec.language];
        var v := if spec.version == "" then entry.defaultVersion else spec.version;
        && (ret == Unsupported(UnsupportedVersion) <==> v !in entry.images)
        && (v !in entry.images ==> calls == old(calls))
        && (v in entry.images ==> OpensWith(spec, w, entry.images[v], entry.limits, old(calls), calls))
    {
      hide L.EffectiveTimeout, L.EffectiveMemory, Body, Result, Script, OpensWith;
      ResultIsNoRefusal(spec, w);
      var ds := LookupSpec(specs, spec.language, spec.version);
      if ds.NotFound? { return Unsupported(ds.error); }
      ScriptOpens(spec, w, ds, calls);
      ret := Conduct(spec, w, ds);
    }

    /** The run once the image is known. */
    method Conduct(spec: RunSpec, w: World, ds: Lookup) returns (ret: Ret)
      requires ds.Found?
      modifies this`calls
      ensures calls == old(calls) + Script(spec, w, ds)
      ensures if w.workspaceOk && w.created.Some? then Result(spec, w, ret) else ret == InternalError
    {
      hide L.EffectiveTimeout, L.EffectiveMemory, Body, Result;
      calls := calls + [StageWorkspace];
      if !w.workspaceOk { return InternalError; }
      calls := calls + [Create(ds.image, L.EffectiveMemory(spec.memoryBytes, ds.limits))];
      if w.created.None? {
        calls := calls + [RemoveWorkspace];
        return InternalError;
      }
      var id := w.created.value;
      ret := RunContainer(spec, w, ds.limits, id);
      calls := calls + [Call.Remove(id)];
      calls := calls + [RemoveWorkspace];
    }

    /** Everything between the registration of the deferred removal and the return. */
    method RunContainer(spec: RunSpec, w: World, limits: L.LangLimits, id: Id) returns (ret: Ret)
      modifies this`calls
      ensures calls == old(calls) + Body(spec, w, limits, id)
      ensures Result(spec, w, ret)
    {
      hide L.EffectiveTimeout, UsesOnly, Result, MiddleCalls;
      if w.requestEnded {
        EarlyResult(spec, w);
        return InternalError;
      }
      if spec.stdin != "" {
        calls := calls + [Attach(id)];
        if !w.attachOk {
          EarlyResult(spec, w);
          return InternalError;
        }
      }
      ret := StartAndWait(spec, w, limits, id);
      if spec.stdin != "" {
        calls := calls + [CloseAttach(id)];
      }
    }

    method StartAndWait(spec: RunSpec, w: World, limits: L.LangLimits, id: Id) returns (ret: Ret)
      requires Attached(spec, w)
      modifies this`calls
      ensures calls == old(calls) + MiddleCalls(spec, w, limits, id)
      ensures Result(spec, w, ret)
    {
      hide L.EffectiveTimeout, UsesOnly, Stream, First, StatusForExit, WaitCalls, Result;
      if !Fed(spec, w) { NotFed(spec, w, limits, id); }
      calls := calls + [Start(id)];
      if !w.startOk { return InternalError; }
      var timeout := L.EffectiveTimeout(spec.timeout, limits);
      if spec.stdin != "" {
        calls := calls + [WriteStdin(id)];
        if !w.stdinOk { return InternalError; }
        calls := calls + [CloseStdin(id)];
        if !w.closeOk { return InternalError; }
      }
      ret := WaitAndCollect(spec, w, id, timeout);
    }

    method WaitAndCollect(spec: RunSpec, w: World, id: Id, timeout: int) returns (ret: Ret)
      requires Fed(spec, w)
      modifies this`calls
      ensures calls == old(calls) + WaitCalls(w, id, timeout)
      ensures Result(spec, w, ret)
    {
      hide Stream, First, StatusForExit;
      calls := calls + [AwaitExit(id, timeout)];
      var statusCode := 0;
      match w.wait {
        case WaitFailed(deadline, requestEnded) =>
          if deadline && !requestEnded { return Done(RunResult("", "", -1, Timeout)); }
          return InternalError;
        case Exited(code, oomKilled) =>
          statusCode := code;
          calls := calls + [Inspect(id)];
          if oomKilled || statusCode == 137 { return Done(RunResult("", "", -1, OOM)); }
      }
      calls := calls + [Logs(id)];
      if !w.logsOk { return InternalError; }
      var stdout, stderr := Demux(w.output);
      if !w.demuxOk { return InternalError; }
      StatusIsPlain(statusCode);
      ret := Done(RunResult(stdout, stderr, statusCode, StatusForExit(statusCode)));
    }

    /** A pass of the reaper: list, then remove what is old enough; gone are the containers
        whose removal works. */
    method ReapOrphans(listOk: bool, order: seq<Id>, now: int, gone: set<Id>)
      requires forall id :: id in store ==> id in order
      modifies this`store
      ensures !listOk ==> store == old(store)
      ensures listOk ==> store == AfterPass(old(store), now, gone)
    {
      if !listOk { return; }
      var items := Listing(store, order);
      ListingAt(store, order);
      assert forall k :: 0 <= k < |items| ==> items[k] in items;
      for k := 0 to |items|
        invariant forall id :: id in store ==> id in old(store) && store[id] == old(store)[id]
        invariant forall id :: id in old(store) ==>
          (id !in store <==> id in gone && exists j :: 0 <= j < k && items[j].id == id && IsOrphan(items[j].createdSec, now, REAP_MAX_AGE))
      {
        store := ReapOne(store, items[k], now, REAP_MAX_AGE, items[k].id in gone);
      }
    }
  }

  /** What a pass leaves: everything but the orphans whose removal works. */
  function AfterPass(store: map<Id, Container>, now: int, gone: set<Id>): map<Id, Container> {
    map id | id in store && !(id in gone && IsOrphan(store[id].created / SECOND, now, REAP_MAX_AGE)) :: store[id]
  }

  /** Splits the multiplexed output; each stream keeps its first mebibyte. */
  method Demux(output: seq<Chunk>) returns (stdout: string, stderr: string)
    ensures stdout == First(MAX_OUTPUT_BYTES, Stream(output, false))
    ensures stderr == First(MAX_OUTPUT_BYTES, Stream(output, true))
  {
    var out := new LimitWriter(MAX_OUTPUT_BYTES);
    var err := new LimitWriter(MAX_OUTPUT_BYTES);
    for k := 0 to |output|
      invariant fresh(out) && fresh(err) && out != err
      invariant out.Valid() && err.Valid() && out.limit == err.limit == MAX_OUTPUT_BYTES
      invariant out.written == Stream(output[..k], false) && err.written == Stream(output[..k], true)
    {
      assert output[..k + 1][..k] == output[..k];
      if output[k].toStderr { var _ := err.Write(output[k].data); } else { var _ := out.Write(output[k].data); }
    }
    assert output[..|output|] == output;
    stdout, stderr := out.buf, err.buf;
  }

  function Opening(spec: RunSpec, ds: Lookup): seq<Call>
    requires ds.Found?
  {
    [StageWorkspace, Create(ds.image, L.EffectiveMemory(spec.memoryBytes, ds.limits))]
  }

  function When(c: bool, call: Call): seq<Call> { if c then [call] else [] }

  /** Each call from the start on, with the condition on which it is made. */
  function MiddleCalls(spec: RunSpec, w: World, limits: L.LangLimits, id: Id): seq<Call> {
    When(Attached(spec, w), Start(id)) + StdinCalls(spec, w, id)
    + (if Fed(spec, w) then WaitCalls(w, id, L.EffectiveTimeout(spec.timeout, limits)) else [])
  }

  function StdinCalls(spec: RunSpec, w: World, id: Id): seq<Call> {
    When(Started(spec, w) && spec.stdin != "", WriteStdin(id))
    + When(Started(spec, w) && spec.stdin != "" && w.stdinOk, CloseStdin(id))
  }

  function WaitCalls(w: World, id: Id, timeout: int): seq<Call> {
    [AwaitExit(id, timeout)] + When(w.wait.Exited?, Inspect(id)) + When(w.wait.Exited? && !OutOfMemory(w), Logs(id))
  }

  /** The calls on the container while the run has it: the stdin connection is opened before
      the start and closed after everything else. */
  function Body(spec: RunSpec, w: World, limits: L.LangLimits, id: Id): seq<Call> {
    When(!w.requestEnded && spec.stdin != "", Attach(id))
    + MiddleCalls(spec, w, limits, id)
    + When(Attached(spec, w) && spec.stdin != "", CloseAttach(id))
  }

  lemma {:induction false} EarlyResult(spec: RunSpec, w: World)
    requires !Attached(spec, w)
    ensures Result(spec, w, InternalError)
    ensures forall limits, id :: MiddleCalls(spec, w, limits, id) == []
  {
  }

  lemma {:induction false} NotFed(spec: RunSpec, w: World, limits: L.LangLimits, id: Id)
    requires !Fed(spec, w)
    ensures Result(spec, w, InternalError)
    ensures MiddleCalls(spec, w, limits, id) == When(Attached(spec, w), Start(id)) + StdinCalls(spec, w, id)
  {
  }

  lemma {:induction false} StatusIsPlain(code: int)
    ensures StatusForExit(code) !in {Timeout, OOM}
  {
  }

  /** What the run reports. */
  ghost predicate Result(spec: RunSpec, w: World, ret: Ret) {
    && (ret.Done? || ret == InternalError)
    && (ret.Done? <==> Fed(spec, w) && (TimedOut(w) || OutOfMemory(w) || (w.wait.Exited? && w.logsOk && w.demuxOk)))
    && (ret.Done? ==>
          && (ret.result.status == Timeout <==> w.wait.WaitFailed?)
          && (ret.result.status == OOM <==> OutOfMemory(w))
          && (ret.result.status in {Timeout, OOM} ==>
                ret.result.exitCode == -1 && ret.result.stdout == "" && ret.result.stderr == "")
          && (ret.result.status !in {Timeout, OOM} ==>
                && ret.result.exitCode == w.wait.code && ret.result.status == StatusForExit(w.wait.code)
                && ret.result.stdout == First(MAX_OUTPUT_BYTES, Stream(w.output, false))
                && ret.result.stderr == First(MAX_OUTPUT_BYTES, Stream(w.output, true))))
  }

  /** What a run of a supported language asks for, as a whole. */
  function Script(spec: RunSpec, w: World, ds: Lookup): seq<Call>
    requires ds.Found?
  {
    if !w.workspaceOk then [StageWorkspace]
    else match w.created
      case None => Opening(spec, ds) + [RemoveWorkspace]
      case Some(id) => Opening(spec, ds) + Body(spec, w, ds.limits, id) + [Call.Remove(id), RemoveWorkspace]
  }

  lemma {:induction false} ScriptParts(spec: RunSpec, w: World, ds: Lookup)
    requires ds.Found?
    ensures Script(spec, w, ds) ==
      if !w.workspaceOk then [StageWorkspace]
      else if w.created.None? then [StageWorkspace, Create(ds.image, L.EffectiveMemory(spec.memoryBytes, ds.limits)), RemoveWorkspace]
      else [StageWorkspace, Create(ds.image, L.EffectiveMemory(spec.memoryBytes, ds.limits))]
           + Body(spec, w, ds.limits, w.created.value) + [Call.Remove(w.created.value), RemoveWorkspace]
  {
  }

  lemma {:induction false} ResultIsNoRefusal(spec: RunSpec, w: World)
    ensures forall ret :: Result(spec, w, ret) ==> !ret.Unsupported?
  {
  }

  /** The workspace is staged first; then, and only then, a container of the image is asked for,
      with the clamped memory; whenever its exit is awaited, it is for the clamped timeout. */
  ghost predicate OpensWith(spec: RunSpec, w: World, image: string, limits: L.LangLimits, before: seq<Call>, after: seq<Call>) {
    && before < after && after[|before|] == StageWorkspace
    && (w.workspaceOk ==> |before| + 1 < |after| && after[|before| + 1] == Create(image, L.EffectiveMemory(spec.memoryBytes, limits)))
    && (forall k :: |before| <= k < |after| && after[k].Create? ==> k == |before| + 1)
    && (forall k :: |before| <= k < |after| && after[k].AwaitExit? ==> after[k].timeout == L.EffectiveTimeout(spec.timeout, limits))
  }

  lemma {:induction false} ScriptOpens(spec: RunSpec, w: World, ds: Lookup, before: seq<Call>)
    requires ds.Found?
    ensures OpensWith(spec, w, ds.image, ds.limits, before, before + Script(spec, w, ds))
  {
    hide L.EffectiveTimeout, L.EffectiveMemory, Body, Script;
    ScriptParts(spec, w, ds);
    var calls, after := Script(spec, w, ds), before + Script(spec, w, ds);
    if w.workspaceOk && w.created.Some? {
      var body := Body(spec, w, ds.limits, w.created.value);
      BodyUsesOnly(spec, w, ds.limits, w.created.value);
      BodyAwaits(spec, w, ds.limits, w.created.value);
      forall k | 2 <= k < 2 + |body| ensures !calls[k].Create? && (calls[k].AwaitExit? ==> calls[k].timeout == L.EffectiveTimeout(spec.timeout, ds.limits)) {
        assert calls[k] == body[k - 2] && body[k - 2] in body && UsesOnly(body[k - 2], w.created.value);
      }
    }
    forall k | |before| <= k < |after| ensures after[k] == calls[k - |before|] {}
  }

  lemma {:induction false} BodyAwaits(spec: RunSpec, w: World, limits: L.LangLimits, id: Id)
    ensures forall c :: c in Body(spec, w, limits, id) && c.AwaitExit? ==> c.timeout == L.EffectiveTimeout(spec.timeout, limits)
  {
    hide L.EffectiveTimeout, Attached, Started, Fed;
    assert forall c :: c in StdinCalls(spec, w, id) ==> !c.AwaitExit?;
    assert forall c :: c in WaitCalls(w, id, L.EffectiveTimeout(spec.timeout, limits)) && c.AwaitExit? ==> c.timeout == L.EffectiveTimeout(spec.timeout, limits);
    hide StdinCalls, WaitCalls;
  }

  /** MAIN RESULT.  Each call on the container is made exactly on its own condition, from a request
      that is still there to a wait that ended without a kill. */
  lemma {:induction false} CallsExactly(spec: RunSpec, w: World, limits: L.LangLimits, id: Id)
    ensures var body := Body(spec, w, limits, id); var fed := spec.stdin == "" || (w.attachOk && w.stdinOk && w.closeOk);
            && (Attach(id) in body <==> !w.requestEnded && spec.stdin != "")
            && (Start(id) in body <==> !w.requestEnded && (spec.stdin == "" || w.attachOk))
            && (WriteStdin(id) in body <==> !w.requestEnded && spec.stdin != "" && w.attachOk && w.startOk)
            && (CloseStdin(id) in body <==> !w.requestEnded && spec.stdin != "" && w.attachOk && w.startOk && w.stdinOk)
            && (forall t :: AwaitExit(id, t) in body <==>
                  !w.requestEnded && w.startOk && fed && t == L.EffectiveTimeout(spec.timeout, limits))
            && (Inspect(id) in body <==> !w.requestEnded && w.startOk && fed && w.wait.Exited?)
            && (Logs(id) in body <==>
                  !w.requestEnded && w.startOk && fed && w.wait.Exited? && !w.wait.oomKilled && w.wait.code != 137)
            && (CloseAttach(id) in body <==> !w.requestEnded && spec.stdin != "" && w.attachOk)
  {
    hide L.EffectiveTimeout;
    var timeout := L.EffectiveTimeout(spec.timeout, limits);
    StdinExactly(spec, w, id);
    WaitExactly(w, id, timeout);
    hide StdinCalls, WaitCalls;
    MiddleExactly(spec, w, limits, id);
    BodyExactly(spec, w, limits, id);
    hide MiddleCalls, Body;
  }

  lemma {:induction false} BodyExactly(spec: RunSpec, w: World, limits: L.LangLimits, id: Id)
    ensures forall c :: c in Body(spec, w, limits, id) <==>
      || (c == Attach(id) && !w.requestEnded && spec.stdin != "")
      || c in MiddleCalls(spec, w, limits, id)
      || (c == CloseAttach(id) && Attached(spec, w) && spec.stdin != "")
  {
    hide MiddleCalls, Attached;
  }

  lemma {:induction false} StdinExactly(spec: RunSpec, w: World, id: Id)
    ensures forall c :: c in StdinCalls(spec, w, id) <==>
      (c == WriteStdin(id) && Started(spec, w) && spec.stdin != "") || (c == CloseStdin(id) && Started(spec, w) && spec.stdin != "" && w.stdinOk)
  {
  }

  lemma {:induction false} WaitExactly(w: World, id: Id, timeout: int)
    ensures forall c :: c in WaitCalls(w, id, timeout) <==>
      c == AwaitExit(id, timeout) || (c == Inspect(id) && w.wait.Exited?) || (c == Logs(id) && w.wait.Exited? && !OutOfMemory(w))
  {
  }

  lemma {:induction false} MiddleExactly(spec: RunSpec, w: World, limits: L.LangLimits, id: Id)
    ensures forall c :: c in MiddleCalls(spec, w, limits, id) <==>
      || (c == Start(id) && Attached(spec, w)) || c in StdinCalls(spec, w, id)
      || (Fed(spec, w) && c in WaitCalls(w, id, L.EffectiveTimeout(spec.timeout, limits)))
  {
    hide L.EffectiveTimeout, StdinCalls, WaitCalls, Attached, Fed;
  }

  /** The steps of a run on its container, in the order of the code. */
  function Rank(c: Call): nat {
    match c
    case Attach(_) => 1
    case Start(_) => 2
    case WriteStdin(_) => 3
    case CloseStdin(_) => 4
    case AwaitExit(_, _) => 5
    case Inspect(_) => 6
    case Logs(_) => 7
    case CloseAttach(_) => 8
    case _ => 0
  }

  /** Each step later than the one before, all of them between two ranks. */
  predicate InRanks(calls: seq<Call>, lo: nat, hi: nat) {
    && (forall i, j :: 0 <= i < j < |calls| ==> Rank(calls[i]) < Rank(calls[j]))
    && (forall i :: 0 <= i < |calls| ==> lo <= Rank(calls[i]) <= hi)
  }

  lemma {:induction false} JoinRanks(a: seq<Call>, b: seq<Call>, lo: nat, mid: nat, hi: nat)
    requires lo <= mid < hi && InRanks(a, lo, mid) && InRanks(b, mid + 1, hi)
    ensures InRanks(a + b, lo, hi)
  {
    hide Rank;
  }

  lemma {:induction false} RankOfOne(c: bool, call: Call)
    ensures InRanks(When(c, call), Rank(call), Rank(call))
  {
  }

  /** They never come in another order, and none comes twice. */
  lemma {:induction false} CallsInOrder(spec: RunSpec, w: World, limits: L.LangLimits, id: Id)
    ensures InRanks(Body(spec, w, limits, id), 1, 8)
  {
    hide L.EffectiveTimeout, Attached, Started, Fed, InRanks, When;
    StdinInOrder(spec, w, id);
    WaitInOrder(w, id, L.EffectiveTimeout(spec.timeout, limits));
    NoRanks();
    hide StdinCalls, WaitCalls;
    RankOfOne(!w.requestEnded && spec.stdin != "", Attach(id));
    RankOfOne(Attached(spec, w), Start(id));
    RankOfOne(Attached(spec, w) && spec.stdin != "", CloseAttach(id));
    var middle := MiddleCalls(spec, w, limits, id);
    var started := When(Attached(spec, w), Start(id));
    var waited := if Fed(spec, w) then WaitCalls(w, id, L.EffectiveTimeout(spec.timeout, limits)) else [];
    JoinRanks(started, StdinCalls(spec, w, id), 2, 2, 4);
    JoinRanks(started + StdinCalls(spec, w, id), waited, 2, 4, 7);
    var attach := When(!w.requestEnded && spec.stdin != "", Attach(id));
    JoinRanks(attach, middle, 1, 1, 7);
    JoinRanks(attach + middle, When(Attached(spec, w) && spec.stdin != "", CloseAttach(id)), 1, 7, 8);
  }

  lemma {:induction false} StdinInOrder(spec: RunSpec, w: World, id: Id)
    ensures InRanks(StdinCalls(spec, w, id), 3, 4)
  {
  }

  lemma {:induction false} WaitInOrder(w: World, id: Id, timeout: int)
    ensures InRanks(WaitCalls(w, id, timeout), 5, 7)
  {
  }

  lemma {:induction false} NoRanks()
    ensures InRanks([], 5, 7)
  {
  }

  /** MAIN RESULT.  What a run reports, in terms of what happened alone. */
  lemma {:induction false} ReportsExactly(spec: RunSpec, w: World, ret: Ret)
    requires Result(spec, w, ret)
    ensures var fed := !w.requestEnded && w.startOk && (spec.stdin == "" || (w.attachOk && w.stdinOk && w.closeOk));
            if !fed then ret == InternalError
            else match w.wait
              case WaitFailed(deadline, requestEnded) =>
                ret == if deadline && !requestEnded then Done(RunResult("", "", -1, Timeout)) else InternalError
              case Exited(code, oomKilled) =>
                if oomKilled || code == 137 then ret == Done(RunResult("", "", -1, OOM))
                else if !w.logsOk || !w.demuxOk then ret == InternalError
                else ret == Done(RunResult(First(1_048_576, Stream(w.output, false)), First(1_048_576, Stream(w.output, true)), code,
                                           if code == 0 then OK else if code == 100 then CompileError else RuntimeError))
  {
    hide Stream, First;
  }

  /** A stream is all that was sent to it, in order, and nothing else. */
  lemma {:induction false} StreamExactly(before: seq<Chunk>, chunk: Chunk, toStderr: bool)
    ensures Stream([], toStderr) == ""
    ensures Stream(before + [chunk], toStderr) == Stream(before, toStderr) + (if chunk.toStderr == toStderr then chunk.data else "")
  {
    assert (before + [chunk])[..|before|] == before;
  }

  /** MAIN RESULT.  Whatever the outside world answers: once a container is created the run asks
      for its removal, exactly once, after every other call on it, before the workspace goes,
      and touches no other container; without one it removes nothing.  A staged workspace goes
      last, exactly once. */
  lemma {:induction false} OneRemovalOnEveryPath(spec: RunSpec, w: World, ds: Lookup, k: nat)
    requires ds.Found? && k < |Script(spec, w, ds)|
    ensures var calls, n := Script(spec, w, ds), |Script(spec, w, ds)|;
            && (calls[k] == RemoveWorkspace <==> w.workspaceOk && k == n - 1)
            && (calls[k].Remove? <==> w.workspaceOk && w.created.Some? && k == n - 2)
            && (calls[k].Remove? ==> calls[k].id == w.created.value)
            && (w.created.Some? && 2 <= k < n - 2 ==> UsesOnly(calls[k], w.created.value))
  {
    hide L.EffectiveTimeout, L.EffectiveMemory, Body;
    if w.workspaceOk && w.created.Some? {
      BodyUsesOnly(spec, w, ds.limits, w.created.value);
      var opening, body := Opening(spec, ds), Body(spec, w, ds.limits, w.created.value);
      if 2 <= k < 2 + |body| { assert Script(spec, w, ds)[k] == body[k - 2] && UsesOnly(body[k - 2], w.created.value); }
    }
  }

  lemma {:induction false} BodyUsesOnly(spec: RunSpec, w: World, limits: L.LangLimits, id: Id)
    ensures forall c :: c in Body(spec, w, limits, id) ==> UsesOnly(c, id)
  {
    hide L.EffectiveTimeout, Attached, Started, Fed;
    assert forall c :: c in StdinCalls(spec, w, id) ==> UsesOnly(c, id);
    WaitUsesOnly(w, id, L.EffectiveTimeout(spec.timeout, limits));
    hide StdinCalls, WaitCalls;
  }

  lemma {:induction false} WaitUsesOnly(w: World, id: Id, timeout: int)
    ensures forall c :: c in WaitCalls(w, id, timeout) ==> UsesOnly(c, id)
  {
  }
}
