/** One run under nsjail: an optional build stage, then the run stage, each with its own
    configuration and deadline. */
module NsjailRuns {
  import opened GoInt
  import opened ResourceLimits
  import opened Nsjail
  import opened LimitWriters
  import D = DockerSandboxes

  datatype Commands = Commands(runCmd: seq<string>, buildCmd: seq<string>)

  datatype NsEntry = NsEntry(kind: string, defaultVersion: string, spec: Spec, versions: map<string, Commands>)

  /** What a lookup gives; rootfs is the version's directory below the language's. */
  datatype NsLookup =
    | NsFound(spec: Spec, builds: bool, rootfs: (string, string), commands: Commands)
    | NsMissing(error: D.LookupError)

  function LookupSpec(specs: map<string, NsEntry>, lang: string, version: string): NsLookup {
    if lang !in specs then NsMissing(D.UnsupportedLanguage)
    else
      var entry := specs[lang];
      var v := if version == "" then entry.defaultVersion else version;
      if v !in entry.versions then NsMissing(D.UnsupportedVersion)
      else NsFound(entry.spec, entry.kind == "compiled" && entry.versions[v].buildCmd != [], (lang, v), entry.versions[v])
  }

  /** How the nsjail process ends; a signal shows as a negative exit code. */
  datatype Proc = NotStarted | Ended(code: int)

  datatype StageWorld = StageWorld(configOk: bool, proc: Proc, limitLogged: bool, deadlinePassed: bool, output: seq<D.Chunk>)

  datatype World = World(workspaceOk: bool, buildDirOk: bool, build: StageWorld, run: StageWorld)

  datatype Call = StageWorkspace | RemoveWorkspace | MakeBuildDir | Jail(stage: Stage, rootfs: (string, string), cmd: seq<string>, cfg: Config, deadline: int)

  predicate TimedOut(s: StageWorld) { s.limitLogged || s.deadlinePassed }

  function Out(s: StageWorld): string { First(D.MAX_OUTPUT_BYTES, D.Stream(s.output, false)) }

  function Err(s: StageWorld): string { First(D.MAX_OUTPUT_BYTES, D.Stream(s.output, true)) }

  function StatusForNsjailExit(code: int, timedOut: bool): D.Status {
    if timedOut then D.Timeout else if code == 0 then D.OK else if code == 137 then D.OOM else D.RuntimeError
  }

  /** The jail of a stage was set up and asked to run. */
  predicate BuildJailed(ns: NsLookup, w: World) { ns.NsFound? && ns.builds && w.workspaceOk && w.buildDirOk && w.build.configOk }

  predicate BuildPassed(ns: NsLookup, w: World) {
    ns.NsFound? && w.workspaceOk && (ns.builds ==> BuildJailed(ns, w) && w.build.proc == Ended(0) && !TimedOut(w.build))
  }

  predicate RunJailed(ns: NsLookup, w: World) { BuildPassed(ns, w) && w.run.configOk }

  function ConfigFor(spec: Spec, stage: Stage, timeout: int64, mem: int64): Config {
    var compile, run := spec.compileLimits, spec.limits;
    if stage == Build then
      Config(CeilSeconds(compile.timeout), Quotient(mem), compile.maxPids, 1024, 512, compile.workspaceSizeBytes,
             compile.tmpSizeBytes, mem, compile.maxPids, Ceil(compile.maxCPUs * 1000.0))
    else
      Config(CeilSeconds(timeout), Quotient(mem), run.maxPids, 16, 64, run.workspaceSizeBytes,
             run.tmpSizeBytes, mem, run.maxPids, Ceil(run.maxCPUs * 1000.0))
  }

  function CommandOf(ns: NsLookup, stage: Stage): seq<string>
    requires ns.NsFound?
  {
    if stage == Build then ns.commands.buildCmd else ns.commands.runCmd
  }

  /** The jail of a stage: its root and command, its limits and the deadline around it. */
  function JailFor(ns: NsLookup, stage: Stage, timeoutAsked: int64, memoryAsked: int64): Call
    requires ns.NsFound?
  {
    var timeout, mem := StageTimeout(ns.spec, stage, timeoutAsked), StageMemory(ns.spec, stage, memoryAsked);
    Jail(stage, ns.rootfs, CommandOf(ns, stage), ConfigFor(ns.spec, stage, timeout, mem), ToInt64(timeout + KILL_GRACE))
  }

  function When(c: bool, call: Call): seq<Call> { if c then [call] else [] }

  /** Each call of a run, with the condition on which it is made. */
  function Script(ns: NsLookup, w: World, timeoutAsked: int64, memoryAsked: int64): seq<Call>
    requires ns.NsFound?
  {
    [StageWorkspace]
    + When(w.workspaceOk && ns.builds, MakeBuildDir)
    + When(BuildJailed(ns, w), JailFor(ns, Build, timeoutAsked, memoryAsked))
    + When(RunJailed(ns, w), JailFor(ns, Run, timeoutAsked, memoryAsked))
    + When(w.workspaceOk, RemoveWorkspace)
  }

  /** What a run reports. */
  ghost predicate Reports(ns: NsLookup, w: World, ret: D.Ret) {
    match ns
    case NsMissing(error) => ret == D.Unsupported(error)
    case NsFound(_, _, _, _) =>
      if RunJailed(ns, w) then
        && ret.Done? && ret.result.stdout == Out(w.run) && ret.result.stderr == Err(w.run)
        && (ret.result.status == D.Timeout <==> TimedOut(w.run))
        && (ret.result.status == D.OOM <==> !TimedOut(w.run) && w.run.proc == Ended(137))
        && (ret.result.status == D.OK <==> !TimedOut(w.run) && w.run.proc in {Ended(0), NotStarted})
        && ret.result.status != D.CompileError
        && ret.result.exitCode == (if ret.result.status in {D.Timeout, D.OOM} then -1 else if w.run.proc.Ended? then w.run.proc.code else 0)
      else if BuildJailed(ns, w) && !BuildPassed(ns, w) && w.build.proc.Ended? then
        && ret.Done? && ret.result.stdout == Out(w.build) && ret.result.stderr == Err(w.build)
        && ret.result.status == (if TimedOut(w.build) then D.Timeout else D.CompileError)
        && ret.result.exitCode == (if TimedOut(w.build) then -1 else w.build.proc.code)
      else ret == D.InternalError
  }

  class NsjailSandbox {
    const specs: map<string, NsEntry>
    var calls: seq<Call>

    constructor (specs: map<string, NsEntry>)
      ensures this.specs == specs && calls == []
    {
      this.specs, calls := specs, [];
    }

    method EnterJail(ns: NsLookup, stage: Stage, timeout: int64, mem: int64)
      requires ns.NsFound?
      modifies this`calls
      ensures calls == old(calls) + [Jail(stage, ns.rootfs, CommandOf(ns, stage), ConfigFor(ns.spec, stage, timeout, mem),
                                          ToInt64(timeout + KILL_GRACE))]
    {
      var cfg := WriteConfig(ns.spec, timeout, mem, stage);
      var cmd := ns.commands.runCmd;
      if stage == Build { cmd := ns.commands.buildCmd; }
      calls := calls + [Jail(stage, ns.rootfs, cmd, cfg, ToInt64(timeout + KILL_GRACE))];
    }

    method Run(lang: string, version: string, timeoutAsked: int64, memoryAsked: int64, w: World) returns (ret: D.Ret)
      modifies this`calls
      ensures Reports(LookupSpec(specs, lang, version), w, ret)
      ensures calls == old(calls) + (if LookupSpec(specs, lang, version).NsFound?
                                     then Script(LookupSpec(specs, lang, version), w, timeoutAsked, memoryAsked) else [])
      ensures ret == D.Unsupported(D.UnsupportedLanguage) <==> lang !in specs
      ensures lang !in specs ==> calls == old(calls)
      ensures lang in specs ==>
        var entry := specs[lang];
        var v := if version == "" then entry.defaultVersion else version;
        && (ret == D.Unsupported(D.UnsupportedVersion) <==> v !in entry.versions)
        && (v !in entry.versions ==> calls == old(calls))
        && (v in entry.versions ==>
              old(calls) <= calls && EntersJails(entry, lang, v, w, timeoutAsked, memoryAsked, calls[|old(calls)|..]))
    {
      hide ConfigFor, Out, Err, StageTimeout, StageMemory, Script, Reports, EntersJails;
      var ns := LookupSpec(specs, lang, version);
      ReportsNoRefusal(ns, w);
      if ns.NsMissing? {
        ret := D.Unsupported(ns.error);
        return;
      }
      ret := Conduct(ns, timeoutAsked, memoryAsked, w);
      var v := if version == "" then specs[lang].defaultVersion else version;
      ScriptEnters(specs[lang], lang, v, w, ns, timeoutAsked, memoryAsked);
      assert calls[|old(calls)|..] == Script(ns, w, timeoutAsked, memoryAsked);
    }

    /** The run once language and version are found. */
    method Conduct(ns: NsLookup, timeoutAsked: int64, memoryAsked: int64, w: World) returns (ret: D.Ret)
      requires ns.NsFound?
      modifies this`calls
      ensures Reports(ns, w, ret)
      ensures calls == old(calls) + Script(ns, w, timeoutAsked, memoryAsked)
    {
      hide ConfigFor, Out, Err, StageTimeout, StageMemory;
      calls := calls + [StageWorkspace];
      if !w.workspaceOk { return D.InternalError; }
      ret := Stages(ns, timeoutAsked, memoryAsked, w);
      calls := calls + [RemoveWorkspace];
    }

    /** Both stages, while the workspace is there. */
    method Stages(ns: NsLookup, timeoutAsked: int64, memoryAsked: int64, w: World) returns (ret: D.Ret)
      requires ns.NsFound? && w.workspaceOk
      modifies this`calls
      ensures Reports(ns, w, ret)
      ensures calls == old(calls)
        + When(ns.builds, MakeBuildDir)
        + When(BuildJailed(ns, w), JailFor(ns, Build, timeoutAsked, memoryAsked))
        + When(RunJailed(ns, w), JailFor(ns, Stage.Run, timeoutAsked, memoryAsked))
    {
      hide ConfigFor, D.Stream, First, CeilSeconds, Quotient, EffectiveTimeout, EffectiveMemory, ToInt64;
      if ns.builds {
        calls := calls + [MakeBuildDir];
        if !w.buildDirOk { return D.InternalError; }
        var buildTimeout := ns.spec.compileLimits.timeout;
        if !w.build.configOk { return D.InternalError; }
        EnterJail(ns, Build, buildTimeout, ns.spec.compileLimits.memoryBytes);
        if w.build.proc.NotStarted? { return D.InternalError; }
        var stdout, stderr := D.Demux(w.build.output);
        if TimedOut(w.build) { return D.Done(D.RunResult(stdout, stderr, -1, D.Timeout)); }
        if w.build.proc.code != 0 { return D.Done(D.RunResult(stdout, stderr, w.build.proc.code, D.CompileError)); }
      }
      var runTimeout := EffectiveTimeout(timeoutAsked, ns.spec.limits);
      var runMem := EffectiveMemory(memoryAsked, ns.spec.limits);
      if !w.run.configOk { return D.InternalError; }
      EnterJail(ns, Stage.Run, runTimeout, runMem);
      var stdout, stderr := D.Demux(w.run.output);
      var exitCode := 0;
      if w.run.proc.Ended? { exitCode := w.run.proc.code; }
      var timedOut := TimedOut(w.run);
      if timedOut { exitCode := -1; }
      var status := StatusForNsjailExit(exitCode, timedOut);
      if status == D.OOM { exitCode := -1; }
      ret := D.Done(D.RunResult(stdout, stderr, exitCode, status));
    }
  }

  /** The jails of a run, in terms of the language: the build comes exactly for a compiled language
      with a build command, the program only after a build that ended with code 0 in time, each
      stage with its own command in the root of its version. */
  ghost predicate EntersJails(entry: NsEntry, lang: string, v: string, w: World, timeoutAsked: int64, memoryAsked: int64, calls: seq<Call>)
    requires v in entry.versions
  {
    var builds := entry.kind == "compiled" && entry.versions[v].buildCmd != [];
    var built := w.buildDirOk && w.build.configOk && w.build.proc == Ended(0) && !w.build.limitLogged && !w.build.deadlinePassed;
    && ((exists k :: 0 <= k < |calls| && IsJail(calls[k], Build)) <==> builds && w.workspaceOk && w.buildDirOk && w.build.configOk)
    && ((exists k :: 0 <= k < |calls| && IsJail(calls[k], Run)) <==> w.workspaceOk && (builds ==> built) && w.run.configOk)
    && (forall i, j :: 0 <= i < j < |calls| && calls[i].Jail? && calls[j].Jail? ==> calls[i].stage == Build && calls[j].stage == Run)
    && (forall k :: 0 <= k < |calls| && calls[k].Jail? ==>
          && calls[k].rootfs == (lang, v)
          && calls[k].cmd == (if calls[k].stage == Build then entry.versions[v].buildCmd else entry.versions[v].runCmd)
          && var timeout := if calls[k].stage == Build then entry.spec.compileLimits.timeout
                            else EffectiveTimeout(timeoutAsked, entry.spec.limits);
             var mem := if calls[k].stage == Build then entry.spec.compileLimits.memoryBytes
                        else EffectiveMemory(memoryAsked, entry.spec.limits);
             && calls[k].cfg.timeoutSec == CeilSeconds(timeout) && calls[k].deadline == ToInt64(timeout + 2 * SECOND)
             && calls[k].cfg.cgroupMemMax == mem && calls[k].cfg.memMB == Quotient(mem))
  }

  predicate IsJail(c: Call, stage: Stage) { c.Jail? && c.stage == stage }

  lemma {:induction false} ReportsNoRefusal(ns: NsLookup, w: World)
    ensures ns.NsFound? ==> forall ret :: Reports(ns, w, ret) ==> !ret.Unsupported?
    ensures ns.NsMissing? ==> Reports(ns, w, D.Unsupported(ns.error))
  {
  }

  lemma {:induction false} ScriptEnters(entry: NsEntry, lang: string, v: string, w: World, ns: NsLookup, timeoutAsked: int64, memoryAsked: int64)
    requires v in entry.versions
    requires ns == NsFound(entry.spec, entry.kind == "compiled" && entry.versions[v].buildCmd != [], (lang, v), entry.versions[v])
    ensures EntersJails(entry, lang, v, w, timeoutAsked, memoryAsked, Script(ns, w, timeoutAsked, memoryAsked))
  {
    hide ToInt64, CeilSeconds, Quotient, EffectiveTimeout, EffectiveMemory, Ceil;
    var calls := Script(ns, w, timeoutAsked, memoryAsked);
    var build, run := JailFor(ns, Build, timeoutAsked, memoryAsked), JailFor(ns, Stage.Run, timeoutAsked, memoryAsked);
    var first := if w.workspaceOk && ns.builds then 2 else 1;
    if BuildJailed(ns, w) { assert calls[first] == build && IsJail(calls[first], Build); }
    if RunJailed(ns, w) {
      var k := if BuildJailed(ns, w) then first + 1 else first;
      assert calls[k] == run && IsJail(calls[k], Stage.Run);
    }
  }

  /** MAIN RESULT.  What a run reports, in terms of what happened alone. */
  lemma {:induction false} ReportsExactly(ns: NsLookup, w: World, ret: D.Ret)
    requires ns.NsFound? && Reports(ns, w, ret)
    ensures var late := (s: StageWorld) => s.limitLogged || s.deadlinePassed;
            var out := (s: StageWorld) => First(1_048_576, D.Stream(s.output, false));
            var err := (s: StageWorld) => First(1_048_576, D.Stream(s.output, true));
            if !w.workspaceOk || (ns.builds && (!w.buildDirOk || !w.build.configOk || w.build.proc.NotStarted?)) then ret == D.InternalError
            else if ns.builds && late(w.build) then ret == D.Done(D.RunResult(out(w.build), err(w.build), -1, D.Timeout))
            else if ns.builds && w.build.proc.code != 0 then
              ret == D.Done(D.RunResult(out(w.build), err(w.build), w.build.proc.code, D.CompileError))
            else if !w.run.configOk then ret == D.InternalError
            else if late(w.run) then ret == D.Done(D.RunResult(out(w.run), err(w.run), -1, D.Timeout))
            else
              var code := if w.run.proc.Ended? then w.run.proc.code else 0;
              ret == D.Done(D.RunResult(out(w.run), err(w.run), if code == 137 then -1 else code,
                                        if code == 0 then D.OK else if code == 137 then D.OOM else D.RuntimeError))
  {
    hide First, D.Stream;
  }

  /** MAIN RESULT.  In every run of a validated language, every jail is entered with a limit
      that covers its timeout and lies before the deadline around it, and with memory of at
      least one MiB within what the stage may use, unless the timeout is within the grace of
      the largest duration; and no program runs before its build has passed. */
  lemma {:induction false} EveryJailIsLayered(ns: NsLookup, l: Limits, c: CompileLimits, w: World, timeoutAsked: int64, memoryAsked: int64, k: nat)
    requires ns.NsFound? && Validated(ns.spec, l, c) && k < |Script(ns, w, timeoutAsked, memoryAsked)|
    requires Script(ns, w, timeoutAsked, memoryAsked)[k].Jail?
    ensures var jail := Script(ns, w, timeoutAsked, memoryAsked)[k];
            var timeout := StageTimeout(ns.spec, jail.stage, timeoutAsked);
            && timeout <= jail.cfg.timeoutSec * SECOND < timeout + SECOND
            && (jail.cfg.timeoutSec * SECOND < jail.deadline <==> timeout <= MAX_INT64 - KILL_GRACE)
            && jail.cfg.memMB >= 1 && jail.cfg.memMB * MIB <= StageMemory(ns.spec, jail.stage, memoryAsked)
            && (jail.stage == Run && ns.builds ==> w.build.proc == Ended(0) && !TimedOut(w.build))
  {
    hide EffectiveTimeout, StageMemory, CeilSeconds, Quotient, Validated, ToInt64, Ceil;
    var jail := Script(ns, w, timeoutAsked, memoryAsked)[k];
    assert jail == JailFor(ns, jail.stage, timeoutAsked, memoryAsked);
    TimeoutLayering(ns.spec, l, c, jail.stage, timeoutAsked);
    LayeringIn64Bits(ns.spec, l, c, jail.stage, timeoutAsked);
    MemoryLayering(ns.spec, l, c, jail.stage, memoryAsked);
  }

  /** "ok" means that the program ran to exit code 0 exactly when nsjail could be started at
      all: the run stage ignores the error when it could not. */
  lemma {:induction false} OkIsTruthfulExactly(ns: NsLookup, w: World, ret: D.Ret)
    requires Reports(ns, w, ret) && ret.Done? && ret.result.status == D.OK
    ensures w.run.proc == Ended(0) <==> !w.run.proc.NotStarted?
    ensures RunJailed(ns, w) && ret.result.exitCode == 0
  {
  }

  lemma {:induction false} OkWithoutRunning(ns: NsLookup, w: World, ret: D.Ret)
    requires RunJailed(ns, w) && w.run.proc.NotStarted? && !TimedOut(w.run) && Reports(ns, w, ret)
    ensures ret.Done? && ret.result.status == D.OK && ret.result.exitCode == 0
  {
  }
}
