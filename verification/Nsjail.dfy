/** The numbers of an nsjail configuration file and the deadlines around it. */
module Nsjail {
  import opened GoInt
  import opened Option
  import opened ResourceLimits

  const KILL_GRACE: int := 2 * SECOND

  datatype Spec = Spec(limits: LangLimits, compileLimits: LangCompileLimits)

  datatype Stage = Build | Run

  /** The numeric fields of the template data. */
  datatype Config = Config(
    timeoutSec: int, memMB: int, maxPids: int, fsizeMB: int, nofile: int,
    sandboxSize: int, tmpSize: int, cgroupMemMax: int, cgroupPidsMax: int, cgroupCPUMsPerSec: int)

  function Ceil(x: real): int { -((-x).Floor) }

  /** Whole seconds that cover a duration in nanoseconds. */
  function CeilSeconds(ns: int): int { Ceil(ns as real / SECOND as real) }

  /** Fills the data for the run stage and overwrites what differs for the build stage. */
  method WriteConfig(ns: Spec, timeout: int64, memBytes: int64, stage: Stage) returns (cfg: Config)
    ensures cfg.memMB == Quotient(memBytes) && cfg.cgroupMemMax == memBytes
    ensures stage == Run ==>
      && cfg.timeoutSec == CeilSeconds(timeout)
      && cfg.maxPids == cfg.cgroupPidsMax == ns.limits.maxPids
      && cfg.sandboxSize == ns.limits.workspaceSizeBytes && cfg.tmpSize == ns.limits.tmpSizeBytes
      && cfg.cgroupCPUMsPerSec == Ceil(ns.limits.maxCPUs * 1000.0)
      && cfg.fsizeMB == 16 && cfg.nofile == 64
    ensures stage == Build ==>
      && cfg.timeoutSec == CeilSeconds(ns.compileLimits.timeout)
      && cfg.maxPids == cfg.cgroupPidsMax == ns.compileLimits.maxPids
      && cfg.sandboxSize == ns.compileLimits.workspaceSizeBytes && cfg.tmpSize == ns.compileLimits.tmpSizeBytes
      && cfg.cgroupCPUMsPerSec == Ceil(ns.compileLimits.maxCPUs * 1000.0)
      && cfg.fsizeMB == 1024 && cfg.nofile == 512
  {
    cfg := Config(
      CeilSeconds(timeout), Quotient(memBytes), ns.limits.maxPids, 16, 64,
      ns.limits.workspaceSizeBytes, ns.limits.tmpSizeBytes,
      memBytes, ns.limits.maxPids, Ceil(ns.limits.maxCPUs * 1000.0));
    if stage == Build {
      cfg := cfg.(timeoutSec := CeilSeconds(ns.compileLimits.timeout));
      cfg := cfg.(maxPids := ns.compileLimits.maxPids, cgroupPidsMax := ns.compileLimits.maxPids);
      cfg := cfg.(cgroupCPUMsPerSec := Ceil(ns.compileLimits.maxCPUs * 1000.0));
      cfg := cfg.(fsizeMB := 1024, nofile := 512);
      cfg := cfg.(sandboxSize := ns.compileLimits.workspaceSizeBytes, tmpSize := ns.compileLimits.tmpSizeBytes);
    }
  }

  /** Go's division of memory by a MiB truncates toward zero. */
  function Quotient(bytes: int): int { if bytes >= 0 then bytes / MIB else -(-bytes / MIB) }

  lemma {:induction false} CeilBounds(ns: int)
    ensures ns <= CeilSeconds(ns) * SECOND < ns + SECOND
  {
    var x := ns as real / SECOND as real;
    var t := CeilSeconds(ns) as real;
    assert x <= t < x + 1.0;
    assert x * SECOND as real == ns as real;
    assert x * SECOND as real <= t * SECOND as real < (x + 1.0) * SECOND as real;
    assert (CeilSeconds(ns) * SECOND) as real == t * SECOND as real;
  }

  predicate Validated(ns: Spec, l: Limits, c: CompileLimits) {
    && ns.limits == Resolve(l) && Validate(ns.limits) == None
    && ns.compileLimits == ResolveCompile(c) && ValidateCompile(ns.compileLimits) == None
  }

  /** The timeout and memory a stage runs with. */
  function StageTimeout(ns: Spec, stage: Stage, request: int64): int64 {
    if stage == Build then ns.compileLimits.timeout else EffectiveTimeout(request, ns.limits)
  }

  function StageMemory(ns: Spec, stage: Stage, request: int64): int64 {
    if stage == Build then ns.compileLimits.memoryBytes else EffectiveMemory(request, ns.limits)
  }

  /** MAIN RESULT.  For every validated language, stage and request the jail's own limit covers
      the timeout, exceeds it by less than a second and falls before the outer deadline. */
  lemma {:induction false} TimeoutLayering(ns: Spec, l: Limits, c: CompileLimits, stage: Stage, request: int64)
    requires Validated(ns, l, c)
    ensures var timeout := StageTimeout(ns, stage, request); var t := CeilSeconds(timeout);
            && 1 <= t && timeout <= t * SECOND
            && t * SECOND < timeout + SECOND < timeout + KILL_GRACE
  {
    EffectiveWithinLimits(l, request, 0);
    ValidatedLimits(l);
    ValidatedCompileLimits(c);
    CeilBounds(StageTimeout(ns, stage, request));
  }

  /** In 64 bits the outer deadline stays after the jail's limit exactly when adding the grace
      does not overflow. */
  lemma {:induction false} LayeringIn64Bits(ns: Spec, l: Limits, c: CompileLimits, stage: Stage, request: int64)
    requires Validated(ns, l, c)
    ensures var timeout := StageTimeout(ns, stage, request);
            CeilSeconds(timeout) * SECOND < ToInt64(timeout + KILL_GRACE) <==> timeout <= MAX_INT64 - KILL_GRACE
  {
    TimeoutLayering(ns, l, c, stage, request);
  }

  /** Limits that pass validation can overflow it: a configured maximum of 9223372036 seconds. */
  lemma {:induction false} LayeringCanOverflow()
    ensures var l := Resolve(Limits(0, 0, 0, 9223372036, 0, 0.0, 0, 0));
            Validate(l) == None && EffectiveTimeout(0, l) > MAX_INT64 - KILL_GRACE
  {
    assert Mul64(9223372036, SECOND) == 9223372036000000000;
    assert Mul64(0, SECOND) == 0 && Bytes(0) == 0 && Bytes(10) == 10 * MIB && Bytes(5) == 5 * MIB;
  }

  /** MAIN RESULT.  The memory written for the jail is at least one MiB and never more than
      what the stage is allowed, and less than one MiB short of it. */
  lemma {:induction false} MemoryLayering(ns: Spec, l: Limits, c: CompileLimits, stage: Stage, request: int64)
    requires Validated(ns, l, c)
    ensures var mem := StageMemory(ns, stage, request);
            Quotient(mem) >= 1 && Quotient(mem) * MIB <= mem < (Quotient(mem) + 1) * MIB
  {
    hide Resolve, ResolveCompile, Validate, ValidateCompile;
    EffectiveWithinLimits(l, 0, request);
    ValidatedLimits(l);
    ValidatedCompileLimits(c);
  }
}
