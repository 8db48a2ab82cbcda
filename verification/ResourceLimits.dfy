/** Resource limits: from the registry's MiB and seconds to bytes and nanoseconds, in Go's
    wrapping 64-bit arithmetic.  CPU shares are positive finite reals. */
module ResourceLimits {
  import opened GoInt
  import opened Option

  const SECOND: int := 1_000_000_000
  const MIB: int := 1_048_576

  /** As written in the registry; 0 means unset. */
  datatype Limits = Limits(
    minMemoryMiB: int64, maxMemoryMiB: int64,
    minTimeoutSeconds: int64, maxTimeoutSeconds: int64,
    maxPids: int64, maxCPUs: real,
    workspaceSizeMiB: int64, tmpSizeMiB: int64)

  datatype CompileLimits = CompileLimits(
    memoryMiB: int64, timeoutSeconds: int64, maxPids: int64, maxCPUs: real,
    workspaceSizeMiB: int64, tmpSizeMiB: int64)

  datatype LangLimits = LangLimits(
    minTimeout: int64, maxTimeout: int64,
    minMemoryBytes: int64, maxMemoryBytes: int64,
    maxPids: int64, maxCPUs: real,
    workspaceSizeBytes: int64, tmpSizeBytes: int64)

  datatype LangCompileLimits = LangCompileLimits(
    memoryBytes: int64, timeout: int64, maxPids: int64, maxCPUs: real,
    workspaceSizeBytes: int64, tmpSizeBytes: int64)

  const MAX_PIDS: int64 := 100
  const MIN_TIMEOUT: int64 := 1 * SECOND
  const MAX_TIMEOUT: int64 := 10 * SECOND
  const MIN_MEMORY_BYTES: int64 := 64 * MIB
  const MAX_MEMORY_BYTES: int64 := 256 * MIB
  const DEFAULT_MAX_CPUS := 0.5
  const DEFAULT_WORKSPACE_SIZE_MIB: int64 := 10
  const DEFAULT_TMP_SIZE_MIB: int64 := 5

  function Mul64(x: int64, y: int): int64 { ToInt64(x * y) }

  function MinOf(a: int64, b: int64): int64 { if a < b then a else b }

  function MaxOf(a: int64, b: int64): int64 { if a < b then b else a }

  function ValueWithDefault<T(==)>(value: T, zero: T, default: T): T {
    if value == zero then default else value
  }

  function Bytes(mib: int64): int64 { Mul64(Mul64(mib, 1024), 1024) }

  function Resolve(l: Limits): LangLimits {
    var maxTimeout := ValueWithDefault(Mul64(l.maxTimeoutSeconds, SECOND), 0, MAX_TIMEOUT);
    var maxMemory := ValueWithDefault(Bytes(l.maxMemoryMiB), 0, MAX_MEMORY_BYTES);
    var minTimeout := Mul64(l.minTimeoutSeconds, SECOND);
    var minMemory := Bytes(l.minMemoryMiB);
    LangLimits(
      if minTimeout == 0 then MinOf(MIN_TIMEOUT, maxTimeout) else minTimeout,
      maxTimeout,
      if minMemory == 0 then MinOf(MIN_MEMORY_BYTES, maxMemory) else minMemory,
      maxMemory,
      ValueWithDefault(l.maxPids, 0, MAX_PIDS),
      ValueWithDefault(l.maxCPUs, 0.0, DEFAULT_MAX_CPUS),
      Bytes(ValueWithDefault(l.workspaceSizeMiB, 0, DEFAULT_WORKSPACE_SIZE_MIB)),
      Bytes(ValueWithDefault(l.tmpSizeMiB, 0, DEFAULT_TMP_SIZE_MIB)))
  }

  datatype Invalid =
    | NegativeTimeout | NegativeMemory | TooFewPids | BadCPUs | NoWorkspace | NoTmp
    | TimeoutsSwapped | MemoriesSwapped

  function Validate(l: LangLimits): Option<Invalid> {
    if l.minTimeout < 0 || l.maxTimeout < 0 then Some(NegativeTimeout)
    else if l.minMemoryBytes < 0 || l.maxMemoryBytes < 0 then Some(NegativeMemory)
    else if l.maxPids < 1 then Some(TooFewPids)
    else if !(l.maxCPUs > 0.0) then Some(BadCPUs)
    else if l.workspaceSizeBytes <= 0 then Some(NoWorkspace)
    else if l.tmpSizeBytes <= 0 then Some(NoTmp)
    else if l.minTimeout > l.maxTimeout then Some(TimeoutsSwapped)
    else if l.minMemoryBytes > l.maxMemoryBytes then Some(MemoriesSwapped)
    else None
  }

  function ResolveCompile(l: CompileLimits): LangCompileLimits {
    LangCompileLimits(
      ValueWithDefault(Bytes(l.memoryMiB), 0, MAX_MEMORY_BYTES),
      ValueWithDefault(Mul64(l.timeoutSeconds, SECOND), 0, MAX_TIMEOUT),
      ValueWithDefault(l.maxPids, 0, MAX_PIDS),
      ValueWithDefault(l.maxCPUs, 0.0, DEFAULT_MAX_CPUS),
      Bytes(ValueWithDefault(l.workspaceSizeMiB, 0, DEFAULT_WORKSPACE_SIZE_MIB)),
      Bytes(ValueWithDefault(l.tmpSizeMiB, 0, DEFAULT_TMP_SIZE_MIB)))
  }

  function ValidateCompile(l: LangCompileLimits): Option<Invalid> {
    if l.timeout < 0 then Some(NegativeTimeout)
    else if l.memoryBytes < 0 then Some(NegativeMemory)
    else if l.maxPids < 1 then Some(TooFewPids)
    else if !(l.maxCPUs > 0.0) then Some(BadCPUs)
    else if l.workspaceSizeBytes <= 0 then Some(NoWorkspace)
    else if l.tmpSizeBytes <= 0 then Some(NoTmp)
    else None
  }

  function EffectiveTimeout(request: int64, l: LangLimits): int64 {
    if request <= 0 then l.maxTimeout else MaxOf(l.minTimeout, MinOf(request, l.maxTimeout))
  }

  function EffectiveMemory(request: int64, l: LangLimits): int64 {
    if request <= 0 then l.maxMemoryBytes else MaxOf(l.minMemoryBytes, MinOf(request, l.maxMemoryBytes))
  }

  // -------------------------------------------------------------- properties

  /** What wraps differs by a multiple of 2^64. */
  lemma {:induction false} Wrapped(x: int) returns (k: int)
    ensures x == ToInt64(x) + k * TWO_64
  {
    k := (x - ToInt64(x)) / TWO_64;
  }

  lemma {:induction false} SameRemainder(y: int, k: int)
    ensures ToInt64(y + k * TWO_64) == ToInt64(y)
  {
    assert y + k * TWO_64 == (y / TWO_64 + k) * TWO_64 + y % TWO_64;
  }

  /** Wrapping in between makes no difference. */
  lemma {:induction false} BytesIsProduct(mib: int64)
    ensures Bytes(mib) == ToInt64(mib * MIB)
  {
    var once := Mul64(mib, 1024);
    var k := Wrapped(mib * 1024);
    assert mib * MIB == once * 1024 + (k * 1024) * TWO_64;
    SameRemainder(once * 1024, k * 1024);
  }

  /** Wrapping around does not lose low zero bits: a size in bytes stays a whole number of
      MiB. */
  lemma {:induction false} BytesWholeMiB(mib: int64)
    ensures Bytes(mib) % MIB == 0
  {
    BytesIsProduct(mib);
    var k := Wrapped(mib * MIB);
    hide Bytes, ToInt64;
    assert Bytes(mib) == (mib - k * 0x1000_0000_0000) * MIB;
  }

  predicate Fits64(x: int) { -TWO_63 <= x < TWO_63 }

  /** A conversion keeps its value exactly when the value fits. */
  lemma {:induction false} ConversionsExactly(mib: int64, seconds: int64)
    ensures Bytes(mib) == mib * MIB <==> Fits64(mib * MIB)
    ensures Mul64(seconds, SECOND) == seconds * SECOND <==> Fits64(seconds * SECOND)
  {
    BytesIsProduct(mib);
  }

  /** What validation asks for, whatever the limits. */
  lemma {:induction false} ValidExactly(r: LangLimits, c: LangCompileLimits)
    ensures Validate(r) == None <==>
      && 0 <= r.minTimeout <= r.maxTimeout && 0 <= r.minMemoryBytes <= r.maxMemoryBytes
      && r.maxPids >= 1 && r.maxCPUs > 0.0 && r.workspaceSizeBytes > 0 && r.tmpSizeBytes > 0
    ensures ValidateCompile(c) == None <==>
      && 0 <= c.timeout && 0 <= c.memoryBytes
      && c.maxPids >= 1 && c.maxCPUs > 0.0 && c.workspaceSizeBytes > 0 && c.tmpSizeBytes > 0
  {
  }

  /** The settings that are not converted, and the defaults of the compile stage. */
  lemma {:induction false} ResolvedRest(l: Limits, c: CompileLimits)
    ensures Resolve(l).maxPids == (if l.maxPids == 0 then 100 else l.maxPids)
    ensures Resolve(l).maxCPUs == (if l.maxCPUs == 0.0 then 0.5 else l.maxCPUs)
    ensures var r := ResolveCompile(c); var timeout, memory := Mul64(c.timeoutSeconds, SECOND), Bytes(c.memoryMiB);
            && r.maxPids == (if c.maxPids == 0 then 100 else c.maxPids)
            && r.maxCPUs == (if c.maxCPUs == 0.0 then 0.5 else c.maxCPUs)
            && r.timeout == (if timeout == 0 then 10 * SECOND else timeout)
            && r.memoryBytes == (if memory == 0 then 256 * MIB else memory)
  {
    hide Mul64, Bytes;
  }

  /** MAIN RESULT.  For all 64-bit registry values: limits that pass validation are positive
      and ordered, and memory is counted in whole MiB, however the conversions wrapped. */
  lemma {:induction false} ValidatedLimits(l: Limits)
    requires Validate(Resolve(l)) == None
    ensures var r := Resolve(l);
            && 0 < r.minTimeout <= r.maxTimeout
            && 0 < r.minMemoryBytes <= r.maxMemoryBytes
            && r.minMemoryBytes % MIB == 0 && r.maxMemoryBytes % MIB == 0
            && r.minMemoryBytes >= MIB
  {
    BytesWholeMiB(l.minMemoryMiB);
    BytesWholeMiB(l.maxMemoryMiB);
    assert MAX_MEMORY_BYTES % MIB == 0 && MIN_MEMORY_BYTES % MIB == 0;
  }

  /** The same for the compile stage. */
  lemma {:induction false} ValidatedCompileLimits(l: CompileLimits)
    requires ValidateCompile(ResolveCompile(l)) == None
    ensures var r := ResolveCompile(l);
            0 < r.timeout && MIB <= r.memoryBytes && r.memoryBytes % MIB == 0
  {
    BytesWholeMiB(l.memoryMiB);
    assert MAX_MEMORY_BYTES % MIB == 0;
  }

  /** MAIN RESULT.  Whatever a request asks for, what it gets lies within the validated
      limits; a request within them is left alone, one above or below is moved to the nearest
      limit, and an unset one gets the maximum. */
  lemma {:induction false} EffectiveWithinLimits(l: Limits, timeout: int64, memory: int64)
    requires Validate(Resolve(l)) == None
    ensures var r := Resolve(l); var t := EffectiveTimeout(timeout, r); var m := EffectiveMemory(memory, r);
            && r.minTimeout <= t <= r.maxTimeout
            && r.minMemoryBytes <= m <= r.maxMemoryBytes && m >= MIB
            && (r.minTimeout <= timeout <= r.maxTimeout ==> t == timeout)
            && (timeout > r.maxTimeout || timeout <= 0 ==> t == r.maxTimeout)
            && (0 < timeout < r.minTimeout ==> t == r.minTimeout)
            && (r.minMemoryBytes <= memory <= r.maxMemoryBytes ==> m == memory)
            && (memory > r.maxMemoryBytes || memory <= 0 ==> m == r.maxMemoryBytes)
            && (0 < memory < r.minMemoryBytes ==> m == r.minMemoryBytes)
  {
    ValidatedLimits(l);
  }

  /** What becomes of the four settings that are converted, seen apart from the conversion. */
  lemma {:induction false} ResolvedTimeouts(l: Limits)
    ensures var r := Resolve(l); var least, most := Mul64(l.minTimeoutSeconds, SECOND), Mul64(l.maxTimeoutSeconds, SECOND);
            && r.maxTimeout == (if most == 0 then 10 * SECOND else most)
            && r.minTimeout == (if least != 0 then least else if r.maxTimeout < SECOND then r.maxTimeout else SECOND)
  {
    hide Mul64, Bytes;
  }

  lemma {:induction false} ResolvedMemories(l: Limits)
    ensures var r := Resolve(l); var least, most := Bytes(l.minMemoryMiB), Bytes(l.maxMemoryMiB);
            && r.maxMemoryBytes == (if most == 0 then 256 * MIB else most)
            && r.minMemoryBytes == (if least != 0 then least else if r.maxMemoryBytes < 64 * MIB then r.maxMemoryBytes else 64 * MIB)
  {
    hide Mul64, Bytes;
  }

  /** The sizes of the two file systems are the converted settings or the converted defaults. */
  lemma {:induction false} ResolvedSizes(l: Limits, c: CompileLimits)
    ensures Resolve(l).workspaceSizeBytes == Bytes(if l.workspaceSizeMiB == 0 then 10 else l.workspaceSizeMiB)
    ensures Resolve(l).tmpSizeBytes == Bytes(if l.tmpSizeMiB == 0 then 5 else l.tmpSizeMiB)
    ensures ResolveCompile(c).workspaceSizeBytes == Bytes(if c.workspaceSizeMiB == 0 then 10 else c.workspaceSizeMiB)
    ensures ResolveCompile(c).tmpSizeBytes == Bytes(if c.tmpSizeMiB == 0 then 5 else c.tmpSizeMiB)
  {
    hide Mul64, Bytes;
  }

  /** The sizes, too, are kept exactly when they fit, in both stages. */
  lemma {:induction false} SizesKeptExactly(l: Limits, c: CompileLimits)
    ensures var r := Resolve(l);
            && (l.workspaceSizeMiB != 0 ==> (r.workspaceSizeBytes == l.workspaceSizeMiB * MIB <==> Fits64(l.workspaceSizeMiB * MIB)))
            && (l.tmpSizeMiB != 0 ==> (r.tmpSizeBytes == l.tmpSizeMiB * MIB <==> Fits64(l.tmpSizeMiB * MIB)))
    ensures var r := ResolveCompile(c);
            && (c.workspaceSizeMiB != 0 ==> (r.workspaceSizeBytes == c.workspaceSizeMiB * MIB <==> Fits64(c.workspaceSizeMiB * MIB)))
            && (c.tmpSizeMiB != 0 ==> (r.tmpSizeBytes == c.tmpSizeMiB * MIB <==> Fits64(c.tmpSizeMiB * MIB)))
  {
    ResolvedSizes(l, c);
    ConversionsExactly(l.workspaceSizeMiB, 0);
    ConversionsExactly(l.tmpSizeMiB, 0);
    ConversionsExactly(c.workspaceSizeMiB, 0);
    ConversionsExactly(c.tmpSizeMiB, 0);
    hide Resolve, ResolveCompile, Bytes, Mul64;
  }

  /** MAIN RESULT.  A setting is enforced as written exactly when its conversion fits 64 bits.
      The others wrap, to another value or to the default. */
  lemma {:induction false} SettingsKeptExactly(l: Limits)
    ensures var r := Resolve(l);
            && (l.maxMemoryMiB != 0 ==> (r.maxMemoryBytes == l.maxMemoryMiB * MIB <==> Fits64(l.maxMemoryMiB * MIB)))
            && (l.minMemoryMiB != 0 ==> (r.minMemoryBytes == l.minMemoryMiB * MIB <==> Fits64(l.minMemoryMiB * MIB)))
            && (l.maxTimeoutSeconds != 0 ==> (r.maxTimeout == l.maxTimeoutSeconds * SECOND <==> Fits64(l.maxTimeoutSeconds * SECOND)))
            && (l.minTimeoutSeconds != 0 ==> (r.minTimeout == l.minTimeoutSeconds * SECOND <==> Fits64(l.minTimeoutSeconds * SECOND)))
  {
    ResolvedTimeouts(l);
    ResolvedMemories(l);
    ConversionsExactly(l.minMemoryMiB, l.minTimeoutSeconds);
    ConversionsExactly(l.maxMemoryMiB, l.maxTimeoutSeconds);
    hide Resolve, Bytes, Mul64;
  }

  /** The same for the compile stage. */
  lemma {:induction false} CompileSettingsKeptExactly(l: CompileLimits)
    ensures var r := ResolveCompile(l);
            && (l.memoryMiB != 0 ==> (r.memoryBytes == l.memoryMiB * MIB <==> Fits64(l.memoryMiB * MIB)))
            && (l.timeoutSeconds != 0 ==> (r.timeout == l.timeoutSeconds * SECOND <==> Fits64(l.timeoutSeconds * SECOND)))
  {
    ConversionsExactly(l.memoryMiB, l.timeoutSeconds);
    hide Bytes, Mul64;
  }

  /** Limits that wrap can pass validation: a maximum of 2^44 + 64 MiB is enforced as 64 MiB. */
  lemma {:induction false} HugeMemoryWraps()
    ensures var l := Limits(0, 0x1000_0000_0000 + 64, 0, 0, 0, 0.0, 0, 0);
            Validate(Resolve(l)) == None && Resolve(l).maxMemoryBytes == 64 * MIB
  {
    var huge := 0x1000_0000_0000 + 64;
    BytesIsProduct(huge);
    SameRemainder(64 * MIB, 1);
    assert huge * MIB == 64 * MIB + 1 * TWO_64;
    assert Bytes(huge) == 64 * MIB;
    ConversionsExactly(0, 0);
    ConversionsExactly(10, 0);
    ConversionsExactly(5, 0);
    hide Bytes, Mul64;
  }

  /** Settings that are not negative and whose conversion does not wrap. */
  predicate Plain(l: Limits) {
    && 0 <= l.minTimeoutSeconds <= MAX_INT64 / SECOND && 0 <= l.maxTimeoutSeconds <= MAX_INT64 / SECOND
    && 0 <= l.minMemoryMiB <= MAX_INT64 / MIB && 0 <= l.maxMemoryMiB <= MAX_INT64 / MIB
    && 0 <= l.maxPids && 0.0 <= l.maxCPUs
    && 0 <= l.workspaceSizeMiB <= MAX_INT64 / MIB && 0 <= l.tmpSizeMiB <= MAX_INT64 / MIB
  }

  /** Plain settings are refused exactly when an explicit minimum exceeds the maximum in force;
      setting a low maximum alone, or nothing at all, is fine. */
  lemma {:induction false} PlainAcceptedExactly(l: Limits)
    requires Plain(l)
    ensures Validate(Resolve(l)) == None <==>
      && l.minTimeoutSeconds <= (if l.maxTimeoutSeconds == 0 then 10 else l.maxTimeoutSeconds)
      && l.minMemoryMiB <= (if l.maxMemoryMiB == 0 then 256 else l.maxMemoryMiB)
    ensures Resolve(l).maxTimeout == (if l.maxTimeoutSeconds == 0 then 10 else l.maxTimeoutSeconds) * SECOND
    ensures Resolve(l).maxMemoryBytes == (if l.maxMemoryMiB == 0 then 256 else l.maxMemoryMiB) * MIB
  {
    TimeoutsPlain(l);
    MemoriesPlain(l);
    RestPlain(l);
    hide Resolve, Plain;
  }

  lemma {:induction false} TimeoutsPlain(l: Limits)
    requires Plain(l)
    ensures var r := Resolve(l); var most := if l.maxTimeoutSeconds == 0 then 10 else l.maxTimeoutSeconds;
            r.maxTimeout == most * SECOND && 0 <= r.minTimeout && (r.minTimeout <= r.maxTimeout <==> l.minTimeoutSeconds <= most)
  {
    ResolvedTimeouts(l);
    ConversionsExactly(0, l.minTimeoutSeconds);
    ConversionsExactly(0, l.maxTimeoutSeconds);
    hide Resolve, Bytes, Mul64;
  }

  lemma {:induction false} BytesPlain(mib: int64)
    requires 0 <= mib <= MAX_INT64 / MIB
    ensures Bytes(mib) == mib * MIB
  {
    ConversionsExactly(mib, 0);
    hide Bytes, Mul64;
  }

  lemma {:induction false} MemoriesPlain(l: Limits)
    requires Plain(l)
    ensures var r := Resolve(l); var most := if l.maxMemoryMiB == 0 then 256 else l.maxMemoryMiB;
            r.maxMemoryBytes == most * MIB && 0 <= r.minMemoryBytes && (r.minMemoryBytes <= r.maxMemoryBytes <==> l.minMemoryMiB <= most)
  {
    BytesPlain(l.minMemoryMiB);
    BytesPlain(l.maxMemoryMiB);
    hide Resolve, Bytes, Mul64, Plain;
    ResolvedMemories(l);
  }

  lemma {:induction false} RestPlain(l: Limits)
    requires Plain(l)
    ensures var r := Resolve(l);
            r.maxPids >= 1 && r.maxCPUs > 0.0 && r.workspaceSizeBytes > 0 && r.tmpSizeBytes > 0
  {
    BytesPlain(ValueWithDefault(l.workspaceSizeMiB, 0, DEFAULT_WORKSPACE_SIZE_MIB));
    BytesPlain(ValueWithDefault(l.tmpSizeMiB, 0, DEFAULT_TMP_SIZE_MIB));
    hide Bytes, Mul64;
  }
}
