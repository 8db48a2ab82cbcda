/** From an accepted HTTP request to what the sandbox enforces. */
module Api {
  import opened GoInt
  import opened Option
  import opened ResourceLimits
  import Paths
  import Workspaces

  datatype Request = Request(timeoutSeconds: int64, memoryBytes: int64)

  datatype Rejection = NegativeSeconds | NegativeBytes | TimeoutOutOfRange | MemoryOutOfRange

  /** The numeric part of validateExecuteRequestBasic. */
  function ValidateBasic(req: Request): Option<Rejection> {
    if req.timeoutSeconds < 0 then Some(NegativeSeconds)
    else if req.memoryBytes < 0 then Some(NegativeBytes)
    else None
  }

  function ValidateLimits(req: Request, l: LangLimits): Option<Rejection> {
    var timeout := Mul64(req.timeoutSeconds, SECOND);
    if req.timeoutSeconds != 0 && (timeout < l.minTimeout || timeout > l.maxTimeout) then Some(TimeoutOutOfRange)
    else if req.memoryBytes != 0 && (req.memoryBytes < l.minMemoryBytes || req.memoryBytes > l.maxMemoryBytes)
    then Some(MemoryOutOfRange)
    else None
  }

  /** What handleExecute hands to the sandbox. */
  datatype RunSpec = RunSpec(timeout: int64, memoryBytes: int64)

  function ToRunSpec(req: Request): RunSpec { RunSpec(Mul64(req.timeoutSeconds, SECOND), req.memoryBytes) }

  predicate Accepted(req: Request, l: LangLimits) {
    ValidateBasic(req) == None && ValidateLimits(req, l) == None
  }

  /** MAIN RESULT.  Which requests are accepted, for any limits: those with no negative field whose
      fields are unset or, converted, within the limits. */
  lemma {:induction false} AcceptedExactly(req: Request, l: LangLimits)
    ensures Accepted(req, l) <==>
      && req.timeoutSeconds >= 0 && req.memoryBytes >= 0
      && (req.timeoutSeconds == 0 || l.minTimeout <= ToInt64(req.timeoutSeconds * 1_000_000_000) <= l.maxTimeout)
      && (req.memoryBytes == 0 || l.minMemoryBytes <= req.memoryBytes <= l.maxMemoryBytes)
    ensures ToRunSpec(req) == RunSpec(ToInt64(req.timeoutSeconds * 1_000_000_000), req.memoryBytes)
  {
    hide ToInt64;
  }

  /** MAIN RESULT.  For limits the sandbox accepted, the API check and the sandbox clamp agree:
      a field that is set goes through unchanged, an unset one becomes the maximum. */
  lemma {:induction false} CheckAgreesWithClamp(limits: Limits, req: Request)
    requires Validate(Resolve(limits)) == None
    requires Accepted(req, Resolve(limits))
    ensures var l := Resolve(limits); var spec := ToRunSpec(req);
            && EffectiveTimeout(spec.timeout, l) == (if req.timeoutSeconds == 0 then l.maxTimeout else spec.timeout)
            && EffectiveMemory(spec.memoryBytes, l) == (if req.memoryBytes == 0 then l.maxMemoryBytes else spec.memoryBytes)
  {
    ValidatedLimits(limits);
  }

  /** An accepted request runs with the very seconds it named exactly when they fit in 64
      bits of nanoseconds. */
  lemma {:induction false} SecondsAsAsked(limits: Limits, req: Request)
    requires Validate(Resolve(limits)) == None
    requires Accepted(req, Resolve(limits)) && req.timeoutSeconds != 0
    ensures EffectiveTimeout(ToRunSpec(req).timeout, Resolve(limits)) == req.timeoutSeconds * SECOND
            <==> req.timeoutSeconds <= MAX_INT64 / SECOND
  {
    CheckAgreesWithClamp(limits, req);
  }

  /** Otherwise the request is accepted and runs for something else: 2^55 + 1 seconds become
      one second under the default limits. */
  lemma {:induction false} HugeTimeoutAccepted()
    ensures var req := Request(0x80_0000_0000_0001, 0);
            var l := Resolve(Limits(0, 0, 0, 0, 0, 0.0, 0, 0));
            Validate(l) == None && Accepted(req, l) && EffectiveTimeout(ToRunSpec(req).timeout, l) == SECOND
  {
    assert 0x80_0000_0000_0001 * SECOND == 1953125 * TWO_64 + SECOND;
    assert Mul64(0x80_0000_0000_0001, SECOND) == SECOND;
    assert Mul64(0, SECOND) == 0 && Bytes(0) == 0 && Bytes(10) == 10 * MIB && Bytes(5) == 5 * MIB;
  }

  const MAX_WORKSPACE_FILES := 12
  const MAX_WORKSPACE_FILE_SIZE := 100 * 1024

  datatype FileRejection = TooMany | InvalidPath(path: string) | TooLarge(path: string)

  predicate FileFits(f: Workspaces.WorkspaceFile) { Paths.IsLocal(f.path) && |f.content| <= MAX_WORKSPACE_FILE_SIZE }

  /** The first file that does not fit is the one reported; accepted files all pass the test
      that staging repeats. */
  method ValidateWorkspaceFiles(files: seq<Workspaces.WorkspaceFile>) returns (rejection: Option<FileRejection>)
    ensures rejection.None? <==> |files| <= 12 && forall k :: 0 <= k < |files| ==>
      Paths.IsLocal(files[k].path) && |files[k].content| <= 102_400
    ensures rejection.None? <==> |files| <= MAX_WORKSPACE_FILES && forall k :: 0 <= k < |files| ==> FileFits(files[k])
    ensures rejection == Some(TooMany) <==> |files| > MAX_WORKSPACE_FILES
    ensures rejection.Some? && !rejection.value.TooMany? ==>
      exists k :: 0 <= k < |files| && !FileFits(files[k]) && (forall j :: 0 <= j < k ==> FileFits(files[j]))
        && rejection.value == (if Paths.IsLocal(files[k].path) then TooLarge(files[k].path) else InvalidPath(files[k].path))
    ensures rejection.None? ==> Workspaces.AllLocal(files)
  {
    hide Paths.IsLocal;
    if |files| > MAX_WORKSPACE_FILES { return Some(TooMany); }
    for k := 0 to |files|
      invariant forall j :: 0 <= j < k ==> FileFits(files[j])
    {
      var f := files[k];
      if !Paths.IsLocal(f.path) { return Some(InvalidPath(f.path)); }
      if |f.content| > MAX_WORKSPACE_FILE_SIZE { return Some(TooLarge(f.path)); }
      assert FileFits(f);
    }
    return None;
  }
}
