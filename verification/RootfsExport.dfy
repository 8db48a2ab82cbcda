/** The skip / remove / export / remember protocol of export-rootfs for one image, run after
    run, each stopped anywhere while the context moves on. */
module RootfsExports {
  import opened Option
  import opened ContextHashes

  /** The directory of the image: missing, unfinished, or a finished export made by a run that
      had seen the given hash. */
  datatype Rootfs = Missing | Unfinished(empty: bool) | Complete(under: string)

  datatype ExportState = ExportState(digestFile: Option<string>, dir: Rootfs)

  /** Where a run ends: before it has touched anything, with the directory left in some
      unfinished state, just before the digest file, having written only so much of it, or at
      its end. */
  datatype Fate = FailsEarly | StopsMidway(left: Rootfs) | StopsBeforeDigest | StopsWriting(written: nat) | Finishes

  datatype ExportRun = ExportRun(force: bool, at: nat, fate: Fate)

  datatype Outcome = Skipped | Exported | Failed

  predicate HasEntries(dir: Rootfs) { dir.Complete? || (dir.Unfinished? && !dir.empty) }

  predicate Possible(r: ExportRun) { r.fate.StopsMidway? ==> !r.fate.left.Complete? }

  predicate UpToDate(s: ExportState, r: ExportRun, hash: string) {
    !r.force && s.digestFile == Some(hash) && HasEntries(s.dir)
  }

  function After(s: ExportState, r: ExportRun, hash: string): (ExportState, Outcome) {
    if r.fate.FailsEarly? then (s, Failed)
    else if UpToDate(s, r, hash) then (s, Skipped)
    else match r.fate
      case StopsMidway(left) => (s.(dir := left), Failed)
      case StopsBeforeDigest => (s.(dir := Complete(hash)), Failed)
      case StopsWriting(n) => (ExportState(Some(Written(hash, n)), Complete(hash)), Failed)
      case _ => (ExportState(Some(hash), Complete(hash)), Exported)
  }

  class RootfsExport {
    var digestFile: Option<string>
    var dir: Rootfs

    constructor ()
      ensures State() == ExportState(None, Missing)
    {
      digestFile, dir := None, Missing;
    }

    function State(): ExportState
      reads this
    {
      ExportState(digestFile, dir)
    }

    /** One goroutine of export-rootfs.  The old digest file stays until the new one is
        written. */
    method Export(r: ExportRun, hash: string) returns (outcome: Outcome)
      requires Possible(r)
      modifies this
      ensures (State(), outcome) == After(old(State()), r, hash)
      ensures outcome == Skipped <==>
        && !r.fate.FailsEarly? && !r.force && old(digestFile) == Some(hash)
        && (old(dir).Complete? || old(dir) == Unfinished(false))
      ensures outcome == Skipped || r.fate.FailsEarly? ==> digestFile == old(digestFile) && dir == old(dir)
      ensures outcome != Skipped && !r.fate.FailsEarly? ==>
        match r.fate
        case StopsMidway(left) => dir == left && digestFile == old(digestFile)
        case StopsBeforeDigest => dir == Complete(hash) && digestFile == old(digestFile)
        case StopsWriting(n) => dir == Complete(hash) && digestFile == Some(if n < |hash| then hash[..n] else hash)
        case _ => dir == Complete(hash) && digestFile == Some(hash)
      ensures outcome == Exported <==> outcome != Skipped && r.fate.Finishes?
    {
      if r.fate.FailsEarly? { return Failed; }
      if !r.force {
        if digestFile.Some? && digestFile.value == hash && HasEntries(dir) { return Skipped; }
      }
      dir := Missing;
      if r.fate.StopsMidway? {
        dir := r.fate.left;
        return Failed;
      }
      dir := Unfinished(true);
      dir := Complete(hash);
      if r.fate.StopsBeforeDigest? { return Failed; }
      if r.fate.StopsWriting? {
        digestFile := Some(Written(hash, r.fate.written));
        return Failed;
      }
      digestFile := Some(hash);
      return Exported;
    }
  }

  // ---------------------------------------------------------------- runs in sequence

  predicate InTime(r: ExportRun, history: seq<Context>) { r.at < |history| && Possible(r) }

  function Next(s: ExportState, r: ExportRun, history: seq<Context>, digest: string -> string): ExportState
    requires InTime(r, history)
  {
    After(s, r, Hash(digest, history, r.at)).0
  }

  predicate Timely(runs: seq<ExportRun>, now: nat, history: seq<Context>) {
    runs != [] ==> InTime(runs[0], history) && now <= runs[0].at && Timely(runs[1..], runs[0].at, history)
  }

  /** A forced run over a directory whose digest is current is not stopped midway. */
  predicate Careful(s: ExportState, r: ExportRun, hash: string) {
    r.force && r.fate.StopsMidway? ==> s.digestFile != Some(hash)
  }

  predicate AllCareful(s: ExportState, runs: seq<ExportRun>, now: nat, history: seq<Context>, digest: string -> string)
    requires Timely(runs, now, history)
    decreases |runs|
  {
    runs != [] ==>
      && Careful(s, runs[0], Hash(digest, history, runs[0].at))
      && AllCareful(Next(s, runs[0], history, digest), runs[1..], runs[0].at, history, digest)
  }

  /** A skipped export means the directory is a finished export made under the current hash. */
  predicate SkipSound(s: ExportState, r: ExportRun, hash: string) {
    After(s, r, hash).1 == Skipped ==> s.dir == Complete(hash)
  }

  predicate AllSkipsSound(s: ExportState, runs: seq<ExportRun>, now: nat, history: seq<Context>, digest: string -> string)
    requires Timely(runs, now, history)
    decreases |runs|
  {
    runs != [] ==>
      && SkipSound(s, runs[0], Hash(digest, history, runs[0].at))
      && AllSkipsSound(Next(s, runs[0], history, digest), runs[1..], runs[0].at, history, digest)
  }

  /** A hash that has been left never returns. */
  ghost predicate NeverReturns(history: seq<Context>, digest: string -> string) {
    forall i, j, k :: 0 <= i <= j <= k < |history| && Hash(digest, history, i) == Hash(digest, history, k)
      ==> Hash(digest, history, j) == Hash(digest, history, i)
  }

  /** The hash h was seen at some moment, and another one later. */
  ghost predicate Left(h: string, now: nat, history: seq<Context>, digest: string -> string) {
    exists i, j :: 0 <= i <= j <= now && j < |history| && Hash(digest, history, i) == h && Hash(digest, history, j) != h
  }

  ghost predicate Seen(h: string, now: nat, history: seq<Context>, digest: string -> string) {
    exists i :: 0 <= i <= now && i < |history| && Hash(digest, history, i) == h
  }

  /** A whole digest belongs to the directory or to a hash that has been left. */
  ghost predicate Inv(s: ExportState, now: nat, history: seq<Context>, digest: string -> string) {
    s.digestFile.Some? && |s.digestFile.value| == HEX_LENGTH ==>
      && Seen(s.digestFile.value, now, history, digest)
      && (s.dir == Complete(s.digestFile.value) || Left(s.digestFile.value, now, history, digest))
  }

  lemma {:induction false} NextKeepsInv(s: ExportState, r: ExportRun, now: nat, history: seq<Context>, digest: string -> string)
    requires IsDigest(digest) && NeverReturns(history, digest) && InTime(r, history) && now <= r.at
    requires Inv(s, now, history, digest) && Careful(s, r, Hash(digest, history, r.at))
    ensures Inv(Next(s, r, history, digest), r.at, history, digest)
    ensures SkipSound(s, r, Hash(digest, history, r.at))
  {
  }

  lemma {:induction false} CarefulSkipsSound(s: ExportState, runs: seq<ExportRun>, now: nat, history: seq<Context>, digest: string -> string)
    requires IsDigest(digest) && NeverReturns(history, digest) && Inv(s, now, history, digest)
    requires Timely(runs, now, history) && AllCareful(s, runs, now, history, digest)
    ensures AllSkipsSound(s, runs, now, history, digest)
    decreases |runs|
  {
    hide Inv, SkipSound, Careful, After, NeverReturns, IsDigest;
    if runs != [] {
      NextKeepsInv(s, runs[0], now, history, digest);
      CarefulSkipsSound(Next(s, runs[0], history, digest), runs[1..], runs[0].at, history, digest);
    }
  }

  const CLEAN := ExportState(None, Missing)

  /** MAIN RESULT.  Over every sequence of runs, each stopped anywhere, but no forced one stopped
      midway over its own digest, a skipped export means a finished directory of the current
      hash, if and only if no hash returns once it has been left. */
  lemma {:induction false} SkipsSoundExactly(history: seq<Context>, digest: string -> string)
    requires IsDigest(digest)
    ensures NeverReturns(history, digest) <==>
      forall runs :: Timely(runs, 0, history) && AllCareful(CLEAN, runs, 0, history, digest)
        ==> AllSkipsSound(CLEAN, runs, 0, history, digest)
  {
    hide AllCareful, AllSkipsSound, Timely;
    if NeverReturns(history, digest) {
      forall runs | Timely(runs, 0, history) && AllCareful(CLEAN, runs, 0, history, digest)
        ensures AllSkipsSound(CLEAN, runs, 0, history, digest)
      {
        CarefulSkipsSound(CLEAN, runs, 0, history, digest);
      }
    } else {
      var i, j, k :| 0 <= i <= j <= k < |history| && Hash(digest, history, i) == Hash(digest, history, k)
                     && Hash(digest, history, j) != Hash(digest, history, i);
      UnfinishedSkip(history, digest, i, j, k);
    }
  }

  function Interrupted(i: nat, j: nat, k: nat): seq<ExportRun> {
    [ExportRun(false, i, Finishes), ExportRun(false, j, StopsMidway(Unfinished(false))), ExportRun(false, k, Finishes)]
  }

  /** Unsoundness of the third of three plain runs shows. */
  lemma {:induction false} ThirdUnsound(a: ExportRun, b: ExportRun, c: ExportRun, history: seq<Context>, digest: string -> string)
    requires InTime(a, history) && InTime(b, history) && InTime(c, history) && a.at <= b.at <= c.at
    requires !a.force && !b.force && !c.force
    requires !SkipSound(Next(Next(CLEAN, a, history, digest), b, history, digest), c, Hash(digest, history, c.at))
    ensures Timely([a, b, c], 0, history)
    ensures AllCareful(CLEAN, [a, b, c], 0, history, digest)
    ensures !AllSkipsSound(CLEAN, [a, b, c], 0, history, digest)
  {
    hide SkipSound, Next, Hash;
    assert [a, b, c][1..] == [b, c] && [b, c][1..] == [c] && [c][1..] == [];
    assert Timely([], c.at, history) && Timely([c], b.at, history) && Timely([b, c], a.at, history);
    var s1 := Next(CLEAN, a, history, digest);
    var s2 := Next(s1, b, history, digest);
    assert [c] != [] && !SkipSound(s2, [c][0], Hash(digest, history, [c][0].at));
    assert !AllSkipsSound(s2, [c], b.at, history, digest);
    assert AllCareful(s2, [c], b.at, history, digest);
    assert AllCareful(s1, [b, c], a.at, history, digest) && !AllSkipsSound(s1, [b, c], a.at, history, digest);
  }

  /** An export for another hash is stopped midway, then the first hash returns. */
  lemma {:induction false} UnfinishedSkip(history: seq<Context>, digest: string -> string, i: nat, j: nat, k: nat)
    requires i <= j <= k < |history|
    requires Hash(digest, history, i) == Hash(digest, history, k) && Hash(digest, history, j) != Hash(digest, history, i)
    ensures Timely(Interrupted(i, j, k), 0, history)
    ensures AllCareful(CLEAN, Interrupted(i, j, k), 0, history, digest)
    ensures !AllSkipsSound(CLEAN, Interrupted(i, j, k), 0, history, digest)
  {
    hide Timely, AllCareful, AllSkipsSound, Hash;
    var runs, hash := Interrupted(i, j, k), Hash(digest, history, i);
    assert Next(CLEAN, runs[0], history, digest) == ExportState(Some(hash), Complete(hash));
    assert Next(ExportState(Some(hash), Complete(hash)), runs[1], history, digest) == ExportState(Some(hash), Unfinished(false));
    assert !SkipSound(ExportState(Some(hash), Unfinished(false)), runs[2], hash);
    ThirdUnsound(runs[0], runs[1], runs[2], history, digest);
  }

  /** The care is needed: whenever a run that does not skip, be it forced or because the
      directory was gone, is stopped midway over its own digest, the next plain run skips an
      unfinished directory. */
  lemma {:induction false} StoppedOverOwnDigest(s: ExportState, r: ExportRun, next: ExportRun, hash: string)
    requires s.digestFile == Some(hash) && r.fate == StopsMidway(Unfinished(false))
    requires r.force || !HasEntries(s.dir)
    requires !next.force && !next.fate.FailsEarly?
    ensures !Careful(s, r, hash) <==> r.force
    ensures After(After(s, r, hash).0, next, hash).1 == Skipped && !SkipSound(After(s, r, hash).0, next, hash)
  {
  }

  /** An export that has finished is not repeated while the hash stays. */
  lemma {:induction false} FinishedExportIsSkipped(s: ExportState, r: ExportRun, again: ExportRun, hash: string)
    requires After(s, r, hash).1 in {Exported, Skipped} && !again.force && !again.fate.FailsEarly?
    ensures After(After(s, r, hash).0, again, hash) == (After(s, r, hash).0, Skipped)
  {
  }
}
