/** gen-lock: one goroutine per base image, all updating one lockfile and one list of
    failures under a mutex. */
module GenLock {
  import opened Option
  import opened Strings
  import opened ImageSpecs
  import opened GenImages

  /** One base image to pin; inspect is the trimmed digest, or None when the lookup failed. */
  datatype Job = Job(lang: string, version: string, baseImage: string, inspect: Option<string>)

  datatype Failure = Failure(lang: string, version: string, kept: bool)

  /** The inputs of a run. */
  datatype Inputs = Inputs(jobs: seq<Job>, current: Option<Lockfile>, dropStale: bool)

  datatype Fate = Fresh(digest: string) | Kept(digest: string) | Unpinned

  /** What becomes of a job: a function of its own lookup, the old lockfile and the flag. */
  function FateOf(c: Inputs, job: Job): Fate {
    if Cut(job.baseImage, '@').0 == "" then Unpinned else
    match job.inspect
    case Some(digest) => Fresh(digest)
    case None =>
      if !c.dropStale && c.current.Some? && DigestOf(c.current.value, job.lang, job.version) != ""
      then Kept(DigestOf(c.current.value, job.lang, job.version))
      else Unpinned
  }

  /** A critical section of a goroutine. */
  datatype Section = Put(digest: string) | Fail(kept: bool)

  function Sections(fate: Fate): seq<Section> {
    match fate
    case Fresh(digest) => [Put(digest)]
    case Kept(digest) => [Put(digest), Fail(true)]
    case Unpinned => [Fail(false)]
  }

  /** The shared state, and how many sections each goroutine has behind it. */
  datatype State = State(lock: Lockfile, failures: seq<Failure>, done: seq<nat>)

  function Init(c: Inputs): State { State(map[], [], seq(|c.jobs|, _ => 0)) }

  function PutDigest(lock: Lockfile, lang: string, version: string, digest: string): Lockfile {
    lock[lang := (if lang in lock then lock[lang] else map[])[version := digest]]
  }

  /** The next section of goroutine i, when it has one left. */
  function Step(c: Inputs, s: State, i: nat): Option<State> {
    if i >= |c.jobs| || i >= |s.done| then None else
    var job := c.jobs[i];
    var sections := Sections(FateOf(c, job));
    if s.done[i] >= |sections| then None else
    var t := s.(done := s.done[i := s.done[i] + 1]);
    match sections[s.done[i]]
    case Put(digest) => Some(t.(lock := PutDigest(s.lock, job.lang, job.version, digest)))
    case Fail(kept) => Some(t.(failures := s.failures + [Failure(job.lang, job.version, kept)]))
  }

  function Exec(c: Inputs, s: State, schedule: seq<nat>): Option<State>
    decreases |schedule|
  {
    if schedule == [] then Some(s) else
    match Step(c, s, schedule[0])
    case None => None
    case Some(t) => Exec(c, t, schedule[1..])
  }

  /** Every goroutine is through. */
  predicate Complete(c: Inputs, s: State) {
    |s.done| == |c.jobs| && forall i :: 0 <= i < |c.jobs| ==> s.done[i] == |Sections(FateOf(c, c.jobs[i]))|
  }

  predicate DistinctKeys(c: Inputs) {
    forall i, j :: 0 <= i < j < |c.jobs| ==> (c.jobs[i].lang, c.jobs[i].version) != (c.jobs[j].lang, c.jobs[j].version)
  }

  // ------------------------------------------------------------- the critical sections

  class LockRun {
    const c: Inputs
    var newLockFile: Lockfile
    var failures: seq<Failure>
    var done: seq<nat>

    constructor (c: Inputs)
      ensures this.c == c && View() == Init(c)
    {
      this.c := c;
      newLockFile, failures, done := map[], [], seq(|c.jobs|, _ => 0);
    }

    function View(): State
      reads this
    {
      State(newLockFile, failures, done)
    }

    method RecordDigest(lang: string, version: string, digest: string)
      modifies this`newLockFile
      ensures newLockFile == PutDigest(old(newLockFile), lang, version, digest)
    {
      if lang !in newLockFile { newLockFile := newLockFile[lang := map[]]; }
      newLockFile := newLockFile[lang := newLockFile[lang][version := digest]];
    }

    /** The body of goroutine i up to the end of its next critical section. */
    method Advance(i: nat)
      requires i < |c.jobs| == |done|
      modifies this
      ensures match Step(c, old(View()), i)
              case Some(t) => View() == t
              case None => View() == old(View())
    {
      var job := c.jobs[i];
      var cut := Cut(job.baseImage, '@');
      if cut.0 == "" {
        if done[i] == 0 {
          failures := failures + [Failure(job.lang, job.version, false)];
          done := done[i := 1];
        }
        return;
      }
      if job.inspect.None? {
        var existing := "";
        if !c.dropStale && c.current.Some? { existing := DigestOf(c.current.value, job.lang, job.version); }
        var kept := existing != "";
        if kept && done[i] == 0 {
          RecordDigest(job.lang, job.version, existing);
          done := done[i := 1];
        } else if done[i] == (if kept then 1 else 0) {
          failures := failures + [Failure(job.lang, job.version, kept)];
          done := done[i := done[i] + 1];
        }
        return;
      }
      if done[i] == 0 {
        RecordDigest(job.lang, job.version, job.inspect.value);
        done := done[i := 1];
      }
    }

    /** The summary after all goroutines: how many failures kept a digest and how many did not. */
    method Summary() returns (kept: nat, unpinned: nat)
      ensures kept == |KeptOf(failures)| && kept + unpinned == |failures|
    {
      kept, unpinned := 0, 0;
      for k := 0 to |failures|
        invariant kept == |KeptOf(failures[..k])| && kept + unpinned == k
      {
        assert failures[..k + 1][..k] == failures[..k];
        if failures[k].kept { kept := kept + 1; } else { unpinned := unpinned + 1; }
      }
      assert failures[..|failures|] == failures;
    }
  }

  function KeptOf(failures: seq<Failure>): seq<Failure> {
    if failures == [] then [] else
    var n := |failures| - 1;
    KeptOf(failures[..n]) + (if failures[n].kept then [failures[n]] else [])
  }

  // ------------------------------------------------------------------ confluence

  /** The digest a job has put into the lockfile so far. */
  function PutSoFar(c: Inputs, s: State, i: nat): Option<string>
    requires i < |c.jobs| == |s.done|
  {
    match FateOf(c, c.jobs[i])
    case Unpinned => None
    case _ => if s.done[i] > 0 then Some(FateOf(c, c.jobs[i]).digest) else None
  }

  predicate Has(lock: Lockfile, lang: string, version: string, digest: string) {
    lang in lock && version in lock[lang] && lock[lang][version] == digest
  }

  /** The lockfile holds what was put and nothing else. */
  ghost predicate LockInv(c: Inputs, s: State) {
    && |s.done| == |c.jobs|
    && (forall i :: 0 <= i < |c.jobs| && PutSoFar(c, s, i).Some? ==>
          Has(s.lock, c.jobs[i].lang, c.jobs[i].version, PutSoFar(c, s, i).value))
    && (forall l, v, d :: Has(s.lock, l, v, d) ==> exists i :: IsPut(c, s, i, l, v, d))
    && (forall l :: l in s.lock ==> s.lock[l] != map[])
  }

  predicate IsPut(c: Inputs, s: State, i: nat, l: string, v: string, d: string)
    requires |s.done| == |c.jobs|
  {
    i < |c.jobs| && c.jobs[i].lang == l && c.jobs[i].version == v && PutSoFar(c, s, i) == Some(d)
  }

  lemma {:induction false} PutKeeps(lock: Lockfile, lang: string, version: string, digest: string)
    ensures var p := PutDigest(lock, lang, version, digest);
            && (forall l, v, d :: Has(p, l, v, d) <==>
                 if (l, v) == (lang, version) then d == digest else Has(lock, l, v, d))
            && ((forall l :: l in lock ==> lock[l] != map[]) ==> forall l :: l in p ==> p[l] != map[])
  {
    var p := PutDigest(lock, lang, version, digest);
    assert version in p[lang];
  }

  lemma {:induction false} StepKeepsLock(c: Inputs, s: State, i: nat)
    requires DistinctKeys(c) && LockInv(c, s) && Step(c, s, i).Some?
    ensures LockInv(c, Step(c, s, i).value)
  {
    hide Has, FateOf, PutDigest;
    var t := Step(c, s, i).value;
    var job := c.jobs[i];
    forall j | 0 <= j < |c.jobs| && j != i ensures PutSoFar(c, t, j) == PutSoFar(c, s, j) {}
    match Sections(FateOf(c, job))[s.done[i]]
    case Fail(_) =>
      assert PutSoFar(c, t, i) == PutSoFar(c, s, i);
      forall l, v, d | Has(t.lock, l, v, d) ensures exists j :: IsPut(c, t, j, l, v, d) {
        var j :| IsPut(c, s, j, l, v, d);
        assert IsPut(c, t, j, l, v, d);
      }
    case Put(digest) =>
      PutKeeps(s.lock, job.lang, job.version, digest);
      assert PutSoFar(c, t, i) == Some(digest);
      forall l, v, d | Has(t.lock, l, v, d) ensures exists j :: IsPut(c, t, j, l, v, d) {
        if (l, v) == (job.lang, job.version) {
          assert IsPut(c, t, i, l, v, d);
        } else {
          var j :| IsPut(c, s, j, l, v, d);
          assert IsPut(c, t, j, l, v, d);
        }
      }
  }

  /** What goroutine i has reported when it has n sections behind it. */
  function OwnFailure(fate: Fate, job: Job, n: nat): multiset<Failure> {
    if !fate.Fresh? && n == |Sections(fate)| then multiset{Failure(job.lang, job.version, fate.Kept?)} else multiset{}
  }

  /** The failures reported so far by the goroutines below n. */
  function FailedSoFar(c: Inputs, done: seq<nat>, n: nat): multiset<Failure>
    requires n <= |c.jobs| == |done|
  {
    if n == 0 then multiset{}
    else FailedSoFar(c, done, n - 1) + OwnFailure(FateOf(c, c.jobs[n - 1]), c.jobs[n - 1], done[n - 1])
  }

  lemma {:induction false} StepReports(c: Inputs, s: State, i: nat)
    requires |s.done| == |c.jobs| && Step(c, s, i).Some?
    ensures var t := Step(c, s, i).value; var fate := FateOf(c, c.jobs[i]);
            && t.done == s.done[i := s.done[i] + 1]
            && OwnFailure(fate, c.jobs[i], s.done[i]) == multiset{}
            && multiset(t.failures) == multiset(s.failures) + OwnFailure(fate, c.jobs[i], s.done[i] + 1)
  {
    hide FateOf;
  }

  lemma {:induction false} FailedStep(c: Inputs, done: seq<nat>, i: nat, n: nat)
    requires n <= |c.jobs| == |done| && i < |c.jobs|
    requires OwnFailure(FateOf(c, c.jobs[i]), c.jobs[i], done[i]) == multiset{}
    ensures FailedSoFar(c, done[i := done[i] + 1], n) ==
            FailedSoFar(c, done, n)
            + (if i < n then OwnFailure(FateOf(c, c.jobs[i]), c.jobs[i], done[i] + 1) else multiset{})
  {
    hide FateOf, OwnFailure;
    if n > 0 { FailedStep(c, done, i, n - 1); }
  }

  lemma {:induction false} NoneFailedYet(c: Inputs, done: seq<nat>, n: nat)
    requires n <= |c.jobs| == |done| && forall i :: 0 <= i < n ==> done[i] == 0
    ensures FailedSoFar(c, done, n) == multiset{}
  {
    if n > 0 { NoneFailedYet(c, done, n - 1); }
  }

  lemma {:induction false} ExecKeeps(c: Inputs, s: State, schedule: seq<nat>)
    requires DistinctKeys(c) && LockInv(c, s) && multiset(s.failures) == FailedSoFar(c, s.done, |c.jobs|)
    requires Exec(c, s, schedule).Some?
    ensures var t := Exec(c, s, schedule).value; LockInv(c, t) && multiset(t.failures) == FailedSoFar(c, t.done, |c.jobs|)
    decreases |schedule|
  {
    hide LockInv, FailedSoFar, Step, OwnFailure, FateOf;
    if schedule != [] {
      StepBounds(c, s, schedule[0]);
      StepKeepsLock(c, s, schedule[0]);
      StepReports(c, s, schedule[0]);
      FailedStep(c, s.done, schedule[0], |c.jobs|);
      ExecKeeps(c, Step(c, s, schedule[0]).value, schedule[1..]);
    }
  }

  lemma {:induction false} StepBounds(c: Inputs, s: State, i: nat)
    requires LockInv(c, s) && Step(c, s, i).Some?
    ensures i < |c.jobs| == |s.done|
  {
  }

  /** The lockfile is the pointwise function of the jobs' fates. */
  ghost predicate IsLockOf(c: Inputs, lock: Lockfile) {
    && (forall i :: 0 <= i < |c.jobs| && !FateOf(c, c.jobs[i]).Unpinned? ==>
          Has(lock, c.jobs[i].lang, c.jobs[i].version, FateOf(c, c.jobs[i]).digest))
    && (forall l, v, d :: Has(lock, l, v, d) ==> exists i :: Gives(c, i, l, v, d))
    && (forall l :: l in lock ==> lock[l] != map[])
  }

  predicate Gives(c: Inputs, i: nat, l: string, v: string, d: string) {
    i < |c.jobs| && c.jobs[i].lang == l && c.jobs[i].version == v
    && !FateOf(c, c.jobs[i]).Unpinned? && FateOf(c, c.jobs[i]).digest == d
  }

  lemma {:induction false} InitKeeps(c: Inputs)
    ensures LockInv(c, Init(c)) && multiset(Init(c).failures) == FailedSoFar(c, Init(c).done, |c.jobs|)
  {
    NoneFailedYet(c, Init(c).done, |c.jobs|);
  }

  /** MAIN RESULT.  However the goroutines interleave, the lockfile is the pointwise function
      of the lookups, the old lockfile and the flag, and each job that is not fresh is
      reported exactly once, as kept or as unpinned. */
  lemma {:induction false} LockIsPointwise(c: Inputs, schedule: seq<nat>)
    requires DistinctKeys(c) && Exec(c, Init(c), schedule).Some? && Complete(c, Exec(c, Init(c), schedule).value)
    ensures var s := Exec(c, Init(c), schedule).value;
            IsLockOf(c, s.lock) && multiset(s.failures) == AllFailures(c, |c.jobs|)
  {
    hide FateOf, Has, Exec, FailedSoFar, AllFailures;
    var s := Exec(c, Init(c), schedule).value;
    InitKeeps(c);
    ExecKeeps(c, Init(c), schedule);
    AllFailed(c, s, |c.jobs|);
    forall i | 0 <= i < |c.jobs| && !FateOf(c, c.jobs[i]).Unpinned?
      ensures PutSoFar(c, s, i) == Some(FateOf(c, c.jobs[i]).digest)
    {
    }
    forall l, v, d | Has(s.lock, l, v, d) ensures exists i :: Gives(c, i, l, v, d) {
      var i :| IsPut(c, s, i, l, v, d);
      assert Gives(c, i, l, v, d);
    }
  }

  /** The jobs below n that are not fresh, as they are reported. */
  function AllFailures(c: Inputs, n: nat): multiset<Failure>
    requires n <= |c.jobs|
  {
    if n == 0 then multiset{} else
    var job := c.jobs[n - 1];
    var fate := FateOf(c, job);
    AllFailures(c, n - 1) + (if fate.Fresh? then multiset{} else multiset{Failure(job.lang, job.version, fate.Kept?)})
  }

  lemma {:induction false} AllFailed(c: Inputs, s: State, n: nat)
    requires Complete(c, s) && n <= |c.jobs|
    ensures FailedSoFar(c, s.done, n) == AllFailures(c, n)
  {
    hide FateOf;
    if n > 0 { AllFailed(c, s, n - 1); }
  }

  lemma {:induction false} OneMoreReport(c: Inputs, n: nat, f: Failure)
    requires 0 < n <= |c.jobs|
    ensures var last, fate := c.jobs[n - 1], FateOf(c, c.jobs[n - 1]);
            AllFailures(c, n)[f] == AllFailures(c, n - 1)[f]
              + (if f.lang == last.lang && f.version == last.version && !fate.Fresh? && f.kept == fate.Kept? then 1 else 0)
  {
    hide FateOf;
  }

  /** The kept ones among the failures, each as often as it is reported. */
  lemma {:induction false} KeptExactly(failures: seq<Failure>, f: Failure)
    ensures multiset(KeptOf(failures))[f] == if f.kept then multiset(failures)[f] else 0
  {
    if failures != [] {
      var n := |failures| - 1;
      KeptExactly(failures[..n], f);
      assert failures == failures[..n] + [failures[n]];
    }
  }

  lemma {:induction false} NoReports(c: Inputs, f: Failure)
    ensures AllFailures(c, 0)[f] == 0
  {
  }

  lemma {:induction false} OtherKey(c: Inputs, n: nat, i: nat)
    requires DistinctKeys(c) && n < |c.jobs| && i < |c.jobs|
    ensures i != n ==> c.jobs[n].lang != c.jobs[i].lang || c.jobs[n].version != c.jobs[i].version
  {
  }

  /** How often a job is reported, and how. */
  lemma {:induction false} ReportsOf(c: Inputs, n: nat, i: nat, kept: bool)
    requires DistinctKeys(c) && n <= |c.jobs| && i < |c.jobs|
    ensures var job, fate := c.jobs[i], FateOf(c, c.jobs[i]);
            AllFailures(c, n)[Failure(job.lang, job.version, kept)] == (if i < n && !fate.Fresh? && fate.Kept? == kept then 1 else 0)
  {
    hide FateOf, AllFailures, DistinctKeys;
    if n == 0 {
      NoReports(c, Failure(c.jobs[i].lang, c.jobs[i].version, kept));
    } else {
      ReportsOf(c, n - 1, i, kept);
      OneMoreReport(c, n, Failure(c.jobs[i].lang, c.jobs[i].version, kept));
      OtherKey(c, n - 1, i);
    }
  }

  lemma {:induction false} EntryOf(c: Inputs, lock: Lockfile, i: nat)
    requires DistinctKeys(c) && IsLockOf(c, lock) && i < |c.jobs|
    ensures var job, fate := c.jobs[i], FateOf(c, c.jobs[i]);
            if fate.Unpinned? then !(job.lang in lock && job.version in lock[job.lang])
            else job.lang in lock && job.version in lock[job.lang] && lock[job.lang][job.version] == fate.digest
  {
    hide FateOf;
    var l, v := c.jobs[i].lang, c.jobs[i].version;
    assert l in lock && v in lock[l] ==> Has(lock, l, v, lock[l][v]);
  }

  predicate HasEntry(lock: Lockfile, l: string, v: string) { l in lock && v in lock[l] }

  /** MAIN RESULT.  What becomes of each job, in terms of its own lookup, the old lockfile and the
      flag alone, after every complete interleaving: a digest that was found is locked and nothing
      is reported; when the lookup fails, a non-empty old digest is kept and reported as kept
      unless stale ones are dropped; otherwise, and without a base image, the job has no entry
      and is reported as unpinned.  Nothing else is in the lockfile. */
  lemma {:induction false} JobsExactly(c: Inputs, schedule: seq<nat>, i: nat)
    requires DistinctKeys(c) && i < |c.jobs|
    requires Exec(c, Init(c), schedule).Some? && Complete(c, Exec(c, Init(c), schedule).value)
    ensures var s, job := Exec(c, Init(c), schedule).value, c.jobs[i];
            var named := Cut(job.baseImage, '@').0 != "";
            var keeps := !c.dropStale && c.current.Some? && HasEntry(c.current.value, job.lang, job.version)
                         && c.current.value[job.lang][job.version] != "";
            var kept, unpinned := multiset(s.failures)[Failure(job.lang, job.version, true)], multiset(s.failures)[Failure(job.lang, job.version, false)];
            if named && job.inspect.Some? then
              && HasEntry(s.lock, job.lang, job.version) && s.lock[job.lang][job.version] == job.inspect.value
              && kept == 0 && unpinned == 0
            else if named && keeps then
              && HasEntry(s.lock, job.lang, job.version)
              && s.lock[job.lang][job.version] == c.current.value[job.lang][job.version]
              && kept == 1 && unpinned == 0
            else !HasEntry(s.lock, job.lang, job.version) && kept == 0 && unpinned == 1
    ensures var lock := Exec(c, Init(c), schedule).value.lock;
            forall l, v :: HasEntry(lock, l, v) ==> exists k :: 0 <= k < |c.jobs| && c.jobs[k].lang == l && c.jobs[k].version == v
  {
    var s := Exec(c, Init(c), schedule).value;
    LockIsPointwise(c, schedule);
    EntryOf(c, s.lock, i);
    ReportsOf(c, |c.jobs|, i, true);
    ReportsOf(c, |c.jobs|, i, false);
    hide Exec, AllFailures, Complete, DistinctKeys;
    forall l, v | HasEntry(s.lock, l, v) ensures exists k :: 0 <= k < |c.jobs| && c.jobs[k].lang == l && c.jobs[k].version == v {
      assert Has(s.lock, l, v, s.lock[l][v]);
      var k :| Gives(c, k, l, v, s.lock[l][v]);
    }
  }

  lemma {:induction false} LockUnique(c: Inputs, a: Lockfile, b: Lockfile)
    requires DistinctKeys(c) && IsLockOf(c, a) && IsLockOf(c, b)
    ensures a == b
  {
    hide FateOf;
    forall l, v, d ensures Has(a, l, v, d) <==> Has(b, l, v, d) {
      if Has(a, l, v, d) { var i :| Gives(c, i, l, v, d); }
      if Has(b, l, v, d) { var i :| Gives(c, i, l, v, d); }
    }
    SameEntries(a, b);
  }

  lemma {:induction false} SameEntries(a: Lockfile, b: Lockfile)
    requires forall l, v, d :: Has(a, l, v, d) <==> Has(b, l, v, d)
    requires forall l :: l in a ==> a[l] != map[]
    requires forall l :: l in b ==> b[l] != map[]
    ensures a == b
  {
    forall l ensures l in a <==> l in b {
      if l in a { var v :| v in a[l]; assert Has(a, l, v, a[l][v]); }
      if l in b { var v :| v in b[l]; assert Has(b, l, v, b[l][v]); }
    }
    forall l | l in a ensures a[l] == b[l] {
      forall v ensures v in a[l] <==> v in b[l]
               ensures v in a[l] ==> a[l][v] == b[l][v]
      {
        if v in a[l] { assert Has(a, l, v, a[l][v]); }
        if v in b[l] { assert Has(b, l, v, b[l][v]); }
      }
    }
  }

  /** MAIN RESULT.  Any two complete interleavings end in the same lockfile and report the same
      failures. */
  lemma {:induction false} Confluent(c: Inputs, schedule: seq<nat>, other: seq<nat>)
    requires DistinctKeys(c)
    requires Exec(c, Init(c), schedule).Some? && Complete(c, Exec(c, Init(c), schedule).value)
    requires Exec(c, Init(c), other).Some? && Complete(c, Exec(c, Init(c), other).value)
    ensures var s, t := Exec(c, Init(c), schedule).value, Exec(c, Init(c), other).value;
            s.lock == t.lock && multiset(s.failures) == multiset(t.failures)
  {
    hide IsLockOf, Complete;
    LockIsPointwise(c, schedule);
    LockIsPointwise(c, other);
    LockUnique(c, Exec(c, Init(c), schedule).value.lock, Exec(c, Init(c), other).value.lock);
  }

  // -------------------------------------------------- what gen-images makes of it

  /** The jobs are those of the versions of the entries. */
  ghost predicate JobsOf(c: Inputs, entries: seq<Entry>) {
    && (forall e, v :: e in entries && v in e.spec.versions ==> exists i :: IsJob(c, i, e.spec.name, v))
    && (forall i :: 0 <= i < |c.jobs| ==> exists e :: e in entries && e.spec.name == c.jobs[i].lang && c.jobs[i].version in e.spec.versions)
  }

  predicate IsJob(c: Inputs, i: nat, lang: string, v: string) {
    i < |c.jobs| && c.jobs[i].lang == lang && c.jobs[i].version == v
  }

  lemma {:induction false} DigestsThenPinned(c: Inputs, lock: Lockfile, entries: seq<Entry>, i: nat)
    requires DistinctKeys(c) && IsLockOf(c, lock) && JobsOf(c, entries) && i < |c.jobs|
    requires forall e :: e in entries ==> AllGenerable(Some(lock), {}, e)
    ensures FateOf(c, c.jobs[i]) !in {Unpinned, Fresh("")}
  {
    hide FateOf, AllGenerable, IsLockOf, DigestOf;
    DigestIsFate(c, lock, i);
    var e :| e in entries && e.spec.name == c.jobs[i].lang && c.jobs[i].version in e.spec.versions;
    GenerableMeans(lock, e);
  }

  lemma {:induction false} PinnedThenDigests(c: Inputs, lock: Lockfile, entries: seq<Entry>, e: Entry)
    requires DistinctKeys(c) && IsLockOf(c, lock) && JobsOf(c, entries) && e in entries
    requires forall i :: 0 <= i < |c.jobs| ==> FateOf(c, c.jobs[i]) !in {Unpinned, Fresh("")}
    ensures AllGenerable(Some(lock), {}, e)
  {
    hide FateOf, AllGenerable, IsLockOf, DigestOf;
    GenerableMeans(lock, e);
    forall v | v in e.spec.versions ensures DigestOf(lock, e.spec.name, v) != "" {
      var i :| IsJob(c, i, e.spec.name, v);
      DigestIsFate(c, lock, i);
    }
  }

  /** MAIN RESULT.  With the new lockfile gen-images finds a digest for every version exactly
      when no job was left unpinned and no lookup printed an empty digest. */
  lemma {:induction false} GenImagesFindsDigests(c: Inputs, lock: Lockfile, entries: seq<Entry>)
    requires DistinctKeys(c) && IsLockOf(c, lock) && JobsOf(c, entries)
    ensures (forall e :: e in entries ==> AllGenerable(Some(lock), {}, e))
            <==> forall i :: 0 <= i < |c.jobs| ==> FateOf(c, c.jobs[i]) !in {Unpinned, Fresh("")}
  {
    hide FateOf, AllGenerable, IsLockOf, JobsOf, DistinctKeys;
    if forall e :: e in entries ==> AllGenerable(Some(lock), {}, e) {
      forall i | 0 <= i < |c.jobs| ensures FateOf(c, c.jobs[i]) !in {Unpinned, Fresh("")} {
        DigestsThenPinned(c, lock, entries, i);
      }
    }
    if forall i :: 0 <= i < |c.jobs| ==> FateOf(c, c.jobs[i]) !in {Unpinned, Fresh("")} {
      forall e | e in entries ensures AllGenerable(Some(lock), {}, e) { PinnedThenDigests(c, lock, entries, e); }
    }
  }

  lemma {:induction false} GenerableMeans(lock: Lockfile, e: Entry)
    ensures AllGenerable(Some(lock), {}, e) <==> forall v :: v in e.spec.versions ==> DigestOf(lock, e.spec.name, v) != ""
  {
    hide DigestOf;
    assert forall v :: v in e.spec.versions ==> (Generable(Some(lock), {}, e, v) <==> DigestOf(lock, e.spec.name, v) != "");
  }

  lemma {:induction false} DigestIsFate(c: Inputs, lock: Lockfile, i: nat)
    requires DistinctKeys(c) && IsLockOf(c, lock) && i < |c.jobs|
    ensures DigestOf(lock, c.jobs[i].lang, c.jobs[i].version) == "" <==> FateOf(c, c.jobs[i]) in {Unpinned, Fresh("")}
  {
    var l, v := c.jobs[i].lang, c.jobs[i].version;
    KeptNotEmpty(c, c.jobs[i]);
    hide FateOf;
    assert l in lock && v in lock[l] ==> Has(lock, l, v, lock[l][v]);
  }

  lemma {:induction false} KeptNotEmpty(c: Inputs, job: Job)
    ensures FateOf(c, job).Kept? ==> FateOf(c, job).digest != ""
  {
  }
}
