/** build-images and export-rootfs one after the other, in any order: the export copies the
    image of the tag as it stands, while the digest it leaves is that of the build directory. */
module ExportPipelines {
  import opened Option
  import opened ContextHashes
  import C = ImageCaches
  import R = RootfsExports

  /** from is the moment whose context was built into the image that a finished directory holds. */
  datatype State = State(cache: C.CacheState, rootfs: R.ExportState, from: Option<nat>)

  datatype Act = Build(r: C.BuildRun) | RemoveImage | Export(e: R.ExportRun)

  const CLEAN := State(C.CLEAN, R.CLEAN, None)

  /** Without an image no container can be created; the new directory stays empty. */
  function Feasible(r: R.ExportRun, tag: Option<nat>): R.ExportRun {
    if tag.None? && !r.fate.FailsEarly? && !r.fate.StopsMidway? then r.(fate := R.StopsMidway(R.Unfinished(true))) else r
  }

  predicate Completes(s: R.ExportState, r: R.ExportRun, hash: string) {
    !r.fate.FailsEarly? && !r.fate.StopsMidway? && !R.UpToDate(s, r, hash)
  }

  predicate InTime(a: Act, now: nat, history: seq<Context>) {
    match a
    case Build(r) => now <= r.hashAt <= r.buildAt < |history|
    case RemoveImage => true
    case Export(r) => now <= r.at && R.InTime(r, history)
  }

  function Moved(a: Act, now: nat): nat {
    match a
    case Build(r) => r.buildAt
    case RemoveImage => now
    case Export(r) => r.at
  }

  function Step(s: State, a: Act, now: nat, history: seq<Context>, digest: string -> string): State
    requires InTime(a, now, history)
  {
    match a
    case Build(r) => s.(cache := C.Next(s.cache, C.Run(r), history, digest))
    case RemoveImage => s.(cache := C.Next(s.cache, C.RemoveImage, history, digest))
    case Export(r) =>
      var run, hash := Feasible(r, s.cache.tag), Hash(digest, history, r.at);
      State(s.cache, R.After(s.rootfs, run, hash).0, if Completes(s.rootfs, run, hash) then s.cache.tag else s.from)
  }

  predicate Timely(acts: seq<Act>, now: nat, history: seq<Context>) {
    acts != [] ==> InTime(acts[0], now, history) && Timely(acts[1..], Moved(acts[0], now), history)
  }

  /** No forced export stops midway over its own digest. */
  predicate Careful(s: State, a: Act, now: nat, history: seq<Context>, digest: string -> string)
    requires InTime(a, now, history)
  {
    a.Export? ==> R.Careful(s.rootfs, Feasible(a.e, s.cache.tag), Hash(digest, history, a.e.at))
  }

  predicate AllCareful(s: State, acts: seq<Act>, now: nat, history: seq<Context>, digest: string -> string)
    requires Timely(acts, now, history)
    decreases |acts|
  {
    acts != [] ==>
      && Careful(s, acts[0], now, history, digest)
      && AllCareful(Step(s, acts[0], now, history, digest), acts[1..], Moved(acts[0], now), history, digest)
  }

  predicate SameContext(m: Option<nat>, at: nat, history: seq<Context>)
    requires at < |history|
  {
    m.Some? && m.value < |history| && history[m.value] == history[at]
  }

  /** An export that leaves its own hash on file found a tag built from the context it hashed. */
  predicate Fresh(s: State, a: Act, now: nat, history: seq<Context>, digest: string -> string)
    requires InTime(a, now, history)
  {
    a.Export? && Completes(s.rootfs, Feasible(a.e, s.cache.tag), Hash(digest, history, a.e.at))
    && Step(s, a, now, history, digest).rootfs.digestFile == Some(Hash(digest, history, a.e.at))
    ==> SameContext(s.cache.tag, a.e.at, history)
  }

  predicate AllFresh(s: State, acts: seq<Act>, now: nat, history: seq<Context>, digest: string -> string)
    requires Timely(acts, now, history)
    decreases |acts|
  {
    acts != [] ==>
      && Fresh(s, acts[0], now, history, digest)
      && AllFresh(Step(s, acts[0], now, history, digest), acts[1..], Moved(acts[0], now), history, digest)
  }

  function Plain(m: nat): R.ExportRun { R.ExportRun(false, m, R.Finishes) }

  /** Whenever a plain export would be skipped from here on, the directory is a finished export
      of an image of the context of that moment. */
  predicate SkipsFresh(s: State, now: nat, history: seq<Context>, digest: string -> string) {
    forall m :: now <= m < |history| && R.UpToDate(s.rootfs, Plain(m), Hash(digest, history, m)) ==>
      s.rootfs.dir == R.Complete(Hash(digest, history, m)) && SameContext(s.from, m, history)
  }

  /** So at every point of the sequence. */
  predicate AlwaysSkipsFresh(s: State, acts: seq<Act>, now: nat, history: seq<Context>, digest: string -> string)
    requires Timely(acts, now, history)
    decreases |acts|
  {
    && SkipsFresh(s, now, history, digest)
    && (acts != [] ==>
          AlwaysSkipsFresh(Step(s, acts[0], now, history, digest), acts[1..], Moved(acts[0], now), history, digest))
  }

  // ----------------------------------------------------------------- fresh exports

  /** What was exported under a hash that is still in force was of the context then. */
  ghost predicate Inv(s: State, now: nat, history: seq<Context>, digest: string -> string) {
    && R.Inv(s.rootfs, now, history, digest)
    && (s.rootfs.digestFile.Some? && |s.rootfs.digestFile.value| == HEX_LENGTH
        && s.rootfs.dir == R.Complete(s.rootfs.digestFile.value) ==>
          ExportedThen(s, s.rootfs.digestFile.value, now, history, digest))
  }

  ghost predicate ExportedThen(s: State, h: string, now: nat, history: seq<Context>, digest: string -> string) {
    R.Left(h, now, history, digest)
    || exists a :: 0 <= a <= now && a < |history| && Hash(digest, history, a) == h && SameContext(s.from, a, history)
  }

  lemma {:induction false} SteadyNeverReturns(history: seq<Context>, digest: string -> string)
    requires C.Steady(history, digest)
    ensures R.NeverReturns(history, digest)
  {
  }

  lemma {:induction false} StillExportedThen(s: State, t: State, h: string, now: nat, later: nat, history: seq<Context>, digest: string -> string)
    requires ExportedThen(s, h, now, history, digest) && now <= later && t.from == s.from
    ensures ExportedThen(t, h, later, history, digest)
  {
    if R.Left(h, now, history, digest) {
      var i, j :| 0 <= i <= j <= now && j < |history| && Hash(digest, history, i) == h && Hash(digest, history, j) != h;
      assert R.Left(h, later, history, digest);
    } else {
      var a :| 0 <= a <= now && a < |history| && Hash(digest, history, a) == h && SameContext(s.from, a, history);
      assert SameContext(t.from, a, history);
    }
  }

  lemma {:induction false} LaterInv(s: R.ExportState, now: nat, later: nat, history: seq<Context>, digest: string -> string)
    requires R.Inv(s, now, history, digest) && now <= later
    ensures R.Inv(s, later, history, digest)
  {
    if s.digestFile.Some? && |s.digestFile.value| == HEX_LENGTH {
      var h := s.digestFile.value;
      var i :| 0 <= i <= now && i < |history| && Hash(digest, history, i) == h;
      assert R.Seen(h, later, history, digest);
      if R.Left(h, now, history, digest) {
        var k, j :| 0 <= k <= j <= now && j < |history| && Hash(digest, history, k) == h && Hash(digest, history, j) != h;
        assert R.Left(h, later, history, digest);
      }
    }
  }

  lemma {:induction false} StepKeepsInv(s: State, a: Act, now: nat, history: seq<Context>, digest: string -> string)
    requires IsDigest(digest) && C.Steady(history, digest) && Inv(s, now, history, digest) && InTime(a, now, history)
    requires Careful(s, a, now, history, digest) && Fresh(s, a, now, history, digest)
    ensures Inv(Step(s, a, now, history, digest), Moved(a, now), history, digest)
  {
    hide C.Steady, R.Inv, R.NeverReturns, ExportedThen, R.Careful;
    SteadyNeverReturns(history, digest);
    var t, later := Step(s, a, now, history, digest), Moved(a, now);
    if a.Export? {
      var run, hash := Feasible(a.e, s.cache.tag), Hash(digest, history, a.e.at);
      R.NextKeepsInv(s.rootfs, run, now, history, digest);
      if Completes(s.rootfs, run, hash) {
        if t.rootfs.digestFile == Some(hash) { FreshlyExported(t, hash, later, history, digest); }
      } else if t.rootfs.dir.Complete? {
        KeptOnSkip(s.rootfs, run, hash);
      }
    } else {
      LaterInv(s.rootfs, now, later, history, digest);
    }
    if t.rootfs == s.rootfs && t.from == s.from && s.rootfs.digestFile.Some? {
      var h := s.rootfs.digestFile.value;
      if ExportedThen(s, h, now, history, digest) { StillExportedThen(s, t, h, now, later, history, digest); }
    }
  }

  lemma {:induction false} FreshlyExported(t: State, hash: string, at: nat, history: seq<Context>, digest: string -> string)
    requires at < |history| && hash == Hash(digest, history, at) && SameContext(t.from, at, history)
    ensures ExportedThen(t, hash, at, history, digest)
  {
  }

  /** A run that does not complete a directory leaves the finished one only by not touching it. */
  lemma {:induction false} KeptOnSkip(s: R.ExportState, r: R.ExportRun, hash: string)
    requires R.Possible(r) && !Completes(s, r, hash) && R.After(s, r, hash).0.dir.Complete?
    ensures R.After(s, r, hash).0 == s
  {
  }

  /** From the invariant a skip is fresh. */
  lemma {:induction false} InvSkipsFresh(s: State, now: nat, history: seq<Context>, digest: string -> string)
    requires IsDigest(digest) && C.Steady(history, digest) && Inv(s, now, history, digest)
    ensures SkipsFresh(s, now, history, digest)
  {
    SteadyNeverReturns(history, digest);
    forall m | now <= m < |history| && R.UpToDate(s.rootfs, Plain(m), Hash(digest, history, m))
      ensures s.rootfs.dir == R.Complete(Hash(digest, history, m)) && SameContext(s.from, m, history)
    {
      var h := Hash(digest, history, m);
      assert |h| == HEX_LENGTH;
      R.NextKeepsInv(s.rootfs, Plain(m), now, history, digest);
      assert R.SkipSound(s.rootfs, Plain(m), h);
      NotLeft(h, now, m, history, digest);
      var a :| 0 <= a <= now && a < |history| && Hash(digest, history, a) == h && SameContext(s.from, a, history);
      assert 0 <= a <= a <= m;
    }
  }

  lemma {:induction false} NotLeft(h: string, now: nat, at: nat, history: seq<Context>, digest: string -> string)
    requires R.NeverReturns(history, digest) && now <= at < |history| && Hash(digest, history, at) == h
    ensures !R.Left(h, now, history, digest)
  {
  }

  lemma {:induction false} FreshGivesFresh(s: State, acts: seq<Act>, now: nat, history: seq<Context>, digest: string -> string)
    requires IsDigest(digest) && C.Steady(history, digest) && Inv(s, now, history, digest)
    requires Timely(acts, now, history) && AllCareful(s, acts, now, history, digest) && AllFresh(s, acts, now, history, digest)
    ensures AlwaysSkipsFresh(s, acts, now, history, digest)
    decreases |acts|
  {
    hide C.Steady, Inv, SkipsFresh, Careful, Fresh, Step, IsDigest, InTime;
    InvSkipsFresh(s, now, history, digest);
    if acts != [] {
      StepKeepsInv(s, acts[0], now, history, digest);
      FreshGivesFresh(Step(s, acts[0], now, history, digest), acts[1..], Moved(acts[0], now), history, digest);
    }
  }

  /** An export that was not fresh shows: the next plain one skips. */
  lemma {:induction false} StaleShows(s: State, a: Act, now: nat, history: seq<Context>, digest: string -> string)
    requires InTime(a, now, history) && !Fresh(s, a, now, history, digest)
    ensures !SkipsFresh(Step(s, a, now, history, digest), Moved(a, now), history, digest)
  {
    var t, m := Step(s, a, now, history, digest), a.e.at;
    assert t.from == s.cache.tag && R.UpToDate(t.rootfs, Plain(m), Hash(digest, history, m));
  }

  lemma {:induction false} FreshFromSkips(s: State, acts: seq<Act>, now: nat, history: seq<Context>, digest: string -> string)
    requires Timely(acts, now, history) && AlwaysSkipsFresh(s, acts, now, history, digest)
    ensures AllFresh(s, acts, now, history, digest)
    decreases |acts|
  {
    hide SkipsFresh, Fresh, Step, InTime;
    if acts != [] {
      var t, later := Step(s, acts[0], now, history, digest), Moved(acts[0], now);
      assert SkipsFresh(t, later, history, digest);
      if !Fresh(s, acts[0], now, history, digest) { StaleShows(s, acts[0], now, history, digest); }
      FreshFromSkips(t, acts[1..], later, history, digest);
    }
  }

  /** MAIN RESULT.  Over every sequence of builds and exports, each stopped anywhere: skipped
      exports hold an image of the current context at every point if and only if every export
      that left its own hash on file found a tag built from the context it had hashed. */
  lemma {:induction false} ExportsFreshExactly(acts: seq<Act>, history: seq<Context>, digest: string -> string)
    requires IsDigest(digest) && C.Steady(history, digest)
    requires Timely(acts, 0, history) && AllCareful(CLEAN, acts, 0, history, digest)
    ensures AlwaysSkipsFresh(CLEAN, acts, 0, history, digest) <==> AllFresh(CLEAN, acts, 0, history, digest)
  {
    hide AlwaysSkipsFresh, AllFresh, AllCareful, Timely, C.Steady;
    assert Inv(CLEAN, 0, history, digest);
    if AllFresh(CLEAN, acts, 0, history, digest) { FreshGivesFresh(CLEAN, acts, 0, history, digest); }
    if AlwaysSkipsFresh(CLEAN, acts, 0, history, digest) { FreshFromSkips(CLEAN, acts, 0, history, digest); }
  }

  /** Building right before exporting, at one moment, is enough for the export to be fresh. */
  lemma {:induction false} BuildFirst(s: State, r: C.BuildRun, e: R.ExportRun, now: nat, history: seq<Context>, digest: string -> string)
    requires IsDigest(digest) && C.Steady(history, digest) && C.Inv(s.cache, now, history, digest)
    requires InTime(Build(r), now, history) && r.hashAt == r.buildAt == e.at && R.InTime(e, history)
    requires C.After(s.cache, r, Hash(digest, history, r.hashAt)).1 in {C.Built, C.Skipped}
    ensures Fresh(Step(s, Build(r), now, history, digest), Export(e), e.at, history, digest)
  {
    C.SoundNow(s.cache, C.Run(r), now, history, digest);
  }

  lemma {:induction false} ThreeActs(a: Act, b: Act, d: Act, history: seq<Context>, digest: string -> string)
    requires InTime(a, 0, history) && InTime(b, Moved(a, 0), history) && InTime(d, Moved(b, Moved(a, 0)), history)
    requires var s1 := Step(CLEAN, a, 0, history, digest); var s2 := Step(s1, b, Moved(a, 0), history, digest);
             var last := Moved(b, Moved(a, 0)); var s3 := Step(s2, d, last, history, digest);
             && Careful(CLEAN, a, 0, history, digest) && Careful(s1, b, Moved(a, 0), history, digest) && Careful(s2, d, last, history, digest)
             && !SkipsFresh(s3, Moved(d, last), history, digest)
    ensures Timely([a, b, d], 0, history) && AllCareful(CLEAN, [a, b, d], 0, history, digest)
    ensures !AlwaysSkipsFresh(CLEAN, [a, b, d], 0, history, digest)
  {
    hide SkipsFresh, Step, InTime, Careful;
    var now1 := Moved(a, 0);
    var now2 := Moved(b, now1);
    var now3 := Moved(d, now2);
    var s1 := Step(CLEAN, a, 0, history, digest);
    var s2 := Step(s1, b, now1, history, digest);
    var s3 := Step(s2, d, now2, history, digest);
    assert [a, b, d][1..] == [b, d] && [b, d][1..] == [d] && [d][1..] == [];
    assert Timely([], now3, history) && Timely([d], now2, history);
    assert Timely([b, d], now1, history);
    assert Timely([a, b, d], 0, history);
    assert AllCareful(s3, [], now3, history, digest) && AllCareful(s2, [d], now2, history, digest);
    assert AllCareful(s1, [b, d], now1, history, digest);
    assert !AlwaysSkipsFresh(s3, [], now3, history, digest);
    assert !AlwaysSkipsFresh(s2, [d], now2, history, digest);
    assert !AlwaysSkipsFresh(s1, [b, d], now1, history, digest);
  }

  function BuildAt(m: nat): Act { Build(C.BuildRun(false, m, m, true, C.Finishes)) }

  /** The other way round is not: with the context changed, export and then build.  The export
      records the new hash over the old image, and every later one skips, although no hash
      returns, no run is stopped and the tag is up to date by then. */
  lemma {:induction false} OldImageStays(history: seq<Context>, digest: string -> string, i: nat, j: nat)
    requires IsDigest(digest) && i <= j < |history| && Hash(digest, history, i) != Hash(digest, history, j)
    ensures var acts := [BuildAt(i), Export(Plain(j)), BuildAt(j)];
            && Timely(acts, 0, history) && AllCareful(CLEAN, acts, 0, history, digest)
            && !AlwaysSkipsFresh(CLEAN, acts, 0, history, digest)
    ensures var s1 := Step(CLEAN, BuildAt(i), 0, history, digest);
            var s2 := Step(s1, Export(Plain(j)), i, history, digest);
            var s3 := Step(s2, BuildAt(j), j, history, digest);
            && R.UpToDate(s3.rootfs, Plain(j), Hash(digest, history, j))
            && s3.from == Some(i) && s3.cache.tag == Some(j) && history[i] != history[j]
  {
    hide Timely, AllCareful, AlwaysSkipsFresh;
    var a, b, d := BuildAt(i), Export(Plain(j)), BuildAt(j);
    var h, k := Hash(digest, history, i), Hash(digest, history, j);
    assert |h| == |k| == HEX_LENGTH;
    var s1 := Step(CLEAN, a, 0, history, digest);
    assert s1 == State(C.CacheState(Some(h), Some(i)), R.CLEAN, None);
    var s2 := Step(s1, b, i, history, digest);
    assert s2 == State(C.CacheState(Some(h), Some(i)), R.ExportState(Some(k), R.Complete(k)), Some(i));
    var s3 := Step(s2, d, j, history, digest);
    assert s3 == State(C.CacheState(Some(k), Some(j)), R.ExportState(Some(k), R.Complete(k)), Some(i));
    assert R.UpToDate(s3.rootfs, Plain(j), k) && !SameContext(s3.from, j, history);
    ThreeActs(a, b, d, history, digest);
  }
}
