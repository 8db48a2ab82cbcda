/** The skip / build / remember protocol of build-images for one image, run after run, each
    stopped anywhere while the context moves on; and the names of the hash files. */
module ImageCaches {
  import opened Option
  import opened ContextHashes
  import opened Paths
  import opened Strings

  /** What one image leaves on the machine: its hash file, and the moment of the context its tag
      was built from. */
  datatype CacheState = CacheState(hashFile: Option<string>, tag: Option<nat>)

  /** Where a run ends: before it has decided, in the build, after the build, having written
      only so much of the hash file, or at its end. */
  datatype Fate = FailsEarly | BuildFails | StopsAfterBuild | StopsWriting(written: nat) | Finishes

  /** The context is hashed at one moment and read by the build at another. */
  datatype BuildRun = BuildRun(noCache: bool, hashAt: nat, buildAt: nat, inspectOk: bool, fate: Fate)

  datatype Outcome = Skipped | Built | Failed

  predicate UpToDate(s: CacheState, r: BuildRun, hash: string) {
    !r.noCache && s.hashFile.Some? && s.hashFile.value != "" && s.hashFile.value == hash && s.tag.Some? && r.inspectOk
  }

  function After(s: CacheState, r: BuildRun, hash: string): (CacheState, Outcome) {
    if r.fate.FailsEarly? then (s, Failed)
    else if UpToDate(s, r, hash) then (s, Skipped)
    else match r.fate
      case StopsAfterBuild => (s.(tag := Some(r.buildAt)), Failed)
      case StopsWriting(n) => (CacheState(Some(Written(hash, n)), Some(r.buildAt)), Failed)
      case Finishes => (CacheState(Some(hash), Some(r.buildAt)), Built)
      case _ => (s, Failed)
  }

  const CACHE_DIR := ".image_cache"

  function FileName(language: string, version: string): string { language + "-" + version + ".hash" }

  /** filepath.Join of the cache directory and the file name, which may hold slashes. */
  function HashFile(language: string, version: string): Path {
    Walk([CACHE_DIR], Components(FileName(language, version)), false)
  }

  // ---------------------------------------------------------------- runs in sequence

  datatype Act = Run(r: BuildRun) | RemoveImage

  function Next(s: CacheState, a: Act, history: seq<Context>, digest: string -> string): CacheState
    requires InTime(a, history)
  {
    match a
    case Run(r) => After(s, r, Hash(digest, history, r.hashAt)).0
    case RemoveImage => s.(tag := None)
  }

  predicate InTime(a: Act, history: seq<Context>) { a.Run? ==> a.r.hashAt <= a.r.buildAt < |history| }

  /** The runs follow each other, from moment now on. */
  predicate Timely(acts: seq<Act>, now: nat, history: seq<Context>) {
    acts != [] ==>
      && InTime(acts[0], history)
      && (acts[0].Run? ==> now <= acts[0].r.hashAt)
      && Timely(acts[1..], if acts[0].Run? then acts[0].r.buildAt else now, history)
  }

  /** A skipped build means the tag was built from the very context the run saw. */
  predicate SkipSound(s: CacheState, a: Act, history: seq<Context>, digest: string -> string)
    requires InTime(a, history)
  {
    a.Run? && After(s, a.r, Hash(digest, history, a.r.hashAt)).1 == Skipped ==>
      s.tag.Some? && s.tag.value < |history| && history[s.tag.value] == history[a.r.hashAt]
  }

  ghost predicate AllSkipsSound(s: CacheState, acts: seq<Act>, now: nat, history: seq<Context>, digest: string -> string)
    requires Timely(acts, now, history)
    decreases |acts|
  {
    acts != [] ==>
      && SkipSound(s, acts[0], history, digest)
      && AllSkipsSound(Next(s, acts[0], history, digest), acts[1..], if acts[0].Run? then acts[0].r.buildAt else now, history, digest)
  }

  /** Between two moments with equal hashes the context was the same throughout. */
  ghost predicate Steady(history: seq<Context>, digest: string -> string) {
    forall i, j, k :: 0 <= i <= j <= k < |history| && Hash(digest, history, i) == Hash(digest, history, k)
      ==> history[j] == history[k]
  }

  /** A whole hash in the file was taken no later than the tag was built. */
  ghost predicate Inv(s: CacheState, now: nat, history: seq<Context>, digest: string -> string) {
    && (s.tag.Some? ==> s.tag.value <= now)
    && (s.hashFile.Some? && |s.hashFile.value| == HEX_LENGTH ==>
          exists v :: 0 <= v <= now && v < |history| && (s.tag.Some? ==> v <= s.tag.value)
            && Hash(digest, history, v) == s.hashFile.value)
  }

  lemma {:induction false} NextKeepsInv(s: CacheState, a: Act, now: nat, history: seq<Context>, digest: string -> string)
    requires IsDigest(digest) && Inv(s, now, history, digest) && InTime(a, history) && (a.Run? ==> now <= a.r.hashAt)
    ensures Inv(Next(s, a, history, digest), if a.Run? then a.r.buildAt else now, history, digest)
  {
  }

  lemma {:induction false} SoundNow(s: CacheState, a: Act, now: nat, history: seq<Context>, digest: string -> string)
    requires IsDigest(digest) && Steady(history, digest) && Inv(s, now, history, digest)
    requires InTime(a, history) && (a.Run? ==> now <= a.r.hashAt)
    ensures SkipSound(s, a, history, digest)
  {
  }

  lemma {:induction false} SteadySkipsSound(s: CacheState, acts: seq<Act>, now: nat, history: seq<Context>, digest: string -> string)
    requires IsDigest(digest) && Steady(history, digest) && Inv(s, now, history, digest) && Timely(acts, now, history)
    ensures AllSkipsSound(s, acts, now, history, digest)
    decreases |acts|
  {
    if acts != [] {
      SoundNow(s, acts[0], now, history, digest);
      NextKeepsInv(s, acts[0], now, history, digest);
      SteadySkipsSound(Next(s, acts[0], history, digest), acts[1..], if acts[0].Run? then acts[0].r.buildAt else now, history, digest);
    }
  }

  const CLEAN := CacheState(None, None)

  /** MAIN RESULT.  For one image on its own: over every sequence of runs, each stopped anywhere,
      a skipped build means the tag was built from the current context, if and only if the context's hashes never return
      to an earlier value once the context has moved, and never collide. */
  lemma {:induction false} SkipsSoundExactly(history: seq<Context>, digest: string -> string)
    requires IsDigest(digest)
    ensures Steady(history, digest) <==>
      forall acts :: Timely(acts, 0, history) ==> AllSkipsSound(CLEAN, acts, 0, history, digest)
  {
    if Steady(history, digest) {
      forall acts | Timely(acts, 0, history) ensures AllSkipsSound(CLEAN, acts, 0, history, digest) {
        SteadySkipsSound(CLEAN, acts, 0, history, digest);
      }
    } else {
      var i, j, k :| 0 <= i <= j <= k < |history| && Hash(digest, history, i) == Hash(digest, history, k) && history[j] != history[k];
      StaleSkip(history, digest, i, j, k);
    }
  }

  /** Unsoundness of the second of two runs shows. */
  lemma {:induction false} SecondUnsound(a: BuildRun, b: BuildRun, history: seq<Context>, digest: string -> string)
    requires InTime(Run(a), history) && InTime(Run(b), history) && a.buildAt <= b.hashAt
    requires !SkipSound(Next(CLEAN, Run(a), history, digest), Run(b), history, digest)
    ensures Timely([Run(a), Run(b)], 0, history)
    ensures !AllSkipsSound(CLEAN, [Run(a), Run(b)], 0, history, digest)
  {
    hide SkipSound, Next;
    assert [Run(a), Run(b)][1..] == [Run(b)] && [Run(b)][1..] == [];
    assert Timely([], b.buildAt, history);
    assert Timely([Run(b)], a.buildAt, history);
    assert !AllSkipsSound(Next(CLEAN, Run(a), history, digest), [Run(b)], a.buildAt, history, digest);
  }

  /** The context changes between hashing and building, and comes back. */
  lemma {:induction false} StaleSkip(history: seq<Context>, digest: string -> string, i: nat, j: nat, k: nat)
    requires IsDigest(digest) && i <= j <= k < |history|
    requires Hash(digest, history, i) == Hash(digest, history, k) && history[j] != history[k]
    ensures var acts := [Run(BuildRun(false, i, j, true, Finishes)), Run(BuildRun(false, k, k, true, Finishes))];
            Timely(acts, 0, history) && !AllSkipsSound(CLEAN, acts, 0, history, digest)
  {
    hide Timely, AllSkipsSound, SkipSound;
    var first, second := BuildRun(false, i, j, true, Finishes), BuildRun(false, k, k, true, Finishes);
    assert |Hash(digest, history, k)| == HEX_LENGTH;
    assert Next(CLEAN, Run(first), history, digest) == CacheState(Some(Hash(digest, history, i)), Some(j));
    StaleState(history, digest, j, k);
    SecondUnsound(first, second, history, digest);
  }

  /** With the current hash on file and an image built from another context, a run skips. */
  lemma {:induction false} StaleState(history: seq<Context>, digest: string -> string, j: nat, k: nat)
    requires j < |history| && k < |history| && history[j] != history[k] && |Hash(digest, history, k)| > 0
    ensures !SkipSound(CacheState(Some(Hash(digest, history, k)), Some(j)), Run(BuildRun(false, k, k, true, Finishes)), history, digest)
  {
    hide Hash;
  }

  /** A build that has finished is not repeated while the hash stays and the image is there. */
  lemma {:induction false} FinishedBuildIsSkipped(s: CacheState, r: BuildRun, again: BuildRun, hash: string)
    requires After(s, r, hash).1 in {Built, Skipped} && |hash| == HEX_LENGTH
    requires !again.noCache && again.inspectOk && !again.fate.FailsEarly?
    ensures After(After(s, r, hash).0, again, hash) == (After(s, r, hash).0, Skipped)
  {
  }

  // ------------------------------------------------------------------- file names

  /** The last component of a file name, and the directory the others lead to. */
  function LastPart(language: string, version: string): string {
    Last(FileName(language, version), '/')
  }

  function Folder(language: string, version: string): Path {
    var comps := Components(FileName(language, version)); Walk([CACHE_DIR], comps[..|comps| - 1], false)
  }

  lemma {:induction false} WalkLast(names: Path, comps: seq<string>, rooted: bool)
    requires comps != []
    ensures Walk(names, comps, rooted) == Push(Walk(names, comps[..|comps| - 1], rooted), comps[|comps| - 1], rooted)
    decreases |comps|
  {
    if |comps| == 1 {
      assert comps[..0] == [] && comps[1..] == [];
    } else {
      WalkLast(Push(names, comps[0], rooted), comps[1..], rooted);
      assert comps[1..][..|comps| - 2] == comps[..|comps| - 1][1..];
    }
  }

  /** A hash file is the last part of its name in the folder the rest leads to. */
  lemma {:induction false} HashFileParts(language: string, version: string)
    ensures HashFile(language, version) == Folder(language, version) + [LastPart(language, version)]
  {
    hide Split;
    LastPiece(language + "-" + version, ".hash", '/');
    WalkLast([CACHE_DIR], Components(FileName(language, version)), false);
  }

  /** Two images share a hash file exactly when their names clean to one folder and end alike. */
  lemma {:induction false} HashFilesCollideExactly(l1: string, v1: string, l2: string, v2: string)
    ensures HashFile(l1, v1) == HashFile(l2, v2) <==> Folder(l1, v1) == Folder(l2, v2) && LastPart(l1, v1) == LastPart(l2, v2)
  {
    hide Folder, LastPart, HashFile;
    HashFileParts(l1, v1);
    HashFileParts(l2, v2);
    var a, b := Folder(l1, v1) + [LastPart(l1, v1)], Folder(l2, v2) + [LastPart(l2, v2)];
    if a == b { assert a[..|a| - 1] == Folder(l1, v1) && b[..|b| - 1] == Folder(l2, v2); }
  }

  /** Without slashes: exactly when a dash of the one's language is the other's separator. */
  lemma {:induction false} PlainNamesCollideExactly(l1: string, v1: string, l2: string, v2: string)
    requires |l1| >= |l2| && '/' !in l1 + v1 + l2 + v2
    ensures HashFile(l1, v1) == HashFile(l2, v2) <==>
      (l1 == l2 && v1 == v2) || exists x :: l1 == l2 + "-" + x && v2 == x + "-" + v1
  {
    hide Folder, LastPart, HashFile;
    PlainParts(l1, v1);
    PlainParts(l2, v2);
    HashFilesCollideExactly(l1, v1, l2, v2);
    FileNamesCollideExactly(l1, v1, l2, v2);
  }

  lemma {:induction false} PlainParts(language: string, version: string)
    requires '/' !in language && '/' !in version
    ensures Folder(language, version) == [CACHE_DIR] && LastPart(language, version) == FileName(language, version)
  {
    SplitNone(FileName(language, version), '/');
  }

  /** Where the hash of a plain name lies. */
  lemma {:induction false} PlainHashFile(language: string, version: string)
    requires '/' !in language && '/' !in version
    ensures HashFile(language, version) == [".image_cache", language + "-" + version + ".hash"]
  {
    hide Folder, LastPart, HashFile;
    PlainParts(language, version);
    HashFileParts(language, version);
  }

  /** With slashes images can share one that have nothing in common: the part before ".." goes. */
  lemma {:induction false} SlashesMayCollide(l1: string, v1: string, l2: string, v2: string)
    requires '/' !in l1 && '/' !in v1
    ensures HashFile(l1, v1 + "/../" + l2 + "-" + v2) == HashFile(l2, v2)
  {
    hide Split, FileName;
    var first, rest := l1 + "-" + v1, Components(FileName(l2, v2));
    StepUpParts(l1, v1, l2, v2);
    assert first != "" && first != "." && first != ".." by { assert first[|l1|] == '-'; }
    assert ([first, ".."] + rest)[1..] == [".."] + rest && ([".."] + rest)[1..] == rest;
    assert Push([CACHE_DIR], first, false) == [CACHE_DIR, first];
    assert Push([CACHE_DIR, first], "..", false) == [CACHE_DIR];
    assert Walk([CACHE_DIR], [first, ".."] + rest, false) == Walk([CACHE_DIR, first], [".."] + rest, false);
  }

  lemma {:induction false} StepUpParts(l1: string, v1: string, l2: string, v2: string)
    requires '/' !in l1 && '/' !in v1
    ensures Components(FileName(l1, v1 + "/../" + l2 + "-" + v2)) == [l1 + "-" + v1, ".."] + Components(FileName(l2, v2))
  {
    hide Split;
    var first, last := l1 + "-" + v1, FileName(l2, v2);
    SplitAt(first, ".." + ['/'] + last, '/');
    SplitAt("..", last, '/');
    StepUpName(l1, v1, l2, v2);
    assert [first] + ([".."] + Split(last, '/')) == [first, ".."] + Split(last, '/');
  }

  lemma {:induction false} StepUpName(l1: string, v1: string, l2: string, v2: string)
    ensures FileName(l1, v1 + "/../" + l2 + "-" + v2) == l1 + "-" + v1 + ['/'] + (".." + ['/'] + FileName(l2, v2))
  {
    assert "/../" == ['/'] + ".." + ['/'];
  }

  lemma {:induction false} FileNamesCollideExactly(l1: string, v1: string, l2: string, v2: string)
    requires |l1| >= |l2|
    ensures FileName(l1, v1) == FileName(l2, v2) <==>
      (l1 == l2 && v1 == v2) || exists x :: l1 == l2 + "-" + x && v2 == x + "-" + v1
  {
    var n1, n2 := FileName(l1, v1), FileName(l2, v2);
    if n1 == n2 {
      assert l1 + "-" + v1 == n1[..|n1| - 5] && l2 + "-" + v2 == n2[..|n2| - 5];
      var m := l1 + "-" + v1;
      assert l2 == m[..|l2|] == l1[..|l2|] && v2 == m[|l2| + 1..];
      if |l1| == |l2| {
        assert v1 == m[|l1| + 1..];
      } else {
        var x := l1[|l2| + 1..];
        assert m[|l2|] == '-' == l1[|l2|];
        assert l1 == l2 + "-" + x && v2 == x + "-" + v1;
      }
    }
    forall x | l1 == l2 + "-" + x && v2 == x + "-" + v1 ensures n1 == n2 { SharedFile(l2, x, v1); }
  }

  lemma {:induction false} SharedFile(l: string, x: string, v: string)
    ensures FileName(l + "-" + x, v) == FileName(l, x + "-" + v)
  {
    assert (l + "-" + x) + "-" + v == l + "-" + (x + "-" + v);
  }
}
