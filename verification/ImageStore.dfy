/** build-images over all images at once: their hash files lie in one directory and their tags
    in one store, so one image can get in the way of another. */
module ImageStores {
  import opened Option
  import opened ContextHashes
  import opened Paths
  import opened Strings
  import C = ImageCaches

  datatype Image = Image(language: string, version: string, tag: string)

  /** The images, and the directories there are besides the cache directory. */
  datatype Setup = Setup(images: seq<Image>, folders: set<Path>)

  /** Which image a tag was built for, and from which moment of its context. */
  datatype Origin = Origin(image: nat, moment: nat)

  datatype Store = Store(hashFiles: map<Path, string>, tags: map<string, Origin>)

  const EMPTY := Store(map[], map[])

  function FileOf(img: Image): Path { C.HashFile(img.language, img.version) }

  /** Only the cache directory itself is made before the hash file is written. */
  predicate Writable(folders: set<Path>, img: Image) {
    var folder := C.Folder(img.language, img.version);
    folder == [C.CACHE_DIR] || folder in folders
  }

  /** Without its directory a hash file cannot be written. */
  function Grounded(r: C.BuildRun, writable: bool): C.BuildRun {
    if !writable && (r.fate.StopsWriting? || r.fate.Finishes?) then r.(fate := C.StopsAfterBuild) else r
  }

  /** What the store holds for one image. */
  function View(s: Store, img: Image): C.CacheState {
    C.CacheState(if FileOf(img) in s.hashFiles then Some(s.hashFiles[FileOf(img)]) else None,
                 if img.tag in s.tags then Some(s.tags[img.tag].moment) else None)
  }

  predicate MovesTag(s: C.CacheState, r: C.BuildRun, hash: string) {
    !r.fate.FailsEarly? && !r.fate.BuildFails? && !C.UpToDate(s, r, hash)
  }

  function BuildOne(s: Store, i: nat, img: Image, writable: bool, r: C.BuildRun, hash: string): (Store, C.Outcome) {
    var run, view := Grounded(r, writable), View(s, img);
    var (after, outcome) := C.After(view, run, hash);
    (Store(if after.hashFile.Some? then s.hashFiles[FileOf(img) := after.hashFile.value] else s.hashFiles,
           if MovesTag(view, run, hash) then s.tags[img.tag := Origin(i, r.buildAt)] else s.tags), outcome)
  }

  /** What a run does to the store, case by case. */
  lemma {:induction false} BuildOneExactly(s: Store, i: nat, img: Image, writable: bool, r: C.BuildRun, hash: string)
    ensures var file := FileOf(img);
            var skips := !r.fate.FailsEarly? && !r.noCache && r.inspectOk && hash != ""
                         && file in s.hashFiles && s.hashFiles[file] == hash && img.tag in s.tags;
            BuildOne(s, i, img, writable, r, hash) ==
              if skips then (s, C.Skipped)
              else if r.fate.FailsEarly? || r.fate.BuildFails? then (s, C.Failed)
              else (Store(if !writable || r.fate.StopsAfterBuild? then s.hashFiles
                          else s.hashFiles[file := if r.fate.StopsWriting? && r.fate.written < |hash| then hash[..r.fate.written] else hash],
                          s.tags[img.tag := Origin(i, r.buildAt)]),
                    if r.fate.Finishes? && writable then C.Built else C.Failed)
  {
    hide C.HashFile;
    if FileOf(img) in s.hashFiles { assert s.hashFiles[FileOf(img) := s.hashFiles[FileOf(img)]] == s.hashFiles; }
  }

  class ImageStore {
    const folders: set<Path>
    var hashFiles: map<Path, string>
    var tags: map<string, Origin>

    constructor (folders: set<Path>)
      ensures this.folders == folders && State() == EMPTY
    {
      this.folders, hashFiles, tags := folders, map[], map[];
    }

    function State(): Store
      reads this
    {
      Store(hashFiles, tags)
    }

    /** One goroutine of build-images, for image i. */
    method Build(i: nat, img: Image, r: C.BuildRun, hash: string) returns (outcome: C.Outcome)
      modifies this
      ensures (State(), outcome) == BuildOne(old(State()), i, img, Writable(folders, img), r, hash)
      ensures outcome == C.Skipped <==>
        && !r.fate.FailsEarly? && !r.noCache && r.inspectOk && hash != ""
        && FileOf(img) in old(hashFiles) && old(hashFiles)[FileOf(img)] == hash && img.tag in old(tags)
      ensures outcome == C.Skipped || r.fate.FailsEarly? || r.fate.BuildFails? ==> hashFiles == old(hashFiles) && tags == old(tags)
      ensures outcome != C.Skipped && !r.fate.FailsEarly? && !r.fate.BuildFails? ==>
        && tags == old(tags)[img.tag := Origin(i, r.buildAt)]
        && hashFiles == (if !Writable(folders, img) || r.fate.StopsAfterBuild? then old(hashFiles)
                         else old(hashFiles)[FileOf(img) :=
                           if r.fate.StopsWriting? && r.fate.written < |hash| then hash[..r.fate.written] else hash])
      ensures outcome == C.Built <==> outcome != C.Skipped && r.fate.Finishes? && Writable(folders, img)
      ensures forall f :: f != FileOf(img) ==> (f in hashFiles <==> f in old(hashFiles))
      ensures forall f :: f != FileOf(img) && f in hashFiles ==> hashFiles[f] == old(hashFiles)[f]
      ensures forall t :: t != img.tag ==> (t in tags <==> t in old(tags))
      ensures forall t :: t != img.tag && t in tags ==> tags[t] == old(tags)[t]
    {
      hide BuildOne, FileOf, Writable;
      BuildOneExactly(State(), i, img, Writable(folders, img), r, hash);
      var file, tag := FileOf(img), img.tag;
      var current := "";
      if file in hashFiles {
        current := hashFiles[file];
      }
      if r.fate.FailsEarly? { return C.Failed; }
      if !r.noCache && |current| > 0 {
        var inspected := tag in tags && r.inspectOk;
        if hash == current && inspected { return C.Skipped; }
      }
      if r.fate.BuildFails? { return C.Failed; }
      tags := tags[tag := Origin(i, r.buildAt)];
      if r.fate.StopsAfterBuild? { return C.Failed; }
      if !Writable(folders, img) { return C.Failed; }
      Rewritten(hashFiles, file, Written(hash, if r.fate.StopsWriting? then r.fate.written else 0));
      Rewritten(hashFiles, file, hash);
      hashFiles := hashFiles[file := ""];
      if r.fate.StopsWriting? {
        hashFiles := hashFiles[file := Written(hash, r.fate.written)];
        return C.Failed;
      }
      hashFiles := hashFiles[file := hash];
      return C.Built;
    }
  }

  lemma {:induction false} Rewritten(files: map<Path, string>, file: Path, content: string)
    ensures files[file := ""][file := content] == files[file := content]
  {
  }

  // ---------------------------------------------------------------- runs in sequence

  datatype Act = Build(i: nat, r: C.BuildRun) | RemoveTag(tag: string)

  predicate InTime(c: Setup, hs: seq<seq<Context>>, a: Act) {
    a.Build? ==> a.i < |c.images| == |hs| && a.r.hashAt <= a.r.buildAt < |hs[a.i]|
  }

  function Step(c: Setup, hs: seq<seq<Context>>, digest: string -> string, s: Store, a: Act): (Store, C.Outcome)
    requires InTime(c, hs, a)
  {
    match a
    case Build(i, r) =>
      BuildOne(s, i, c.images[i], Writable(c.folders, c.images[i]), r, Hash(digest, hs[i], r.hashAt))
    case RemoveTag(tag) => (Store(s.hashFiles, s.tags - {tag}), C.Failed)
  }

  /** Each image has its own clock: its runs follow each other. */
  function Moved(nows: seq<nat>, a: Act): seq<nat> {
    if a.Build? && a.i < |nows| then nows[a.i := a.r.buildAt] else nows
  }

  predicate Next(c: Setup, hs: seq<seq<Context>>, a: Act, nows: seq<nat>)
    requires |nows| == |c.images|
  {
    InTime(c, hs, a) && (a.Build? ==> nows[a.i] <= a.r.hashAt)
  }

  predicate Timely(c: Setup, hs: seq<seq<Context>>, acts: seq<Act>, nows: seq<nat>)
    requires |nows| == |c.images|
    decreases |acts|
  {
    acts != [] ==> Next(c, hs, acts[0], nows) && Timely(c, hs, acts[1..], Moved(nows, acts[0]))
  }

  predicate BuiltFrom(hs: seq<seq<Context>>, o: Origin, context: Context) {
    o.image < |hs| && o.moment < |hs[o.image]| && hs[o.image][o.moment] == context
  }

  /** A skipped build means the tag was built from the very context the run saw. */
  predicate SkipSound(c: Setup, hs: seq<seq<Context>>, digest: string -> string, s: Store, a: Act)
    requires InTime(c, hs, a)
  {
    a.Build? && Step(c, hs, digest, s, a).1 == C.Skipped ==>
      c.images[a.i].tag in s.tags && BuiltFrom(hs, s.tags[c.images[a.i].tag], hs[a.i][a.r.hashAt])
  }

  predicate AllSkipsSound(c: Setup, hs: seq<seq<Context>>, digest: string -> string, s: Store, acts: seq<Act>, nows: seq<nat>)
    requires |nows| == |c.images| && Timely(c, hs, acts, nows)
    decreases |acts|
  {
    acts != [] ==>
      && SkipSound(c, hs, digest, s, acts[0])
      && AllSkipsSound(c, hs, digest, Step(c, hs, digest, s, acts[0]).0, acts[1..], Moved(nows, acts[0]))
  }

  function Zeros(n: nat): seq<nat> { seq(n, _ => 0) }

  /** Every skip of every image is sound in every sequence of runs. */
  ghost predicate Sound(c: Setup, hs: seq<seq<Context>>, digest: string -> string) {
    forall acts :: Timely(c, hs, acts, Zeros(|c.images|)) ==> AllSkipsSound(c, hs, digest, EMPTY, acts, Zeros(|c.images|))
  }

  /** No image whose hash file can be written shares that file or its tag with another one. */
  predicate Apart(c: Setup) {
    forall i, j :: 0 <= i < |c.images| && 0 <= j < |c.images| && i != j && Writable(c.folders, c.images[i]) ==>
      FileOf(c.images[i]) != FileOf(c.images[j]) && c.images[i].tag != c.images[j].tag
  }

  ghost predicate AllSteady(c: Setup, hs: seq<seq<Context>>, digest: string -> string)
    requires |hs| == |c.images|
  {
    forall i :: 0 <= i < |c.images| && Writable(c.folders, c.images[i]) ==> C.Steady(hs[i], digest)
  }

  // -------------------------------------------------------------- images that are apart

  /** What holds of one image. */
  ghost predicate ImageInv(c: Setup, hs: seq<seq<Context>>, digest: string -> string, s: Store, now: nat, i: nat)
    requires i < |c.images| == |hs|
  {
    var img := c.images[i];
    if Writable(c.folders, img) then
      && C.Inv(View(s, img), now, hs[i], digest)
      && (img.tag in s.tags ==> s.tags[img.tag].image == i)
    else FileOf(img) !in s.hashFiles
  }

  ghost predicate Inv(c: Setup, hs: seq<seq<Context>>, digest: string -> string, s: Store, nows: seq<nat>) {
    && |c.images| == |hs| == |nows|
    && forall i :: 0 <= i < |c.images| ==> ImageInv(c, hs, digest, s, nows[i], i)
  }

  /** Images with one hash file have one folder. */
  lemma {:induction false} OneFileOneFolder(folders: set<Path>, a: Image, b: Image)
    requires FileOf(a) == FileOf(b)
    ensures Writable(folders, a) <==> Writable(folders, b)
  {
    hide C.Folder, C.HashFile;
    C.HashFilesCollideExactly(a.language, a.version, b.language, b.version);
  }

  /** The image that runs. */
  lemma {:induction false} OwnStep(c: Setup, hs: seq<seq<Context>>, digest: string -> string, s: Store, a: Act, now: nat)
    requires a.Build? && InTime(c, hs, a) && now <= a.r.hashAt && IsDigest(digest)
    requires ImageInv(c, hs, digest, s, now, a.i)
    ensures ImageInv(c, hs, digest, Step(c, hs, digest, s, a).0, a.r.buildAt, a.i)
    ensures C.Steady(hs[a.i], digest) || !Writable(c.folders, c.images[a.i]) ==> SkipSound(c, hs, digest, s, a)
  {
    var img := c.images[a.i];
    var own := C.Run(Grounded(a.r, Writable(c.folders, img)));
    OwnView(c, hs, digest, s, a);
    hide C.HashFile, Writable, C.Inv, C.After;
    if Writable(c.folders, img) {
      C.NextKeepsInv(View(s, img), own, now, hs[a.i], digest);
      if C.Steady(hs[a.i], digest) { C.SoundNow(View(s, img), own, now, hs[a.i], digest); }
    }
  }

  lemma {:induction false} OwnView(c: Setup, hs: seq<seq<Context>>, digest: string -> string, s: Store, a: Act)
    requires a.Build? && InTime(c, hs, a)
    ensures var img := c.images[a.i]; var own := C.Run(Grounded(a.r, Writable(c.folders, img)));
            var t := Step(c, hs, digest, s, a);
            && View(t.0, img) == C.Next(View(s, img), own, hs[a.i], digest)
            && t.1 == C.After(View(s, img), own.r, Hash(digest, hs[a.i], a.r.hashAt)).1
            && (img.tag in t.0.tags ==>
                  (img.tag in s.tags && t.0.tags[img.tag] == s.tags[img.tag]) || t.0.tags[img.tag] == Origin(a.i, a.r.buildAt))
            && (t.1 == C.Skipped ==> img.tag in s.tags && FileOf(img) in s.hashFiles)
            && (!Writable(c.folders, img) && FileOf(img) !in s.hashFiles ==> FileOf(img) !in t.0.hashFiles)
  {
    hide C.HashFile, Writable, Written, Hash;
  }

  /** The other images. */
  lemma {:induction false} OtherStep(c: Setup, hs: seq<seq<Context>>, digest: string -> string, s: Store, a: Act, now: nat, i: nat)
    requires Apart(c) && i < |c.images| == |hs| && InTime(c, hs, a) && (a.Build? ==> a.i != i)
    requires ImageInv(c, hs, digest, s, now, i)
    ensures ImageInv(c, hs, digest, Step(c, hs, digest, s, a).0, now, i)
  {
    var img, t := c.images[i], Step(c, hs, digest, s, a).0;
    if a.Build? {
      if FileOf(img) == FileOf(c.images[a.i]) { OneFileOneFolder(c.folders, img, c.images[a.i]); }
      OtherView(c, hs, digest, s, a, img);
    } else {
      hide C.HashFile, Writable;
    }
  }

  lemma {:induction false} OtherView(c: Setup, hs: seq<seq<Context>>, digest: string -> string, s: Store, a: Act, img: Image)
    requires a.Build? && InTime(c, hs, a)
    ensures var t, other := Step(c, hs, digest, s, a).0, c.images[a.i];
            && (FileOf(img) != FileOf(other) ==> (FileOf(img) in t.hashFiles <==> FileOf(img) in s.hashFiles)
                                                 && (FileOf(img) in s.hashFiles ==> t.hashFiles[FileOf(img)] == s.hashFiles[FileOf(img)]))
            && (img.tag != other.tag ==> (img.tag in t.tags <==> img.tag in s.tags)
                                         && (img.tag in s.tags ==> t.tags[img.tag] == s.tags[img.tag]))
            && (!Writable(c.folders, other) && FileOf(other) !in s.hashFiles ==> FileOf(other) !in t.hashFiles)
  {
    hide C.HashFile, Writable, Written, Hash;
  }

  lemma {:induction false} StepKeepsInv(c: Setup, hs: seq<seq<Context>>, digest: string -> string, s: Store, a: Act, nows: seq<nat>)
    requires IsDigest(digest) && Apart(c) && Inv(c, hs, digest, s, nows) && Next(c, hs, a, nows)
    ensures Inv(c, hs, digest, Step(c, hs, digest, s, a).0, Moved(nows, a))
  {
    hide Apart, ImageInv, Step;
    forall i | 0 <= i < |c.images| ensures ImageInv(c, hs, digest, Step(c, hs, digest, s, a).0, Moved(nows, a)[i], i) {
      if a.Build? && a.i == i {
        OwnStep(c, hs, digest, s, a, nows[i]);
      } else {
        OtherStep(c, hs, digest, s, a, nows[i], i);
      }
    }
  }

  lemma {:induction false} ApartSkipsSound(c: Setup, hs: seq<seq<Context>>, digest: string -> string, s: Store, acts: seq<Act>, nows: seq<nat>)
    requires IsDigest(digest) && Apart(c) && Inv(c, hs, digest, s, nows) && AllSteady(c, hs, digest)
    requires Timely(c, hs, acts, nows)
    ensures AllSkipsSound(c, hs, digest, s, acts, nows)
    decreases |acts|
  {
    hide Apart, ImageInv, Step, IsDigest;
    if acts != [] {
      var a := acts[0];
      StepKeepsInv(c, hs, digest, s, a, nows);
      if a.Build? { OwnStep(c, hs, digest, s, a, nows[a.i]); }
      ApartSkipsSound(c, hs, digest, Step(c, hs, digest, s, a).0, acts[1..], Moved(nows, a));
    }
  }

  lemma {:induction false} EmptyInv(c: Setup, hs: seq<seq<Context>>, digest: string -> string)
    requires |hs| == |c.images|
    ensures Inv(c, hs, digest, EMPTY, Zeros(|c.images|))
  {
    hide C.HashFile, Writable;
  }

  /** MAIN RESULT.  Among images that are apart, every skip of every image is sound in every
      sequence of runs, each stopped anywhere, when the contexts are steady. */
  lemma {:induction false} ApartAndSteadyIsSound(c: Setup, hs: seq<seq<Context>>, digest: string -> string)
    requires IsDigest(digest) && |hs| == |c.images| && Apart(c) && AllSteady(c, hs, digest)
    ensures Sound(c, hs, digest)
  {
    hide Apart, AllSteady, Inv;
    EmptyInv(c, hs, digest);
    forall acts | Timely(c, hs, acts, Zeros(|c.images|)) ensures AllSkipsSound(c, hs, digest, EMPTY, acts, Zeros(|c.images|)) {
      ApartSkipsSound(c, hs, digest, EMPTY, acts, Zeros(|c.images|));
    }
  }

  // ------------------------------------------------------------ images in each other's way

  function Plain(i: nat, moment: nat, buildAt: nat): Act { Build(i, C.BuildRun(false, moment, buildAt, true, C.Finishes)) }

  /** Two runs, the second of which skips wrongly. */
  lemma {:induction false} SecondUnsound(c: Setup, hs: seq<seq<Context>>, digest: string -> string, a: Act, b: Act)
    requires Next(c, hs, a, Zeros(|c.images|)) && Next(c, hs, b, Moved(Zeros(|c.images|), a))
    requires !SkipSound(c, hs, digest, Step(c, hs, digest, EMPTY, a).0, b)
    ensures !Sound(c, hs, digest)
  {
    hide SkipSound, Step, InTime;
    var zeros := Zeros(|c.images|);
    var nows := Moved(zeros, a);
    var s := Step(c, hs, digest, EMPTY, a).0;
    assert [a, b][1..] == [b] && [b][1..] == [];
    assert Timely(c, hs, [], Moved(nows, b));
    assert Timely(c, hs, [b], nows) && Timely(c, hs, [a, b], zeros);
    assert !SkipSound(c, hs, digest, s, [b][0]) && !AllSkipsSound(c, hs, digest, s, [b], nows);
    assert !AllSkipsSound(c, hs, digest, EMPTY, [a, b], zeros);
  }

  lemma {:induction false} ThirdUnsound(c: Setup, hs: seq<seq<Context>>, digest: string -> string, a: Act, b: Act, d: Act)
    requires Next(c, hs, a, Zeros(|c.images|)) && Next(c, hs, b, Moved(Zeros(|c.images|), a))
    requires Next(c, hs, d, Moved(Moved(Zeros(|c.images|), a), b))
    requires !SkipSound(c, hs, digest, Step(c, hs, digest, Step(c, hs, digest, EMPTY, a).0, b).0, d)
    ensures !Sound(c, hs, digest)
  {
    hide SkipSound, Step, InTime;
    var zeros := Zeros(|c.images|);
    var nows1 := Moved(zeros, a);
    var nows2 := Moved(nows1, b);
    var s1 := Step(c, hs, digest, EMPTY, a).0;
    var s2 := Step(c, hs, digest, s1, b).0;
    assert [a, b, d][1..] == [b, d] && [b, d][1..] == [d] && [d][1..] == [];
    assert Timely(c, hs, [], Moved(nows2, d));
    assert Timely(c, hs, [d], nows2);
    assert Timely(c, hs, [b, d], nows1);
    assert Timely(c, hs, [a, b, d], zeros);
    assert !SkipSound(c, hs, digest, s2, [d][0]) && !AllSkipsSound(c, hs, digest, s2, [d], nows2);
    assert !AllSkipsSound(c, hs, digest, s1, [b, d], nows1);
    assert !AllSkipsSound(c, hs, digest, EMPTY, [a, b, d], zeros);
  }

  /** What a plain run leaves that does not skip. */
  lemma {:induction false} PlainStep(c: Setup, hs: seq<seq<Context>>, digest: string -> string, s: Store, i: nat, moment: nat, buildAt: nat)
    requires InTime(c, hs, Plain(i, moment, buildAt)) && IsDigest(digest)
    ensures var img := c.images[i]; var hash := Hash(digest, hs[i], moment);
            var t := Step(c, hs, digest, s, Plain(i, moment, buildAt));
            if FileOf(img) in s.hashFiles && s.hashFiles[FileOf(img)] == hash && img.tag in s.tags then t == (s, C.Skipped)
            else t.0 == Store(if Writable(c.folders, img) then s.hashFiles[FileOf(img) := hash] else s.hashFiles,
                              s.tags[img.tag := Origin(i, buildAt)])
                 && t.1 != C.Skipped
  {
    hide C.HashFile, Writable;
    var img, hash := c.images[i], Hash(digest, hs[i], moment);
    assert |hash| == HEX_LENGTH;
    if FileOf(img) in s.hashFiles { assert s.hashFiles[FileOf(img) := s.hashFiles[FileOf(img)]] == s.hashFiles; }
  }

  // the contexts of the counterexample: the last two are hashed alike
  const CX := Context("x", "")
  const CY := Context("y", "")
  const CZ := Context("", "y")

  function Telling(b: string): string { seq(HEX_LENGTH, _ => if b == "x" then 'a' else 'b') }

  function Meeting(n: nat, i: nat, j: nat): seq<seq<Context>> {
    seq(n, k => if k == i then [CX, CY] else if k == j then [CZ] else [])
  }

  lemma {:induction false} TellingTells()
    ensures IsDigest(Telling) && Telling("x") != Telling("y")
  {
    assert Telling("x")[0] != Telling("y")[0];
  }

  lemma {:induction false} MeetingIsSteady(c: Setup, i: nat, j: nat)
    requires i < |c.images| && j < |c.images| && i != j
    ensures AllSteady(c, Meeting(|c.images|, i, j), Telling)
    ensures var hs := Meeting(|c.images|, i, j);
            && hs[i] == [CX, CY] && hs[j] == [CZ] && |hs| == |c.images|
            && Hash(Telling, hs[i], 0) == Telling("x") && Hash(Telling, hs[i], 1) == Hash(Telling, hs[j], 0) == Telling("y")
  {
    TellingTells();
    var hs := Meeting(|c.images|, i, j);
    assert "x" + "" == "x" && "y" + "" == "y" && "" + "y" == "y";
    forall k | 0 <= k < |c.images| ensures C.Steady(hs[k], Telling) {
    }
  }

  /** The first image is built, another one writes its hash file, and the first one comes to the
      other's hash. */
  lemma {:induction false} SharedFileSkipsWrongly(c: Setup, i: nat, j: nat)
    requires i < |c.images| && j < |c.images| && i != j && Writable(c.folders, c.images[i])
    requires FileOf(c.images[i]) == FileOf(c.images[j])
    ensures !Sound(c, Meeting(|c.images|, i, j), Telling)
  {
    hide Sound, C.HashFile, Writable, Hash, Telling, Meeting;
    var hs := Meeting(|c.images|, i, j);
    TellingTells();
    MeetingIsSteady(c, i, j);
    OneFileOneFolder(c.folders, c.images[i], c.images[j]);
    var a, b, d := Plain(i, 0, 0), Plain(j, 0, 0), Plain(i, 1, 1);
    var s1 := Step(c, hs, Telling, EMPTY, a).0;
    var s2 := Step(c, hs, Telling, s1, b).0;
    PlainStep(c, hs, Telling, EMPTY, i, 0, 0);
    PlainStep(c, hs, Telling, s1, j, 0, 0);
    PlainStep(c, hs, Telling, s2, i, 1, 1);
    hide Step;
    assert s2.hashFiles[FileOf(c.images[i])] == Telling("y");
    assert c.images[i].tag in s2.tags && s2.tags[c.images[i].tag] in {Origin(i, 0), Origin(j, 0)};
    assert hs[i][1] == CY && hs[i][0] == CX && hs[j][0] == CZ;
    ThirdUnsound(c, hs, Telling, a, b, d);
  }

  /** The first image is built, and another one takes its tag. */
  lemma {:induction false} SharedTagSkipsWrongly(c: Setup, i: nat, j: nat)
    requires i < |c.images| && j < |c.images| && i != j && Writable(c.folders, c.images[i])
    requires FileOf(c.images[i]) != FileOf(c.images[j]) && c.images[i].tag == c.images[j].tag
    ensures !Sound(c, Meeting(|c.images|, i, j), Telling)
  {
    hide Sound, C.HashFile, Writable, Hash, Telling, Meeting;
    var hs := Meeting(|c.images|, i, j);
    TellingTells();
    MeetingIsSteady(c, i, j);
    var a, b, d := Plain(i, 0, 0), Plain(j, 0, 0), Plain(i, 0, 0);
    var s1 := Step(c, hs, Telling, EMPTY, a).0;
    var s2 := Step(c, hs, Telling, s1, b).0;
    PlainStep(c, hs, Telling, EMPTY, i, 0, 0);
    PlainStep(c, hs, Telling, s1, j, 0, 0);
    PlainStep(c, hs, Telling, s2, i, 0, 0);
    hide Step;
    assert s2.hashFiles[FileOf(c.images[i])] == Telling("x");
    assert s2.tags[c.images[i].tag] == Origin(j, 0);
    assert hs[i][0] == CX && hs[j][0] == CZ;
    ThirdUnsound(c, hs, Telling, a, b, d);
  }

  /** MAIN RESULT.  For a set of images every skip is sound, whatever the contexts and the digest
      as long as each image's own context is steady, if and only if no image that can write its
      hash file shares it or its tag with another one. */
  lemma {:induction false} ImagesSoundExactly(c: Setup)
    ensures Apart(c) <==>
      forall hs, digest :: |hs| == |c.images| && IsDigest(digest) && AllSteady(c, hs, digest) ==> Sound(c, hs, digest)
  {
    hide AllSteady, Sound, Writable, C.HashFile;
    if Apart(c) {
      forall hs, digest | |hs| == |c.images| && IsDigest(digest) && AllSteady(c, hs, digest) ensures Sound(c, hs, digest) {
        ApartAndSteadyIsSound(c, hs, digest);
      }
    } else {
      var i, j :| 0 <= i < |c.images| && 0 <= j < |c.images| && i != j && Writable(c.folders, c.images[i])
                  && (FileOf(c.images[i]) == FileOf(c.images[j]) || c.images[i].tag == c.images[j].tag);
      TellingTells();
      MeetingIsSteady(c, i, j);
      if FileOf(c.images[i]) == FileOf(c.images[j]) { SharedFileSkipsWrongly(c, i, j); } else { SharedTagSkipsWrongly(c, i, j); }
      var hs := Meeting(|c.images|, i, j);
      assert |hs| == |c.images| && IsDigest(Telling) && AllSteady(c, hs, Telling) && !Sound(c, hs, Telling);
    }
  }

  /** MAIN RESULT.  For images that are apart every skip is sound if and only if the context of
      each image that can write its hash file is steady. */
  lemma {:induction false} SkipsSoundExactly(c: Setup, hs: seq<seq<Context>>, digest: string -> string)
    requires IsDigest(digest) && |hs| == |c.images| && Apart(c)
    ensures Sound(c, hs, digest) <==> AllSteady(c, hs, digest)
  {
    hide Sound, Apart, Writable, C.HashFile, IsDigest;
    if AllSteady(c, hs, digest) {
      ApartAndSteadyIsSound(c, hs, digest);
    } else {
      var n :| 0 <= n < |c.images| && Writable(c.folders, c.images[n]) && !C.Steady(hs[n], digest);
      var i, j, k :| 0 <= i <= j <= k < |hs[n]| && Hash(digest, hs[n], i) == Hash(digest, hs[n], k) && hs[n][j] != hs[n][k];
      StaleSkip(c, hs, digest, n, i, j, k);
    }
  }

  lemma {:induction false} StaleSkip(c: Setup, hs: seq<seq<Context>>, digest: string -> string, n: nat, i: nat, j: nat, k: nat)
    requires IsDigest(digest) && n < |hs| == |c.images| && Writable(c.folders, c.images[n])
    requires i <= j <= k < |hs[n]| && Hash(digest, hs[n], i) == Hash(digest, hs[n], k) && hs[n][j] != hs[n][k]
    ensures !Sound(c, hs, digest)
  {
    hide Sound, C.HashFile, Writable, Hash;
    var a, b := Plain(n, i, j), Plain(n, k, k);
    var s := Step(c, hs, digest, EMPTY, a).0;
    PlainStep(c, hs, digest, EMPTY, n, i, j);
    PlainStep(c, hs, digest, s, n, k, k);
    hide Step;
    SecondUnsound(c, hs, digest, a, b);
  }

  // --------------------------------------------------------------- a check on the names

  const TAG_PREFIX := "runboxd-"

  /** Names without slashes and colons, and the tag that gen-images gives. */
  predicate IsPlain(img: Image) {
    && '/' !in img.language && '/' !in img.version && ':' !in img.language && ':' !in img.version
    && img.tag == TAG_PREFIX + img.language + ":" + img.version
  }

  predicate SameNames(a: Image, b: Image) { a.language == b.language && a.version == b.version }

  /** A dash in the one's language reads as the other's separator: "a-b" and "c" against "a"
      and "b-c". */
  ghost predicate DashMeets(a: Image, b: Image) {
    exists x :: a.language == b.language + "-" + x && b.version == x + "-" + a.version
  }

  /** MAIN RESULT.  Plain images are apart exactly when no two are the same and no dash of a
      language reads as a separator. */
  lemma {:induction false} PlainImagesApartExactly(c: Setup)
    requires forall i :: 0 <= i < |c.images| ==> IsPlain(c.images[i])
    ensures Apart(c) <==>
      forall i, j :: 0 <= i < |c.images| && 0 <= j < |c.images| && i != j ==>
        !SameNames(c.images[i], c.images[j]) && !DashMeets(c.images[i], c.images[j])
  {
    hide IsPlain, SameNames, DashMeets, FileOf, Writable;
    forall i, j | 0 <= i < |c.images| && 0 <= j < |c.images| && i != j
      ensures Writable(c.folders, c.images[i])
      ensures FileOf(c.images[i]) == FileOf(c.images[j]) || c.images[i].tag == c.images[j].tag
        <==> SameNames(c.images[i], c.images[j]) || DashMeets(c.images[i], c.images[j]) || DashMeets(c.images[j], c.images[i])
    {
      PlainWritable(c.folders, c.images[i]);
      PlainPair(c.images[i], c.images[j]);
    }
  }

  lemma {:induction false} PlainWritable(folders: set<Path>, img: Image)
    requires IsPlain(img)
    ensures Writable(folders, img)
  {
    C.PlainParts(img.language, img.version);
  }

  lemma {:induction false} PlainPair(a: Image, b: Image)
    requires IsPlain(a) && IsPlain(b)
    ensures FileOf(a) == FileOf(b) || a.tag == b.tag <==> SameNames(a, b) || DashMeets(a, b) || DashMeets(b, a)
  {
    hide C.HashFile;
    TagsTell(a, b);
    hide IsPlain;
    if |a.language| >= |b.language| { PlainFiles(a, b); }
    if |b.language| >= |a.language| { PlainFiles(b, a); }
  }

  lemma {:induction false} PlainFiles(a: Image, b: Image)
    requires IsPlain(a) && IsPlain(b) && |a.language| >= |b.language|
    ensures FileOf(a) == FileOf(b) <==> SameNames(a, b) || DashMeets(a, b)
    ensures !DashMeets(b, a)
  {
    hide C.HashFile;
    C.PlainNamesCollideExactly(a.language, a.version, b.language, b.version);
  }

  lemma {:induction false} TagsTell(a: Image, b: Image)
    requires IsPlain(a) && IsPlain(b)
    ensures a.tag == b.tag <==> SameNames(a, b)
  {
    if a.tag == b.tag {
      var n := |TAG_PREFIX|;
      assert a.tag[n..] == a.language + [':'] + a.version && b.tag[n..] == b.language + [':'] + b.version;
      CutAt(a.language, a.version, ':');
      CutAt(b.language, b.version, ':');
    }
  }
}
