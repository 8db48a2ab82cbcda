/** Language specifications on disk: validation, loading and filtering. */
module ImageSpecs {
  import opened Option
  import opened Paths
  import opened LangFilter
  import opened ResourceLimits

  datatype Version = Version(baseImage: string, buildCmd: seq<string>, runCmd: seq<string>)

  datatype ImageSpec = ImageSpec(
    name: string, kind: string, filename: string, defaultVersion: string,
    env: map<string, string>, limits: Limits, compileLimits: CompileLimits,
    setup: seq<string>, versions: map<string, Version>)

  datatype Entry = Entry(dir: Path, spec: ImageSpec)

  /** seq order lists a finite set, each element once: the order in which Go happens to walk
      a map. */
  ghost predicate Lists(order: seq<string>, keys: set<string>) {
    && (forall x :: x in order <==> x in keys)
    && (forall i, j :: 0 <= i < j < |order| ==> order[i] != order[j])
  }

  // -------------------------------------------------------------- validation

  datatype SpecError =
    | NameRequired | TypeRequired | BadType | FilenameRequired | DefaultRequired | NoVersions
    | BaseImageRequired(version: string) | BuildCmdRequired(version: string) | RunCmdRequired(version: string)
    | DefaultUndefined

  predicate ValidVersion(spec: ImageSpec, v: Version) {
    v.baseImage != "" && (spec.kind == "compiled" ==> v.buildCmd != []) && v.runCmd != []
  }

  predicate ValidSpec(spec: ImageSpec) {
    && spec.name != "" && (spec.kind == "interpreted" || spec.kind == "compiled")
    && spec.filename != "" && spec.defaultVersion != ""
    && spec.defaultVersion in spec.versions
    && forall v :: v in spec.versions ==> ValidVersion(spec, spec.versions[v])
  }

  method ValidateSpec(spec: ImageSpec, order: seq<string>) returns (error: Option<SpecError>)
    requires Lists(order, spec.versions.Keys)
    ensures error == None <==> ValidSpec(spec)
    ensures error == None <==>
      && spec.name != "" && spec.kind in {"interpreted", "compiled"} && spec.filename != ""
      && spec.defaultVersion != "" && spec.defaultVersion in spec.versions
      && (forall v :: v in spec.versions ==>
            && spec.versions[v].baseImage != "" && spec.versions[v].runCmd != []
            && (spec.kind == "compiled" ==> spec.versions[v].buildCmd != []))
    ensures error.Some? && error.value.RunCmdRequired? ==>
      error.value.version in spec.versions && spec.versions[error.value.version].runCmd == []
    ensures error.Some? && error.value.BaseImageRequired? ==>
      error.value.version in spec.versions && spec.versions[error.value.version].baseImage == ""
    ensures error.Some? && error.value.BuildCmdRequired? ==>
      error.value.version in spec.versions && spec.versions[error.value.version].buildCmd == []
  {
    if spec.name == "" { return Some(NameRequired); }
    if spec.kind == "" { return Some(TypeRequired); }
    if spec.kind != "interpreted" && spec.kind != "compiled" { return Some(BadType); }
    if spec.filename == "" { return Some(FilenameRequired); }
    if spec.defaultVersion == "" { return Some(DefaultRequired); }
    if |spec.versions| == 0 { return Some(NoVersions); }
    var found := false;
    for k := 0 to |order|
      invariant found <==> spec.defaultVersion in order[..k]
      invariant forall v :: v in order[..k] ==> ValidVersion(spec, spec.versions[v])
    {
      assert order[k] in order;
      var version := spec.versions[order[k]];
      if version.baseImage == "" { return Some(BaseImageRequired(order[k])); }
      if spec.kind == "compiled" && |version.buildCmd| == 0 { return Some(BuildCmdRequired(order[k])); }
      if |version.runCmd| == 0 { return Some(RunCmdRequired(order[k])); }
      if order[k] == spec.defaultVersion { found := true; }
    }
    assert order[..|order|] == order;
    if !found { return Some(DefaultUndefined); }
    error := None;
  }

  // --------------------------------------------------------- version filtering

  function Kept<V>(versions: map<string, V>, wanted: seq<string>): map<string, V> {
    map v | v in versions && v in wanted :: versions[v]
  }

  function Missing<V>(versions: map<string, V>, wanted: seq<string>): seq<string> {
    if wanted == [] then []
    else (if wanted[0] in versions then [] else [wanted[0]]) + Missing(versions, wanted[1..])
  }

  lemma {:induction false} MissingAppend<V>(versions: map<string, V>, wanted: seq<string>, v: string)
    ensures Missing(versions, wanted + [v]) == Missing(versions, wanted) + (if v in versions then [] else [v])
  {
    if wanted == [] {
      assert wanted + [v] == [v] && [v][1..] == [];
    } else {
      assert (wanted + [v])[1..] == wanted[1..] + [v];
      MissingAppend(versions, wanted[1..], v);
    }
  }

  lemma {:induction false} MissingMeans<V>(versions: map<string, V>, wanted: seq<string>)
    ensures forall v :: v in Missing(versions, wanted) <==> v in wanted && v !in versions
  {
    if wanted != [] {
      MissingMeans(versions, wanted[1..]);
      assert wanted == [wanted[0]] + wanted[1..];
    }
  }

  lemma {:induction false} NothingAsked<V>(versions: map<string, V>)
    ensures Kept(versions, []) == map[] && Missing(versions, []) == []
  {
  }

  lemma {:induction false} KeptAppend<V>(versions: map<string, V>, wanted: seq<string>, v: string)
    ensures Kept(versions, wanted + [v]) == if v in versions then Kept(versions, wanted)[v := versions[v]] else Kept(versions, wanted)
  {
  }

  lemma {:induction false} KeptMeans<V>(versions: map<string, V>, wanted: seq<string>)
    ensures forall v :: v in Kept(versions, wanted) <==> v in wanted && v in versions
    ensures forall v :: v in Kept(versions, wanted) ==> Kept(versions, wanted)[v] == versions[v]
  {
  }

  method FilterVersions<V>(versions: map<string, V>, requested: seq<string>)
    returns (kept: map<string, V>, missing: seq<string>)
    ensures kept == Kept(versions, requested)
    ensures missing == Missing(versions, requested)
    ensures forall v :: v in kept <==> v in requested && v in versions
    ensures forall v :: v in kept ==> kept[v] == versions[v]
    ensures forall v :: v in missing <==> v in requested && v !in versions
  {
    hide Kept, Missing;
    NothingAsked(versions);
    assert requested[..0] == [];
    kept, missing := map[], [];
    for k := 0 to |requested|
      invariant kept == Kept(versions, requested[..k])
      invariant missing == Missing(versions, requested[..k])
    {
      var v := requested[k];
      assert requested[..k + 1] == requested[..k] + [v];
      MissingAppend(versions, requested[..k], v);
      KeptAppend(versions, requested[..k], v);
      if v in versions {
        kept := kept[v := versions[v]];
      } else {
        missing := missing + [v];
      }
    }
    assert requested[..|requested|] == requested;
    MissingMeans(versions, requested);
    KeptMeans(versions, requested);
  }

  /** What a request leaves of a language's versions. */
  function Narrow<V>(versions: map<string, V>, r: Request): map<string, V> {
    if r.All? || r.versions == [] then versions else Kept(versions, r.versions)
  }

  /** Every version asked for exists. */
  predicate Satisfiable<V>(versions: map<string, V>, r: Request) {
    r.All? || forall v :: v in r.versions ==> v in versions
  }

  // ------------------------------------------------------------------ loading

  /** What reading a directory's specification gives. */
  datatype SpecFile = NoSpec | BadSpec | Spec(spec: ImageSpec)

  /** The image directory: its specification files by cleaned path, and the names of its
      subdirectories in directory order. */
  datatype Tree = Tree(files: map<Path, SpecFile>, subdirs: seq<string>)

  function SpecAt(t: Tree, p: Path): SpecFile { if p in t.files then t.files[p] else NoSpec }

  datatype LoadError =
    | DirUnreadable | SpecNotFound(lang: string) | SpecUnreadable(dir: Path)
    | UnknownVersions(lang: string, missing: seq<string>)

  /** The outcome for one language of a filter. */
  datatype Loaded = Failed(error: LoadError) | Ok(entry: Entry)

  function LoadOne(t: Tree, lang: string, r: Request): Loaded {
    match SpecAt(t, Rel(lang))
    case NoSpec => Failed(SpecNotFound(lang))
    case BadSpec => Failed(SpecUnreadable(Rel(lang)))
    case Spec(spec) =>
      if Satisfiable(spec.versions, r)
      then Ok(Entry(Rel(lang), spec.(versions := Narrow(spec.versions, r))))
      else Failed(UnknownVersions(lang, Missing(spec.versions, r.versions)))
  }

  /** What loading one language gives, in terms of the file and the request: the specification in
      the cleaned directory, with the versions asked for, or with all when none are named; and
      otherwise the reason, naming exactly the versions that do not exist. */
  lemma {:induction false} LoadOneExactly(t: Tree, lang: string, r: Request)
    ensures var file := if Rel(lang) in t.files then t.files[Rel(lang)] else NoSpec; var o := LoadOne(t, lang, r);
            match file
            case NoSpec => o == Failed(SpecNotFound(lang))
            case BadSpec => o == Failed(SpecUnreadable(Rel(lang)))
            case Spec(spec) =>
              if r.All? || forall v :: v in r.versions ==> v in spec.versions then
                && o.Ok? && o.entry.dir == Rel(lang) && o.entry.spec == spec.(versions := o.entry.spec.versions)
                && (forall v :: v in o.entry.spec.versions <==> v in spec.versions && (r.All? || r.versions == [] || v in r.versions))
                && (forall v :: v in o.entry.spec.versions ==> o.entry.spec.versions[v] == spec.versions[v])
              else
                && o.Failed? && o.error.UnknownVersions? && o.error.lang == lang
                && forall v :: v in o.error.missing <==> v in r.versions && v !in spec.versions
  {
    if SpecAt(t, Rel(lang)).Spec? && r.Only? { MissingMeans(SpecAt(t, Rel(lang)).spec.versions, r.versions); }
    hide Rel;
  }

  predicate LoadsAll(t: Tree, f: LangFilter) { forall lang :: lang in f ==> LoadOne(t, lang, f[lang]).Ok? }

  /** The outcomes for the languages of a filter, in a given order. */
  function Outcomes(t: Tree, f: LangFilter, order: seq<string>): seq<Loaded>
    requires forall lang :: lang in order ==> lang in f
  {
    seq(|order|, k requires 0 <= k < |order| => LoadOne(t, order[k], f[order[k]]))
  }

  function ErrorsIn(os: seq<Loaded>): seq<LoadError> {
    if os == [] then [] else
    var n := |os| - 1;
    ErrorsIn(os[..n]) + (match os[n] case Failed(e) => [e] case Ok(_) => [])
  }

  function EntriesIn(os: seq<Loaded>): seq<Entry> {
    if os == [] then [] else
    var n := |os| - 1;
    EntriesIn(os[..n]) + (match os[n] case Failed(_) => [] case Ok(entry) => [entry])
  }

  lemma {:induction false} AllOk(os: seq<Loaded>)
    ensures ErrorsIn(os) == [] <==> forall o :: o in os ==> o.Ok?
    ensures ErrorsIn(os) == [] ==> |EntriesIn(os)| == |os| && forall k :: 0 <= k < |os| ==> os[k] == Ok(EntriesIn(os)[k])
  {
    if os != [] {
      var n := |os| - 1;
      AllOk(os[..n]);
      assert os == os[..n] + [os[n]];
      assert os[n] in os && forall o :: o in os <==> o in os[..n] || o == os[n];
    }
  }

  method LoadLanguage(t: Tree, lang: string, r: Request) returns (o: Loaded)
    ensures o == LoadOne(t, lang, r)
  {
    match SpecAt(t, Rel(lang)) {
      case NoSpec => o := Failed(SpecNotFound(lang));
      case BadSpec => o := Failed(SpecUnreadable(Rel(lang)));
      case Spec(loaded) =>
        var spec := loaded;
        if r.Only? && |r.versions| > 0 {
          var newVersions, missing := FilterVersions(spec.versions, r.versions);
          MissingMeans(spec.versions, r.versions);
          if |missing| > 0 {
            assert missing[0] in missing;
            return Failed(UnknownVersions(lang, missing));
          }
          forall v | v in r.versions ensures v in spec.versions { assert v !in missing; }
          spec := spec.(versions := newVersions);
        }
        o := Ok(Entry(Rel(lang), spec));
    }
  }

  method LoadFiltered(t: Tree, f: LangFilter, order: seq<string>) returns (entries: seq<Entry>, errs: seq<LoadError>)
    requires Lists(order, f.Keys)
    ensures errs == ErrorsIn(Outcomes(t, f, order))
    ensures entries == if errs == [] then EntriesIn(Outcomes(t, f, order)) else []
    ensures errs == [] <==> forall lang :: lang in f ==> LoadOne(t, lang, f[lang]).Ok?
    ensures errs == [] ==> |entries| == |order| && forall k :: 0 <= k < |order| ==> LoadOne(t, order[k], f[order[k]]) == Ok(entries[k])
    ensures forall e :: e in errs <==> exists lang :: lang in f && LoadOne(t, lang, f[lang]) == Failed(e)
  {
    entries, errs := LoadEach(t, f, order);
    hide LoadOne, Outcomes, ErrorsIn, EntriesIn;
    LoadsWhenAllLoad(t, f, order);
    FailuresIn(Outcomes(t, f, order));
    FailuresNamed(t, f, order);
    if |errs| > 0 { entries := []; }
  }

  /** The walk over the filter. */
  method LoadEach(t: Tree, f: LangFilter, order: seq<string>) returns (entries: seq<Entry>, errs: seq<LoadError>)
    requires Lists(order, f.Keys)
    ensures errs == ErrorsIn(Outcomes(t, f, order))
    ensures entries == EntriesIn(Outcomes(t, f, order))
  {
    hide LoadOne;
    entries, errs := [], [];
    ghost var os := Outcomes(t, f, order);
    for k := 0 to |order|
      invariant errs == ErrorsIn(os[..k])
      invariant entries == EntriesIn(os[..k])
    {
      assert order[k] in order;
      assert os[..k + 1] == os[..k] + [os[k]];
      var o := LoadLanguage(t, order[k], f[order[k]]);
      match o {
        case Failed(e) => errs := errs + [e];
        case Ok(entry) => entries := entries + [entry];
      }
    }
    assert os[..|order|] == os;
  }

  lemma {:induction false} FailuresIn(os: seq<Loaded>)
    ensures forall e :: e in ErrorsIn(os) <==> Failed(e) in os
  {
    if os != [] {
      var n := |os| - 1;
      FailuresIn(os[..n]);
      assert os == os[..n] + [os[n]];
    }
  }

  lemma {:induction false} FailuresNamed(t: Tree, f: LangFilter, order: seq<string>)
    requires Lists(order, f.Keys)
    ensures forall e :: Failed(e) in Outcomes(t, f, order) <==> exists lang :: lang in f && LoadOne(t, lang, f[lang]) == Failed(e)
  {
    hide LoadOne;
    var os := Outcomes(t, f, order);
    forall e | Failed(e) in os ensures exists lang :: lang in f && LoadOne(t, lang, f[lang]) == Failed(e) {
      var k :| 0 <= k < |os| && os[k] == Failed(e);
      assert order[k] in order && LoadOne(t, order[k], f[order[k]]) == Failed(e);
    }
    forall e, lang | lang in f && LoadOne(t, lang, f[lang]) == Failed(e) ensures Failed(e) in os {
      assert lang in order;
      var k :| 0 <= k < |order| && order[k] == lang;
      assert os[k] == Failed(e);
    }
  }

  /** A filter loads exactly when every language of it does, whatever the order. */
  lemma {:induction false} LoadsWhenAllLoad(t: Tree, f: LangFilter, order: seq<string>)
    requires Lists(order, f.Keys)
    ensures ErrorsIn(Outcomes(t, f, order)) == [] <==> LoadsAll(t, f)
    ensures LoadsAll(t, f) ==>
      var es := EntriesIn(Outcomes(t, f, order));
      |es| == |order| && forall k :: 0 <= k < |order| ==> LoadOne(t, order[k], f[order[k]]) == Ok(es[k])
  {
    hide LoadOne;
    var os := Outcomes(t, f, order);
    AllOk(os);
    if forall o :: o in os ==> o.Ok? {
      forall lang | lang in f ensures LoadOne(t, lang, f[lang]).Ok? {
        var k :| 0 <= k < |order| && order[k] == lang;
        assert os[k] in os;
      }
    } else {
      var o :| o in os && !o.Ok?;
      var k :| 0 <= k < |os| && os[k] == o;
      assert order[k] in order;
    }
  }

  /** Without a filter every subdirectory with a specification is loaded, in directory order. */
  function AllEntries(t: Tree, names: seq<string>): seq<Entry> {
    if names == [] then [] else OwnEntry(t, names[0]) + AllEntries(t, names[1..])
  }

  function OwnEntry(t: Tree, n: string): seq<Entry> {
    match SpecAt(t, [n])
    case Spec(spec) => [Entry([n], spec)]
    case _ => []
  }

  /** The specifications that cannot be read, in directory order. */
  function AllErrors(t: Tree, names: seq<string>): seq<LoadError> {
    if names == [] then [] else OwnBad(t, names[0]) + AllErrors(t, names[1..])
  }

  function OwnBad(t: Tree, n: string): seq<LoadError> { if SpecAt(t, [n]).BadSpec? then [SpecUnreadable([n])] else [] }

  predicate NoneBad(t: Tree) { forall n :: n in t.subdirs ==> !SpecAt(t, [n]).BadSpec? }

  lemma {:induction false} ErrorsExactly(t: Tree, names: seq<string>)
    ensures AllErrors(t, names) == [] <==> forall n :: n in names ==> !SpecAt(t, [n]).BadSpec?
  {
    hide SpecAt;
    if names != [] {
      ErrorsExactly(t, names[1..]);
      assert names == [names[0]] + names[1..];
    }
  }

  lemma {:induction false} WalkOn(t: Tree, names: seq<string>, k: nat)
    requires k < |names|
    ensures AllEntries(t, names[k..]) == OwnEntry(t, names[k]) + AllEntries(t, names[k + 1..])
    ensures AllErrors(t, names[k..]) == OwnBad(t, names[k]) + AllErrors(t, names[k + 1..])
  {
    hide OwnEntry, OwnBad;
    assert names[k..][1..] == names[k + 1..];
  }

  /** What an unfiltered load finds: every subdirectory with a specification, and every one that
      cannot be read. */
  lemma {:induction false} AllExactly(t: Tree, names: seq<string>)
    ensures forall e :: e in AllEntries(t, names) <==>
      |e.dir| == 1 && e.dir[0] in names && e.dir in t.files && t.files[e.dir] == Spec(e.spec)
    ensures forall e :: e in AllErrors(t, names) <==>
      e.SpecUnreadable? && |e.dir| == 1 && e.dir[0] in names && e.dir in t.files && t.files[e.dir] == BadSpec
  {
    if names != [] {
      AllExactly(t, names[1..]);
      OwnExactly(t, names[0]);
      hide OwnEntry, OwnBad, SpecAt;
      assert names == [names[0]] + names[1..];
    }
  }

  lemma {:induction false} OwnExactly(t: Tree, n: string)
    ensures forall e :: e in OwnEntry(t, n) <==> |e.dir| == 1 && e.dir[0] == n && e.dir in t.files && t.files[e.dir] == Spec(e.spec)
    ensures forall e :: e in OwnBad(t, n) <==>
      e.SpecUnreadable? && |e.dir| == 1 && e.dir[0] == n && e.dir in t.files && t.files[e.dir] == BadSpec
  {
    forall d: Path | |d| == 1 && d[0] == n ensures d == [n] {}
  }

  method LoadAll(t: Tree, dirOk: bool) returns (entries: seq<Entry>, errs: seq<LoadError>)
    ensures errs == if dirOk then AllErrors(t, t.subdirs) else [DirUnreadable]
    ensures errs == [] <==> dirOk && NoneBad(t)
    ensures entries == if errs == [] then AllEntries(t, t.subdirs) else []
  {
    hide SpecAt, AllEntries, AllErrors;
    entries, errs := [], [];
    if !dirOk { return [], [DirUnreadable]; }
    var names := t.subdirs;
    ErrorsExactly(t, names);
    Walked(t);
    for k := 0 to |names|
      invariant errs + AllErrors(t, names[k..]) == AllErrors(t, names)
      invariant entries + AllEntries(t, names[k..]) == AllEntries(t, names)
    {
      WalkOn(t, names, k);
      match SpecAt(t, [names[k]]) {
        case NoSpec =>
        case BadSpec => errs := errs + [SpecUnreadable([names[k]])];
        case Spec(spec) => entries := entries + [Entry([names[k]], spec)];
      }
    }
    assert names[|names|..] == [];
    if |errs| > 0 { entries := []; }
  }

  lemma {:induction false} Walked(t: Tree)
    ensures AllEntries(t, []) == [] && AllErrors(t, []) == []
  {
  }
}
