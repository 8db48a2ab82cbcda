/** gen-images: Dockerfiles with pinned base images, and a registry merged with what an
    earlier run left. */
module GenImages {
  import opened Option
  import opened Strings
  import opened Paths
  import opened ImageSpecs
  import opened Registries

  type Lockfile = map<string, map<string, string>>

  /** Reading a missing entry of a Go map gives the empty string. */
  function DigestOf(lock: Lockfile, lang: string, v: string): string {
    if lang in lock && v in lock[lang] then lock[lang][v] else ""
  }

  /** The base image with its digest in place of whatever followed an '@'. */
  function Pinned(base: string, digest: string): string {
    if digest == "" then base else Cut(base, '@').0 + "@" + digest
  }

  /** Pinning a pinned image again replaces its digest. */
  lemma {:induction false} PinnedAgain(base: string, stale: string, digest: string)
    requires stale != "" && digest != ""
    ensures Pinned(Pinned(base, stale), digest) == Pinned(base, digest)
  {
    CutAt(Cut(base, '@').0, stale, '@');
    assert Pinned(base, stale) == Cut(base, '@').0 + ['@'] + stale;
  }

  const IMAGE_PREFIX := "runboxd-"

  function VersionFor(spec: ImageSpec, v: string): RegVersion
    requires v in spec.versions
  {
    RegVersion(v, IMAGE_PREFIX + spec.name + ":" + v, spec.versions[v].runCmd, spec.versions[v].buildCmd)
  }

  function LanguageFor(spec: ImageSpec, versions: map<string, RegVersion>): Language {
    Language(spec.name, spec.kind, spec.filename, spec.defaultVersion, spec.env, spec.limits, spec.compileLimits, versions)
  }

  function Regenerated(spec: ImageSpec): map<string, RegVersion> {
    map v | v in spec.versions :: VersionFor(spec, v)
  }

  /** The versions of a language after a run that touched those of spec. */
  function MergedVersions(before: map<string, RegVersion>, spec: ImageSpec): map<string, RegVersion> {
    map v | v in before.Keys + spec.versions.Keys :: if v in spec.versions then VersionFor(spec, v) else before[v]
  }

  function VersionsIn(langs: Languages, l: string): map<string, RegVersion> {
    if l in langs then langs[l].versions else map[]
  }

  function MergeOne(langs: Languages, spec: ImageSpec): Languages {
    langs[spec.name := LanguageFor(spec, MergedVersions(VersionsIn(langs, spec.name), spec))]
  }

  function MergeAll(langs: Languages, specs: seq<ImageSpec>): Languages {
    if specs == [] then langs else MergeOne(MergeAll(langs, specs[..|specs| - 1]), specs[|specs| - 1])
  }

  /** What createDockerfile is given for a version. */
  datatype Dockerfile = Dockerfile(baseImage: string, kind: string, setup: seq<string>, buildCmd: seq<string>, runCmd: seq<string>)

  /** The Dockerfiles on disk by directory, below the image directory. */
  type Files = map<Path, Dockerfile>

  /** filepath.Join of the language's directory and the version's name. */
  function DirOf(e: Entry, v: string): Path { Walk(e.dir, Components(v), false) }

  function DockerfileFor(lock: Option<Lockfile>, spec: ImageSpec, v: string): Dockerfile
    requires v in spec.versions
  {
    var digest := if lock.Some? then DigestOf(lock.value, spec.name, v) else "";
    Dockerfile(Pinned(spec.versions[v].baseImage, digest), spec.kind, spec.setup,
               if spec.kind == "compiled" then spec.versions[v].buildCmd else [], spec.versions[v].runCmd)
  }

  /** Entries whose wrapper script can be read; the others are skipped. */
  function WithWrapper(entries: seq<Entry>, readable: set<Path>): seq<Entry> {
    if entries == [] then [] else
    var n := |entries| - 1;
    WithWrapper(entries[..n], readable) + (if entries[n].dir in readable then [entries[n]] else [])
  }

  function SpecsOf(entries: seq<Entry>): seq<ImageSpec> {
    seq(|entries|, k requires 0 <= k < |entries| => entries[k].spec)
  }

  /** The version can be generated: it is pinned when pinning is on, and the disk takes it. */
  predicate Generable(lock: Option<Lockfile>, diskFails: set<Path>, e: Entry, v: string) {
    (lock.Some? ==> DigestOf(lock.value, e.spec.name, v) != "") && DirOf(e, v) !in diskFails
  }

  predicate AllGenerable(lock: Option<Lockfile>, diskFails: set<Path>, e: Entry) {
    forall v :: v in e.spec.versions ==> Generable(lock, diskFails, e, v)
  }

  datatype Outcome =
    | Wrote(languages: Languages) | RegistryNotWritten
    | NoDigest(lang: string, version: string) | DiskError(dir: Path, version: string)

  /** The failure is about a version of the entry that really has it. */
  predicate Explains(o: Outcome, lock: Option<Lockfile>, diskFails: set<Path>, e: Entry) {
    match o
    case Wrote(_) => false
    case RegistryNotWritten => false
    case NoDigest(l, v) => l == e.spec.name && v in e.spec.versions && lock.Some? && DigestOf(lock.value, l, v) == ""
    case DiskError(d, v) => v in e.spec.versions && d == DirOf(e, v) && d in diskFails
  }

  predicate Locked(lock: Lockfile, lang: string, v: string) { lang in lock && v in lock[lang] && lock[lang][v] != "" }

  /** The registry entry of a version, field by field. */
  predicate IsEntry(r: RegVersion, spec: ImageSpec, v: string)
    requires v in spec.versions
  {
    && r.name == v && r.image == "runboxd-" + spec.name + ":" + v
    && r.runCmd == spec.versions[v].runCmd && r.buildCmd == spec.versions[v].buildCmd
  }

  /** The Dockerfile of a version, field by field: a locked digest replaces the one in the name. */
  predicate IsDockerfile(d: Dockerfile, lock: Option<Lockfile>, spec: ImageSpec, v: string)
    requires v in spec.versions
  {
    && d.baseImage == (if lock.Some? && Locked(lock.value, spec.name, v)
                       then Cut(spec.versions[v].baseImage, '@').0 + "@" + lock.value[spec.name][v] else spec.versions[v].baseImage)
    && d.kind == spec.kind && d.setup == spec.setup && d.runCmd == spec.versions[v].runCmd
    && d.buildCmd == (if spec.kind == "compiled" then spec.versions[v].buildCmd else [])
  }

  lemma {:induction false} FieldByField(lock: Option<Lockfile>, spec: ImageSpec, v: string)
    requires v in spec.versions
    ensures IsEntry(VersionFor(spec, v), spec, v) && IsDockerfile(DockerfileFor(lock, spec, v), lock, spec, v)
  {
  }

  /** The fields of a language besides its versions. */
  predicate IsLanguage(lang: Language, spec: ImageSpec) {
    && lang.name == spec.name && lang.kind == spec.kind && lang.filename == spec.filename
    && lang.defaultVersion == spec.defaultVersion && lang.env == spec.env
    && lang.limits == spec.limits && lang.compileLimits == spec.compileLimits
  }

  /** The readable entry k has the version, and no later readable one for its language has. */
  predicate LastWith(entries: seq<Entry>, readable: set<Path>, k: nat, v: string)
    requires k < |entries|
  {
    && entries[k].dir in readable && v in entries[k].spec.versions
    && forall j :: k < j < |entries| && entries[j].dir in readable && entries[j].spec.name == entries[k].spec.name ==>
         v !in entries[j].spec.versions
  }

  /** The readable entry k is the last one for its language. */
  predicate LastFor(entries: seq<Entry>, readable: set<Path>, k: nat)
    requires k < |entries|
  {
    entries[k].dir in readable
    && forall j :: k < j < |entries| && entries[j].dir in readable ==> entries[j].spec.name != entries[k].spec.name
  }

  /** No readable entry is for the language, or none that is has the version. */
  predicate NoneFor(entries: seq<Entry>, readable: set<Path>, l: string) {
    forall j :: 0 <= j < |entries| && entries[j].dir in readable ==> entries[j].spec.name != l
  }

  predicate NoneWith(entries: seq<Entry>, readable: set<Path>, l: string, v: string) {
    forall j :: 0 <= j < |entries| && entries[j].dir in readable && entries[j].spec.name == l ==> v !in entries[j].spec.versions
  }

  predicate SameVersion(a: Languages, b: Languages, l: string, v: string) {
    && (l in a && v in a[l].versions <==> l in b && v in b[l].versions)
    && (l in a && v in a[l].versions ==> a[l].versions[v] == b[l].versions[v])
  }

  /** What a run leaves in the registry: every version of every readable entry with its own image
      and commands, every language with its own fields, and besides them exactly what was there
      before. */
  ghost predicate RegistryHolds(languages: Languages, existing: Languages, entries: seq<Entry>, readable: set<Path>) {
    && (forall k, v :: 0 <= k < |entries| && LastWith(entries, readable, k, v) ==>
          && entries[k].spec.name in languages && v in languages[entries[k].spec.name].versions
          && IsEntry(languages[entries[k].spec.name].versions[v], entries[k].spec, v))
    && (forall k :: 0 <= k < |entries| && LastFor(entries, readable, k) ==>
          entries[k].spec.name in languages && IsLanguage(languages[entries[k].spec.name], entries[k].spec))
    && (forall l :: NoneFor(entries, readable, l) ==>
          (l in languages <==> l in existing) && (l in existing ==> languages[l] == existing[l]))
    && (forall l, v :: NoneWith(entries, readable, l, v) ==> SameVersion(languages, existing, l, v))
  }

  /** The file is the one for some version of the entry that has its directory there. */
  predicate IsOwnFile(lock: Option<Lockfile>, e: Entry, dir: Path, file: Dockerfile) {
    exists v :: v in e.spec.versions && DirOf(e, v) == dir && file == DockerfileFor(lock, e.spec, v)
  }

  /** Every version of the entry has a file. */
  predicate HasFiles(e: Entry, files: Files) { forall v :: v in e.spec.versions ==> DirOf(e, v) in files }

  /** Every file written is the one for a version of some entry. */
  ghost predicate AllOwnFiles(lock: Option<Lockfile>, entries: seq<Entry>, files: Files) {
    forall d :: d in files ==> exists e :: e in entries && IsOwnFile(lock, e, d, files[d])
  }

  lemma {:induction false} MoreOwnFiles(lock: Option<Lockfile>, before: seq<Entry>, e: Entry, files0: Files, files: Files)
    requires AllOwnFiles(lock, before, files0)
    requires forall d :: d in files ==> (d in files0 && files[d] == files0[d]) || IsOwnFile(lock, e, d, files[d])
    ensures AllOwnFiles(lock, before + [e], files)
  {
    hide IsOwnFile;
    assert e in before + [e] && forall x :: x in before ==> x in before + [e];
  }

  lemma {:induction false} FewerEntries(lock: Option<Lockfile>, some: seq<Entry>, all: seq<Entry>, files: Files)
    requires AllOwnFiles(lock, some, files) && forall e :: e in some ==> e in all
    ensures AllOwnFiles(lock, all, files)
  {
    hide IsOwnFile;
  }

  /** The versions an earlier run left that this one does not touch. */
  method Untouched(existing: map<string, RegVersion>, spec: ImageSpec) returns (kept: map<string, RegVersion>)
    ensures kept == map v | v in existing && v !in spec.versions :: existing[v]
  {
    kept := map[];
    var rest := existing.Keys;
    while rest != {}
      invariant rest <= existing.Keys
      invariant kept == map v | v in existing && v !in rest && v !in spec.versions :: existing[v]
    {
      var v :| v in rest;
      rest := rest - {v};
      if v !in spec.versions { kept := kept[v := existing[v]]; }
    }
  }

  /** One version: its Dockerfile and its registry entry, or why there is none. */
  method GenerateVersion(e: Entry, v: string, lock: Option<Lockfile>, diskFails: set<Path>)
    returns (failure: Option<Outcome>, file: Dockerfile, version: RegVersion)
    requires v in e.spec.versions
    ensures failure == None <==> Generable(lock, diskFails, e, v)
    ensures failure.Some? ==> Explains(failure.value, lock, diskFails, e)
    ensures failure == None ==> file == DockerfileFor(lock, e.spec, v) && version == VersionFor(e.spec, v)
    ensures failure == None <==> (lock.Some? ==> Locked(lock.value, e.spec.name, v)) && DirOf(e, v) !in diskFails
    ensures failure == None ==> IsEntry(version, e.spec, v) && IsDockerfile(file, lock, e.spec, v)
  {
    var spec := e.spec;
    var source := spec.versions[v];
    file := Dockerfile("", spec.kind, [], [], []);
    version := RegVersion(v, IMAGE_PREFIX + spec.name + ":" + v, source.runCmd, source.buildCmd);
    var digest := "";
    if lock.Some? { digest := DigestOf(lock.value, spec.name, v); }
    if lock.Some? && digest == "" {
      return Some(NoDigest(spec.name, v)), file, version;
    }
    if digest != "" {
      source := source.(baseImage := Cut(source.baseImage, '@').0 + "@" + digest);
    }
    if DirOf(e, v) in diskFails {
      return Some(DiskError(DirOf(e, v), v)), file, version;
    }
    file := Dockerfile(source.baseImage, spec.kind, spec.setup,
                       if spec.kind == "compiled" then source.buildCmd else [], source.runCmd);
    failure := None;
  }

  /** The versions generated so far, when those of rest are still to come. */
  function Part(spec: ImageSpec, rest: set<string>): map<string, RegVersion> {
    map v | v in spec.versions && v !in rest :: VersionFor(spec, v)
  }

  lemma {:induction false} PartGrows(spec: ImageSpec, kept: map<string, RegVersion>, rest: set<string>, v: string)
    requires v in rest && rest <= spec.versions.Keys
    ensures (kept + Part(spec, rest))[v := VersionFor(spec, v)] == kept + Part(spec, rest - {v})
  {
    hide VersionFor;
  }

  lemma {:induction false} PartBounds(e: Entry, existing: map<string, RegVersion>, kept: map<string, RegVersion>)
    requires kept == map v | v in existing && v !in e.spec.versions :: existing[v]
    ensures kept + Part(e.spec, e.spec.versions.Keys) == kept
    ensures kept + Part(e.spec, {}) == MergedVersions(existing, e.spec)
  {
    hide VersionFor;
  }

  /** One entry of the main loop: the language is replaced first, then its versions are added
      one by one. */
  method GenerateEntry(e: Entry, lock: Option<Lockfile>, diskFails: set<Path>, languages0: Languages, files0: Files)
    returns (failure: Option<Outcome>, languages: Languages, files: Files)
    ensures failure == None <==> AllGenerable(lock, diskFails, e)
    ensures failure.Some? ==> Explains(failure.value, lock, diskFails, e)
    ensures failure == None ==> languages == MergeOne(languages0, e.spec) && HasFiles(e, files)
    ensures files0.Keys <= files.Keys
    ensures forall d :: d in files ==> (d in files0 && files[d] == files0[d]) || IsOwnFile(lock, e, d, files[d])
  {
    hide Generable, Explains, VersionFor, DockerfileFor, Part, MergedVersions, IsOwnFile, DirOf, IsEntry, IsDockerfile, Locked;
    var spec := e.spec;
    var kept := Untouched(VersionsIn(languages0, spec.name), spec);
    PartBounds(e, VersionsIn(languages0, spec.name), kept);
    languages, files, failure := languages0[spec.name := LanguageFor(spec, kept)], files0, None;
    var rest := spec.versions.Keys;
    while rest != {}
      invariant rest <= spec.versions.Keys && failure == None
      invariant forall v :: v in spec.versions && v !in rest ==> Generable(lock, diskFails, e, v) && DirOf(e, v) in files
      invariant languages == languages0[spec.name := LanguageFor(spec, kept + Part(spec, rest))]
      invariant files0.Keys <= files.Keys
      invariant forall d :: d in files ==> (d in files0 && files[d] == files0[d]) || IsOwnFile(lock, e, d, files[d])
    {
      var v :| v in rest;
      var file, version;
      failure, file, version := GenerateVersion(e, v, lock, diskFails);
      assert failure == None <==> Generable(lock, diskFails, e, v);
      if failure.Some? { return; }
      PartGrows(spec, kept, rest, v);
      OwnFile(lock, e, v);
      files := files[DirOf(e, v) := file];
      var lang := languages[spec.name];
      languages := languages[spec.name := lang.(versions := lang.versions[v := version])];
      rest := rest - {v};
    }
  }

  lemma {:induction false} OwnFile(lock: Option<Lockfile>, e: Entry, v: string)
    requires v in e.spec.versions
    ensures IsOwnFile(lock, e, DirOf(e, v), DockerfileFor(lock, e.spec, v))
  {
  }

  lemma {:induction false} OneMoreEntry(entries: seq<Entry>, readable: set<Path>, k: nat)
    requires k < |entries|
    ensures var before := WithWrapper(entries[..k], readable);
            WithWrapper(entries[..k + 1], readable) == if entries[k].dir in readable then before + [entries[k]] else before
  {
    assert entries[..k + 1][..k] == entries[..k];
  }

  lemma {:induction false} OneMoreMerge(langs: Languages, before: seq<Entry>, e: Entry)
    ensures MergeAll(langs, SpecsOf(before + [e])) == MergeOne(MergeAll(langs, SpecsOf(before)), e.spec)
  {
    hide MergeOne;
    assert SpecsOf(before + [e])[..|before|] == SpecsOf(before);
  }

  /** The main loop.  The registry is written only when every version was generated; the files
      written until then stay, each the one of a version that has its directory there. */
  method GenImages(entries: seq<Entry>, readable: set<Path>, lock: Option<Lockfile>,
                   diskFails: set<Path>, registryOk: bool, existing: Languages)
    returns (o: Outcome, files: Files)
    ensures o.Wrote? || o.RegistryNotWritten? <==>
      forall e :: e in WithWrapper(entries, readable) ==> AllGenerable(lock, diskFails, e)
    ensures o.Wrote? ==> registryOk && o.languages == MergeAll(existing, SpecsOf(WithWrapper(entries, readable)))
    ensures o.Wrote? ==> RegistryHolds(o.languages, existing, entries, readable)
    ensures o.RegistryNotWritten? ==> !registryOk
    ensures o.Wrote? || o.RegistryNotWritten? ==> forall e :: e in WithWrapper(entries, readable) ==> HasFiles(e, files)
    ensures !o.Wrote? && !o.RegistryNotWritten? ==>
      exists e :: e in WithWrapper(entries, readable) && Explains(o, lock, diskFails, e)
    ensures AllOwnFiles(lock, WithWrapper(entries, readable), files)
  {
    hide MergeOne, MergeAll, AllGenerable, WithWrapper, AllOwnFiles, IsOwnFile, HasFiles, RegistryHolds;
    var languages := existing;
    files := map[];
    NothingYet(existing, lock, readable);
    assert entries[..0] == [];
    for k := 0 to |entries|
      invariant languages == MergeAll(existing, SpecsOf(WithWrapper(entries[..k], readable)))
      invariant forall e :: e in WithWrapper(entries[..k], readable) ==> HasFiles(e, files)
      invariant AllOwnFiles(lock, WithWrapper(entries[..k], readable), files)
      invariant forall e :: e in WithWrapper(entries[..k], readable) ==> AllGenerable(lock, diskFails, e)
    {
      var e := entries[k];
      OneMoreEntry(entries, readable, k);
      if e.dir in readable {
        ghost var before, files0 := WithWrapper(entries[..k], readable), files;
        OneMoreMerge(existing, before, e);
        var failure;
        failure, languages, files := GenerateEntry(e, lock, diskFails, languages, files);
        MoreOwnFiles(lock, before, e, files0, files);
        forall x | x in before ensures HasFiles(x, files) { StillHasFiles(x, files0, files); }
        if failure.Some? {
          WrapperPrefix(entries, readable, k);
          EarlierEntries(entries, readable, k + 1);
          FewerEntries(lock, before + [e], WithWrapper(entries, readable), files);
          FailureNotWrote(failure.value, lock, diskFails, e);
          return failure.value, files;
        }
      }
    }
    assert entries[..|entries|] == entries;
    MergedHolds(existing, entries, readable);
    o := if registryOk then Wrote(languages) else RegistryNotWritten;
  }

  lemma {:induction false} StillHasFiles(e: Entry, files0: Files, files: Files)
    requires HasFiles(e, files0) && files0.Keys <= files.Keys
    ensures HasFiles(e, files)
  {
  }

  function Merged(existing: Languages, entries: seq<Entry>, readable: set<Path>): Languages {
    MergeAll(existing, SpecsOf(WithWrapper(entries, readable)))
  }

  lemma {:induction false} MergedMore(existing: Languages, entries: seq<Entry>, readable: set<Path>)
    requires entries != []
    ensures var n := |entries| - 1; var before := Merged(existing, entries[..n], readable);
            Merged(existing, entries, readable) == if entries[n].dir in readable then MergeOne(before, entries[n].spec) else before
  {
    hide MergeAll, MergeOne;
    var n := |entries| - 1;
    OneMoreMerge(existing, WithWrapper(entries[..n], readable), entries[n]);
    assert WithWrapper(entries[..n], readable) + [] == WithWrapper(entries[..n], readable);
  }

  /** Merging one language, field by field. */
  lemma {:induction false} MergeOneHolds(langs: Languages, spec: ImageSpec)
    ensures var after := MergeOne(langs, spec);
            && spec.name in after && IsLanguage(after[spec.name], spec)
            && (forall v :: v in spec.versions ==> v in after[spec.name].versions && IsEntry(after[spec.name].versions[v], spec, v))
            && (forall v :: v !in spec.versions ==> SameVersion(after, langs, spec.name, v))
            && (forall l :: l != spec.name ==> (l in after <==> l in langs) && (l in langs ==> after[l] == langs[l]))
  {
    forall v | v in spec.versions ensures IsEntry(VersionFor(spec, v), spec, v) { FieldByField(None, spec, v); }
    hide VersionFor, IsEntry;
  }

  lemma {:induction false} EntryHeld(existing: Languages, entries: seq<Entry>, readable: set<Path>, k: nat, v: string)
    requires k < |entries| && LastWith(entries, readable, k, v)
    ensures var m, l := Merged(existing, entries, readable), entries[k].spec.name;
            l in m && v in m[l].versions && IsEntry(m[l].versions[v], entries[k].spec, v)
    decreases |entries|
  {
    hide Merged, MergeOne, IsEntry, IsLanguage;
    var n := |entries| - 1;
    MergedMore(existing, entries, readable);
    MergeOneHolds(Merged(existing, entries[..n], readable), entries[n].spec);
    if k < n { EntryHeld(existing, entries[..n], readable, k, v); }
  }

  lemma {:induction false} LanguageHeld(existing: Languages, entries: seq<Entry>, readable: set<Path>, k: nat)
    requires k < |entries| && LastFor(entries, readable, k)
    ensures var m, l := Merged(existing, entries, readable), entries[k].spec.name;
            l in m && IsLanguage(m[l], entries[k].spec)
    decreases |entries|
  {
    hide Merged, MergeOne, IsEntry, IsLanguage;
    var n := |entries| - 1;
    MergedMore(existing, entries, readable);
    MergeOneHolds(Merged(existing, entries[..n], readable), entries[n].spec);
    if k < n { LanguageHeld(existing, entries[..n], readable, k); }
  }

  lemma {:induction false} OtherHeld(existing: Languages, entries: seq<Entry>, readable: set<Path>, l: string)
    requires NoneFor(entries, readable, l)
    ensures var m := Merged(existing, entries, readable);
            (l in m <==> l in existing) && (l in existing ==> m[l] == existing[l])
    decreases |entries|
  {
    if entries == [] {
      NothingYet(existing, None, readable);
    } else {
      hide Merged, MergeOne, IsEntry, IsLanguage;
      var n := |entries| - 1;
      MergedMore(existing, entries, readable);
      MergeOneHolds(Merged(existing, entries[..n], readable), entries[n].spec);
      OtherHeld(existing, entries[..n], readable, l);
    }
  }

  lemma {:induction false} VersionHeld(existing: Languages, entries: seq<Entry>, readable: set<Path>, l: string, v: string)
    requires NoneWith(entries, readable, l, v)
    ensures SameVersion(Merged(existing, entries, readable), existing, l, v)
    decreases |entries|
  {
    if entries == [] {
      NothingYet(existing, None, readable);
    } else {
      hide Merged, MergeOne, IsEntry, IsLanguage;
      var n := |entries| - 1;
      MergedMore(existing, entries, readable);
      MergeOneHolds(Merged(existing, entries[..n], readable), entries[n].spec);
      VersionHeld(existing, entries[..n], readable, l, v);
    }
  }

  /** MAIN RESULT.  The merged registry, field by field. */
  lemma {:induction false} MergedHolds(existing: Languages, entries: seq<Entry>, readable: set<Path>)
    ensures RegistryHolds(Merged(existing, entries, readable), existing, entries, readable)
  {
    hide Merged, LastFor, NoneFor, NoneWith, SameVersion, IsEntry, IsLanguage;
    var m := Merged(existing, entries, readable);
    forall k, v | 0 <= k < |entries| && LastWith(entries, readable, k, v)
      ensures entries[k].spec.name in m && v in m[entries[k].spec.name].versions
              && v in entries[k].spec.versions && IsEntry(m[entries[k].spec.name].versions[v], entries[k].spec, v)
    {
      EntryHeld(existing, entries, readable, k, v);
    }
    forall k | 0 <= k < |entries| && LastFor(entries, readable, k)
      ensures entries[k].spec.name in m && IsLanguage(m[entries[k].spec.name], entries[k].spec)
    {
      LanguageHeld(existing, entries, readable, k);
    }
    forall l | NoneFor(entries, readable, l) ensures (l in m <==> l in existing) && (l in existing ==> m[l] == existing[l]) {
      OtherHeld(existing, entries, readable, l);
    }
    forall l, v | NoneWith(entries, readable, l, v) ensures SameVersion(m, existing, l, v) {
      VersionHeld(existing, entries, readable, l, v);
    }
  }

  /** No two versions with one directory have different Dockerfiles. */
  predicate NoClash(lock: Option<Lockfile>, entries: seq<Entry>) {
    forall e, v, f, w :: e in entries && v in e.spec.versions && f in entries && w in f.spec.versions && DirOf(e, v) == DirOf(f, w)
      ==> DockerfileFor(lock, e.spec, v) == DockerfileFor(lock, f.spec, w)
  }

  predicate IsRight(lock: Option<Lockfile>, e: Entry, v: string, files: Files) {
    v in e.spec.versions ==> DirOf(e, v) in files && files[DirOf(e, v)] == DockerfileFor(lock, e.spec, v)
  }

  /** MAIN RESULT.  After a whole run every version has its own Dockerfile exactly when no two
      versions whose directories are one ask for different ones. */
  lemma {:induction false} FilesRightExactly(lock: Option<Lockfile>, entries: seq<Entry>, files: Files)
    requires AllOwnFiles(lock, entries, files) && forall e :: e in entries ==> HasFiles(e, files)
    ensures (forall e, v :: e in entries ==> IsRight(lock, e, v, files)) <==> NoClash(lock, entries)
  {
    hide DirOf, DockerfileFor;
    if NoClash(lock, entries) {
      forall e, v | e in entries && v in e.spec.versions ensures IsRight(lock, e, v, files) {
        var d := DirOf(e, v);
        var f :| f in entries && IsOwnFile(lock, f, d, files[d]);
        var w :| w in f.spec.versions && DirOf(f, w) == d && files[d] == DockerfileFor(lock, f.spec, w);
      }
    }
    if forall e, v :: e in entries ==> IsRight(lock, e, v, files) {
      forall e, v, f, w | e in entries && v in e.spec.versions && f in entries && w in f.spec.versions && DirOf(e, v) == DirOf(f, w)
        ensures DockerfileFor(lock, e.spec, v) == DockerfileFor(lock, f.spec, w)
      {
        assert IsRight(lock, e, v, files) && IsRight(lock, f, w, files);
      }
    }
  }

  /** A plain version name is a directory below its language's. */
  lemma {:induction false} PlainVersionDir(e: Entry, v: string)
    requires IsName(v)
    ensures DirOf(e, v) == e.dir + [v]
  {
    SplitNone(v, '/');
    assert [v][1..] == [];
    assert Push(e.dir, v, false) == e.dir + [v];
    assert Walk(e.dir, [v], false) == Walk(e.dir + [v], [], false);
  }

  /** Two valid version names can have one directory. */
  lemma {:induction false} DottedVersionSharesDir(e: Entry, v: string)
    ensures DirOf(e, "./" + v) == DirOf(e, v)
  {
    hide Split;
    SplitAt(".", v, '/');
    assert "." + ['/'] + v == "./" + v;
    assert (["."] + Components(v))[1..] == Components(v);
  }

  lemma {:induction false} EarlierEntries(entries: seq<Entry>, readable: set<Path>, k: nat)
    requires k <= |entries|
    ensures forall e :: e in WithWrapper(entries[..k], readable) ==> e in WithWrapper(entries, readable)
  {
    if k == |entries| {
      assert entries[..k] == entries;
    } else {
      EarlierEntries(entries[..|entries| - 1], readable, k);
      assert entries[..|entries| - 1][..k] == entries[..k];
    }
  }

  lemma {:induction false} FailureNotWrote(o: Outcome, lock: Option<Lockfile>, diskFails: set<Path>, e: Entry)
    requires Explains(o, lock, diskFails, e)
    ensures !o.Wrote? && !o.RegistryNotWritten? && !AllGenerable(lock, diskFails, e)
  {
    assert o.NoDigest? || o.DiskError?;
    assert !Generable(lock, diskFails, e, o.version);
  }

  lemma {:induction false} NothingYet(langs: Languages, lock: Option<Lockfile>, readable: set<Path>)
    ensures WithWrapper([], readable) == [] && SpecsOf([]) == []
    ensures MergeAll(langs, []) == langs && AllOwnFiles(lock, [], map[])
  {
  }

  /** A readable entry stays in the list. */
  lemma {:induction false} WrapperPrefix(entries: seq<Entry>, readable: set<Path>, k: nat)
    requires k < |entries| && entries[k].dir in readable
    ensures entries[k] in WithWrapper(entries, readable)
  {
    var n := |entries| - 1;
    if k < n { WrapperPrefix(entries[..n], readable, k); }
  }
}
