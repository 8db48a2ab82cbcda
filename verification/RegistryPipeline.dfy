/** What gen-images does over several runs: filtered runs add up to the full one, and
    filtering commutes with generating. */
module RegistryPipeline {
  import opened Option
  import opened Strings
  import opened Paths
  import opened LangFilter
  import opened ImageSpecs
  import opened Registries
  import opened GenImages
  import opened ResourceLimits

  // --------------------------------------------------------------- one merge

  predicate DistinctNames(specs: seq<ImageSpec>) {
    forall i, j :: 0 <= i < j < |specs| ==> specs[i].name != specs[j].name
  }

  /** A language no spec is for is left alone. */
  lemma {:induction false} OthersKept(langs: Languages, specs: seq<ImageSpec>, l: string)
    requires forall k :: 0 <= k < |specs| ==> specs[k].name != l
    ensures l in MergeAll(langs, specs) <==> l in langs
    ensures l in langs ==> MergeAll(langs, specs)[l] == langs[l]
  {
    hide LanguageFor, MergedVersions;
    if specs != [] {
      var n := |specs| - 1;
      var init := specs[..n];
      assert forall k :: 0 <= k < n ==> init[k] == specs[k];
      OthersKept(langs, init, l);
    }
  }

  /** With distinct names each spec decides its own language, whatever the order. */
  lemma {:induction false} MergedAt(langs: Languages, specs: seq<ImageSpec>, k: nat)
    requires DistinctNames(specs) && k < |specs|
    ensures specs[k].name in MergeAll(langs, specs)
    ensures MergeAll(langs, specs)[specs[k].name] ==
            LanguageFor(specs[k], MergedVersions(VersionsIn(langs, specs[k].name), specs[k]))
  {
    hide LanguageFor, MergedVersions;
    var n := |specs| - 1;
    var init := specs[..n];
    assert forall i :: 0 <= i < n ==> init[i] == specs[i];
    if k < n {
      MergedAt(langs, init, k);
    } else {
      OthersKept(langs, init, specs[k].name);
    }
  }

  /** MAIN RESULT.  Merging into any registry keeps every version that no spec regenerates,
      exactly as it was. */
  lemma {:induction false} UntouchedVersionKept(langs: Languages, specs: seq<ImageSpec>, l: string, v: string)
    requires l in langs && v in langs[l].versions
    requires forall k :: 0 <= k < |specs| && specs[k].name == l ==> v !in specs[k].versions
    ensures var m := MergeAll(langs, specs); l in m && v in m[l].versions && m[l].versions[v] == langs[l].versions[v]
  {
    hide VersionFor;
    if specs != [] {
      var n := |specs| - 1;
      var init := specs[..n];
      assert forall i :: 0 <= i < n ==> init[i] == specs[i];
      UntouchedVersionKept(langs, init, l, v);
    }
  }

  lemma {:induction false} MergedTwice(before: map<string, RegVersion>, spec: ImageSpec)
    ensures MergedVersions(MergedVersions(before, spec), spec) == MergedVersions(before, spec)
  {
    hide VersionFor;
  }

  /** MAIN RESULT.  Repeating a run changes nothing. */
  lemma {:induction false} MergeIdempotent(langs: Languages, specs: seq<ImageSpec>)
    requires DistinctNames(specs)
    ensures MergeAll(MergeAll(langs, specs), specs) == MergeAll(langs, specs)
  {
    hide LanguageFor, MergedVersions, MergeAll;
    var once, twice := MergeAll(langs, specs), MergeAll(MergeAll(langs, specs), specs);
    forall l ensures l in twice <==> l in once
             ensures l in once ==> twice[l] == once[l]
    {
      if k :| 0 <= k < |specs| && specs[k].name == l {
        MergedAt(langs, specs, k);
        MergedAt(once, specs, k);
        VersionsOfMerged(once, l, specs[k], MergedVersions(VersionsIn(langs, l), specs[k]));
        MergedTwice(VersionsIn(langs, l), specs[k]);
      } else {
        OthersKept(once, specs, l);
      }
    }
  }

  lemma {:induction false} VersionsOfMerged(langs: Languages, l: string, spec: ImageSpec, versions: map<string, RegVersion>)
    requires l in langs && langs[l] == LanguageFor(spec, versions)
    ensures VersionsIn(langs, l) == versions
  {
  }

  // --------------------------------------------------------- the image tree

  /** Valid specifications named like their directories, which have distinct plain names. */
  ghost predicate GoodTree(t: Tree) {
    && (forall i, j :: 0 <= i < j < |t.subdirs| ==> t.subdirs[i] != t.subdirs[j])
    && (forall n :: n in t.subdirs ==> IsName(n) && GoodDir(t, n))
    && (forall n: string :: IsName(n) && SpecAt(t, [n]).Spec? ==> n in t.subdirs)
  }

  predicate GoodDir(t: Tree, n: string) {
    match SpecAt(t, [n])
    case NoSpec => true
    case BadSpec => false
    case Spec(spec) => spec.name == n && ValidSpec(spec)
  }

  function HasSpec(t: Tree, n: string): bool { SpecAt(t, [n]).Spec? }

  function SpecNamed(t: Tree, n: string): ImageSpec
    requires HasSpec(t, n)
  {
    SpecAt(t, [n]).spec
  }

  /** The registry of all languages and versions, language by language. */
  function Full(t: Tree): Languages {
    map n | n in t.subdirs && HasSpec(t, n) :: LanguageFor(SpecNamed(t, n), Regenerated(SpecNamed(t, n)))
  }

  lemma {:induction false} FirstSpec(t: Tree, names: seq<string>)
    requires names != []
    ensures SpecsOf(AllEntries(t, names))
      == (if HasSpec(t, names[0]) then [SpecNamed(t, names[0])] else []) + SpecsOf(AllEntries(t, names[1..]))
  {
  }

  lemma {:induction false} DistinctFirst(spec: ImageSpec, rest: seq<ImageSpec>)
    requires DistinctNames(rest) && forall s :: s in rest ==> s.name != spec.name
    ensures DistinctNames([spec] + rest)
  {
  }

  /** The specifications an unfiltered run loads. */
  lemma {:induction false} AllEntriesAt(t: Tree, names: seq<string>)
    requires forall n :: n in names ==> GoodDir(t, n)
    requires forall i, j :: 0 <= i < j < |names| ==> names[i] != names[j]
    ensures var specs := SpecsOf(AllEntries(t, names));
            && (forall s :: s in specs ==> s.name in names && HasSpec(t, s.name) && s == SpecNamed(t, s.name))
            && (forall n :: n in names && HasSpec(t, n) ==> SpecNamed(t, n) in specs && SpecNamed(t, n).name == n)
            && DistinctNames(specs)
  {
    hide ValidSpec, AllEntries, SpecsOf, DistinctNames;
    if names == [] {
      NoSpecs(t);
    } else {
      var n, rest := names[0], SpecsOf(AllEntries(t, names[1..]));
      AllEntriesAt(t, names[1..]);
      FirstSpec(t, names);
      assert names == [n] + names[1..] && n !in names[1..];
      if HasSpec(t, n) {
        assert GoodDir(t, n) && SpecNamed(t, n).name == n;
        DistinctFirst(SpecNamed(t, n), rest);
      } else {
        assert [] + rest == rest;
      }
    }
  }

  lemma {:induction false} NoSpecs(t: Tree)
    ensures SpecsOf(AllEntries(t, [])) == [] && DistinctNames([])
  {
  }

  lemma {:induction false} MergedFresh(spec: ImageSpec)
    ensures MergedVersions(map[], spec) == Regenerated(spec)
  {
    hide VersionFor;
  }

  /** MAIN RESULT.  An unfiltered run over a good tree writes exactly the full registry. */
  lemma {:induction false} UnfilteredRun(t: Tree)
    requires GoodTree(t)
    ensures MergeAll(map[], SpecsOf(AllEntries(t, t.subdirs))) == Full(t)
  {
    hide LanguageFor, MergedVersions, MergeAll, Regenerated, AllEntries, SpecsOf;
    var specs := SpecsOf(AllEntries(t, t.subdirs));
    AllEntriesAt(t, t.subdirs);
    forall l ensures l in MergeAll(map[], specs) <==> l in Full(t)
             ensures l in Full(t) ==> MergeAll(map[], specs)[l] == Full(t)[l]
    {
      if k :| 0 <= k < |specs| && specs[k].name == l {
        MergedAt(map[], specs, k);
        MergedFresh(specs[k]);
      } else {
        OthersKept(map[], specs, l);
      }
    }
  }

  // ----------------------------------------------------------- filtered runs

  /** The languages of a filter are plain directory names. */
  predicate Plain(f: LangFilter) { forall l :: l in f ==> IsName(l) }

  /** The registry after a run with a filter, whose languages Go walks in some order. */
  function Run(t: Tree, langs: Languages, f: LangFilter, order: seq<string>): Languages
    requires forall l :: l in order ==> l in f
  {
    MergeAll(langs, SpecsOf(EntriesIn(Outcomes(t, f, order))))
  }

  function Narrowed(t: Tree, f: LangFilter, l: string): ImageSpec
    requires l in f && HasSpec(t, l)
  {
    SpecNamed(t, l).(versions := Narrow(SpecNamed(t, l).versions, f[l]))
  }

  lemma {:induction false} LoadedPlain(t: Tree, f: LangFilter, l: string)
    requires GoodTree(t) && l in f && IsName(l)
    ensures LoadOne(t, l, f[l]).Ok? <==> HasSpec(t, l) && Satisfiable(SpecNamed(t, l).versions, f[l])
    ensures LoadOne(t, l, f[l]).Ok? ==>
      LoadOne(t, l, f[l]).entry.spec == Narrowed(t, f, l) && Narrowed(t, f, l).name == l && l in t.subdirs
  {
    hide Narrow, Satisfiable, ValidSpec;
    NameIsItself(l);
    assert l in t.subdirs ==> GoodDir(t, l);
  }

  lemma {:induction false} RunSpecs(t: Tree, f: LangFilter, order: seq<string>)
    requires GoodTree(t) && Plain(f) && LoadsAll(t, f) && Lists(order, f.Keys)
    ensures var specs := SpecsOf(EntriesIn(Outcomes(t, f, order)));
            && |specs| == |order| && DistinctNames(specs)
            && forall k :: 0 <= k < |order| ==> HasSpec(t, order[k]) && specs[k] == Narrowed(t, f, order[k]) && specs[k].name == order[k]
  {
    hide LoadOne, Narrowed, EntriesIn, Outcomes;
    LoadsWhenAllLoad(t, f, order);
    var es := EntriesIn(Outcomes(t, f, order));
    forall k | 0 <= k < |order|
      ensures HasSpec(t, order[k]) && es[k].spec == Narrowed(t, f, order[k]) && es[k].spec.name == order[k]
    {
      assert order[k] in order;
      LoadedPlain(t, f, order[k]);
    }
  }

  /** What one filtered run makes of each language. */
  lemma {:induction false} RunAt(t: Tree, langs: Languages, f: LangFilter, order: seq<string>, l: string)
    requires GoodTree(t) && Plain(f) && LoadsAll(t, f) && Lists(order, f.Keys)
    ensures l !in f ==> (l in Run(t, langs, f, order) <==> l in langs)
                        && (l in langs ==> Run(t, langs, f, order)[l] == langs[l])
    ensures l in f ==> HasSpec(t, l) && l in t.subdirs && l in Run(t, langs, f, order)
    ensures l in f ==>
      Run(t, langs, f, order)[l] == LanguageFor(SpecNamed(t, l), MergedVersions(VersionsIn(langs, l), Narrowed(t, f, l)))
  {
    hide MergedVersions, MergeAll, EntriesIn, Outcomes, SpecsOf, LoadOne;
    RunSpecs(t, f, order);
    var specs := SpecsOf(EntriesIn(Outcomes(t, f, order)));
    if l in f {
      assert l in order;
      var k :| 0 <= k < |order| && order[k] == l;
      MergedAt(langs, specs, k);
      LoadedPlain(t, f, l);
    } else {
      OthersKept(langs, specs, l);
    }
  }

  lemma {:induction false} AllReadable(entries: seq<Entry>, readable: set<Path>)
    requires forall e :: e in entries ==> e.dir in readable
    ensures WithWrapper(entries, readable) == entries
  {
    if entries != [] {
      var n := |entries| - 1;
      AllReadable(entries[..n], readable);
      assert entries == entries[..n] + [entries[n]];
    }
  }

  /** What is found of an earlier registry. */
  datatype OldRegistry = Absent | Unreadable | Present(languages: Languages)

  datatype RunOutcome = NotLoaded(errs: seq<LoadError>) | NoOldRegistry | Generated(outcome: Outcome)

  /** The whole command: without a filter from scratch, with one on top of the old registry. */
  method RunGenImages(t: Tree, dirOk: bool, filter: Option<LangFilter>, order: seq<string>, lock: Option<Lockfile>,
                      readable: set<Path>, diskFails: set<Path>, registryOk: bool, found: OldRegistry)
    returns (o: RunOutcome, files: Files)
    requires filter.Some? ==> Lists(order, filter.value.Keys)
    ensures o.NotLoaded? <==> if filter.Some? then !LoadsAll(t, filter.value) else !dirOk || !NoneBad(t)
    ensures o.NoOldRegistry? <==> filter.Some? && LoadsAll(t, filter.value) && found.Unreadable?
    ensures var entries := if filter.Some? then EntriesIn(Outcomes(t, filter.value, order)) else AllEntries(t, t.subdirs);
            o.Generated? && (forall e :: e in entries ==> e.dir in readable) ==>
              && (o.outcome.Wrote? <==> registryOk && forall e :: e in entries ==> AllGenerable(lock, diskFails, e))
              && (o.outcome.Wrote? ==>
                    o.outcome.languages == if filter.Some? then Run(t, if found.Present? then found.languages else map[], filter.value, order)
                                           else MergeAll(map[], SpecsOf(AllEntries(t, t.subdirs))))
    ensures o.Generated? && o.outcome.Wrote? ==>
      RegistryHolds(o.outcome.languages, if filter.Some? && found.Present? then found.languages else map[],
                    if filter.Some? then EntriesIn(Outcomes(t, filter.value, order)) else AllEntries(t, t.subdirs), readable)
  {
    hide LoadOne, AllGenerable, MergeAll, Outcomes, EntriesIn, AllEntries, SpecsOf, LoadsAll, RegistryHolds;
    var entries, errs;
    files := map[];
    if filter.Some? {
      entries, errs := LoadFiltered(t, filter.value, order);
      LoadsWhenAllLoad(t, filter.value, order);
    } else {
      entries, errs := LoadAll(t, dirOk);
    }
    if |errs| > 0 { return NotLoaded(errs), files; }
    var languages := map[];
    if filter.Some? {
      match found {
        case Present(existing) => languages := existing;
        case Absent =>
        case Unreadable => return NoOldRegistry, files;
      }
    }
    if forall e :: e in entries ==> e.dir in readable { AllReadable(entries, readable); }
    var outcome;
    outcome, files := GenImages.GenImages(entries, readable, lock, diskFails, registryOk, languages);
    o := Generated(outcome);
  }

  datatype FilterRun = FilterRun(filter: LangFilter, order: seq<string>)

  /** The run is with plain names and succeeds. */
  ghost predicate OkRun(t: Tree, r: FilterRun) {
    Plain(r.filter) && LoadsAll(t, r.filter) && Lists(r.order, r.filter.Keys)
  }

  ghost predicate OkRuns(t: Tree, rs: seq<FilterRun>) { forall k :: 0 <= k < |rs| ==> OkRun(t, rs[k]) }

  /** The registry after filtered runs that started without one. */
  function AfterRuns(t: Tree, rs: seq<FilterRun>): Languages
    requires forall k :: 0 <= k < |rs| ==> forall l :: l in rs[k].order ==> l in rs[k].filter
  {
    if rs == [] then map[] else
    var n := |rs| - 1;
    Run(t, AfterRuns(t, rs[..n]), rs[n].filter, rs[n].order)
  }

  predicate NamesLang(r: FilterRun, l: string) { l in r.filter }

  /** The run regenerates the version. */
  predicate NamesVersion(t: Tree, r: FilterRun, l: string, v: string) {
    l in r.filter && HasSpec(t, l) && v in Narrow(SpecNamed(t, l).versions, r.filter[l])
  }

  predicate SomeNamesLang(rs: seq<FilterRun>, l: string) { exists k :: 0 <= k < |rs| && NamesLang(rs[k], l) }

  predicate SomeNamesVersion(t: Tree, rs: seq<FilterRun>, l: string, v: string) {
    exists k :: 0 <= k < |rs| && NamesVersion(t, rs[k], l, v)
  }

  function TouchedVersions(t: Tree, rs: seq<FilterRun>, l: string): map<string, RegVersion>
    requires HasSpec(t, l)
  {
    map v | v in SpecNamed(t, l).versions && SomeNamesVersion(t, rs, l, v) :: VersionFor(SpecNamed(t, l), v)
  }

  /** The part of the full registry that some run named. */
  function TouchedPart(t: Tree, rs: seq<FilterRun>): Languages {
    map l | l in t.subdirs && HasSpec(t, l) && SomeNamesLang(rs, l) ::
      LanguageFor(SpecNamed(t, l), TouchedVersions(t, rs, l))
  }

  lemma {:induction false} SnocLang(rs: seq<FilterRun>, r: FilterRun, l: string)
    ensures SomeNamesLang(rs + [r], l) <==> SomeNamesLang(rs, l) || NamesLang(r, l)
  {
    if NamesLang(r, l) { assert (rs + [r])[|rs|] == r; }
    if k :| 0 <= k < |rs| && NamesLang(rs[k], l) { assert (rs + [r])[k] == rs[k]; }
  }

  lemma {:induction false} SnocVersion(t: Tree, rs: seq<FilterRun>, r: FilterRun, l: string, v: string)
    ensures SomeNamesVersion(t, rs + [r], l, v) <==> SomeNamesVersion(t, rs, l, v) || NamesVersion(t, r, l, v)
  {
    hide NamesVersion;
    if NamesVersion(t, r, l, v) { assert (rs + [r])[|rs|] == r; }
    if k :| 0 <= k < |rs| && NamesVersion(t, rs[k], l, v) { assert (rs + [r])[k] == rs[k]; }
  }

  lemma {:induction false} NarrowIsPart(versions: map<string, Version>, r: Request, v: string)
    requires v in Narrow(versions, r)
    ensures v in versions && Narrow(versions, r)[v] == versions[v]
  {
  }

  /** One more run adds the versions it names to those touched before. */
  lemma {:induction false} TouchMore(t: Tree, rs: seq<FilterRun>, r: FilterRun, l: string)
    requires HasSpec(t, l) && l in r.filter
    ensures MergedVersions(TouchedVersions(t, rs, l), Narrowed(t, r.filter, l)) == TouchedVersions(t, rs + [r], l)
  {
    hide Narrow;
    var spec, part := SpecNamed(t, l), Narrowed(t, r.filter, l);
    forall v ensures v in part.versions <==> NamesVersion(t, r, l, v)
             ensures v in part.versions ==> v in spec.versions && VersionFor(part, v) == VersionFor(spec, v)
    {
      if v in part.versions { NarrowIsPart(spec.versions, r.filter[l], v); }
    }
    forall v ensures SomeNamesVersion(t, rs + [r], l, v) <==> SomeNamesVersion(t, rs, l, v) || NamesVersion(t, r, l, v) {
      SnocVersion(t, rs, r, l, v);
    }
  }

  /** A run that does not name the language touches none of its versions. */
  lemma {:induction false} TouchSame(t: Tree, rs: seq<FilterRun>, r: FilterRun, l: string)
    requires HasSpec(t, l) && l !in r.filter
    ensures TouchedVersions(t, rs + [r], l) == TouchedVersions(t, rs, l)
  {
    forall v ensures SomeNamesVersion(t, rs + [r], l, v) <==> SomeNamesVersion(t, rs, l, v) {
      SnocVersion(t, rs, r, l, v);
    }
  }

  lemma {:induction false} TouchNone(t: Tree, rs: seq<FilterRun>, l: string)
    requires HasSpec(t, l) && !SomeNamesLang(rs, l)
    ensures TouchedVersions(t, rs, l) == map[]
  {
  }

  /** The step of the main result, for one language. */
  lemma {:induction false} TouchedStep(t: Tree, rs: seq<FilterRun>, r: FilterRun, l: string)
    requires GoodTree(t) && OkRun(t, r)
    ensures var next := Run(t, TouchedPart(t, rs), r.filter, r.order);
            && (l in next <==> l in TouchedPart(t, rs + [r]))
            && (l in next ==> next[l] == TouchedPart(t, rs + [r])[l])
  {
    hide Run, LanguageFor, MergedVersions, LoadsAll, Narrowed, SomeNamesLang, SomeNamesVersion, TouchedVersions;
    var before := TouchedPart(t, rs);
    RunAt(t, before, r.filter, r.order, l);
    SnocLang(rs, r, l);
    if l in r.filter {
      TouchMore(t, rs, r, l);
      if l in before {
        VersionsOfMerged(before, l, SpecNamed(t, l), TouchedVersions(t, rs, l));
      } else {
        TouchNone(t, rs, l);
      }
    } else if HasSpec(t, l) {
      TouchSame(t, rs, r, l);
    }
  }

  /** MAIN RESULT.  After any filtered runs, in any order, the registry is exactly the part of
      the full registry that some run named. */
  lemma {:induction false} RunsAddUp(t: Tree, rs: seq<FilterRun>)
    requires GoodTree(t) && OkRuns(t, rs)
    ensures AfterRuns(t, rs) == TouchedPart(t, rs)
  {
    hide Run, TouchedPart, LoadsAll, Plain;
    if rs == [] {
      NothingTouched(t);
    } else {
      var n := |rs| - 1;
      var init := rs[..n];
      assert rs == init + [rs[n]] && forall k :: 0 <= k < n ==> init[k] == rs[k];
      RunsAddUp(t, init);
      forall l ensures l in AfterRuns(t, rs) <==> l in TouchedPart(t, rs)
               ensures l in AfterRuns(t, rs) ==> AfterRuns(t, rs)[l] == TouchedPart(t, rs)[l]
      {
        TouchedStep(t, init, rs[n], l);
      }
    }
  }

  lemma {:induction false} NothingTouched(t: Tree)
    ensures TouchedPart(t, []) == map[]
  {
  }

  /** What the daemon asks of every language before it starts. */
  predicate HasDefault(lang: Language) { lang.defaultVersion in lang.versions }

  predicate Startable(langs: Languages) { forall l :: l in langs ==> HasDefault(langs[l]) }

  /** MAIN RESULT.  After any filtered runs the daemon accepts the default versions of the
      registry exactly when each language that some run named had its default version named by
      some run, too. */
  lemma {:induction false} StartableExactly(t: Tree, rs: seq<FilterRun>)
    requires GoodTree(t) && OkRuns(t, rs)
    ensures Startable(AfterRuns(t, rs)) <==>
      forall l :: l in t.subdirs && HasSpec(t, l) && SomeNamesLang(rs, l) ==>
        SomeNamesVersion(t, rs, l, SpecNamed(t, l).defaultVersion)
  {
    hide AfterRuns, SomeNamesLang, SomeNamesVersion, VersionFor, OkRuns;
    RunsAddUp(t, rs);
    forall l | l in t.subdirs && HasSpec(t, l) && SomeNamesLang(rs, l)
      ensures l in TouchedPart(t, rs)
      ensures HasDefault(TouchedPart(t, rs)[l]) <==> SomeNamesVersion(t, rs, l, SpecNamed(t, l).defaultVersion)
    {
      assert GoodDir(t, l);
    }
  }

  /** Together the runs name every language and version. */
  predicate Covers(t: Tree, rs: seq<FilterRun>) {
    forall l :: l in t.subdirs && HasSpec(t, l) ==>
      SomeNamesLang(rs, l) && forall v :: v in SpecNamed(t, l).versions ==> SomeNamesVersion(t, rs, l, v)
  }

  /** MAIN RESULT.  Runs that together cover everything end in the registry of one unfiltered
      run. */
  lemma {:induction false} RunsConverge(t: Tree, rs: seq<FilterRun>)
    requires GoodTree(t) && OkRuns(t, rs) && Covers(t, rs)
    ensures AfterRuns(t, rs) == MergeAll(map[], SpecsOf(AllEntries(t, t.subdirs)))
  {
    hide AfterRuns, MergeAll, SomeNamesLang, SomeNamesVersion, VersionFor, AllEntries;
    RunsAddUp(t, rs);
    UnfilteredRun(t);
    forall l | l in t.subdirs && HasSpec(t, l)
      ensures TouchedVersions(t, rs, l) == Regenerated(SpecNamed(t, l))
    {
    }
  }

  /** MAIN RESULT.  Which runs took place decides the registry; their order and their
      repetition do not. */
  lemma {:induction false} RunOrderDoesNotMatter(t: Tree, rs: seq<FilterRun>, qs: seq<FilterRun>)
    requires GoodTree(t) && OkRuns(t, rs) && OkRuns(t, qs)
    requires forall r :: r in rs <==> r in qs
    ensures AfterRuns(t, rs) == AfterRuns(t, qs)
  {
    hide AfterRuns, NamesVersion, NamesLang, OkRun;
    RunsAddUp(t, rs);
    RunsAddUp(t, qs);
    forall l ensures SomeNamesLang(rs, l) <==> SomeNamesLang(qs, l) {
      SameRunsLang(rs, qs, l);
      SameRunsLang(qs, rs, l);
    }
    forall l, v ensures SomeNamesVersion(t, rs, l, v) <==> SomeNamesVersion(t, qs, l, v) {
      SameRunsVersion(t, rs, qs, l, v);
      SameRunsVersion(t, qs, rs, l, v);
    }
    SameTouch(t, rs, qs);
  }

  lemma {:induction false} SameTouch(t: Tree, rs: seq<FilterRun>, qs: seq<FilterRun>)
    requires forall l :: SomeNamesLang(rs, l) <==> SomeNamesLang(qs, l)
    requires forall l, v :: SomeNamesVersion(t, rs, l, v) <==> SomeNamesVersion(t, qs, l, v)
    ensures TouchedPart(t, rs) == TouchedPart(t, qs)
  {
    hide SomeNamesLang, SomeNamesVersion, VersionFor;
    forall l | HasSpec(t, l) ensures TouchedVersions(t, rs, l) == TouchedVersions(t, qs, l) {
    }
  }

  lemma {:induction false} SameRunsLang(rs: seq<FilterRun>, qs: seq<FilterRun>, l: string)
    requires forall r :: r in rs ==> r in qs
    ensures SomeNamesLang(rs, l) ==> SomeNamesLang(qs, l)
  {
    if k :| 0 <= k < |rs| && NamesLang(rs[k], l) {
      assert rs[k] in rs;
      var j :| 0 <= j < |qs| && qs[j] == rs[k];
    }
  }

  lemma {:induction false} SameRunsVersion(t: Tree, rs: seq<FilterRun>, qs: seq<FilterRun>, l: string, v: string)
    requires forall r :: r in rs ==> r in qs
    ensures SomeNamesVersion(t, rs, l, v) ==> SomeNamesVersion(t, qs, l, v)
  {
    hide NamesVersion;
    if k :| 0 <= k < |rs| && NamesVersion(t, rs[k], l, v) {
      assert rs[k] in rs;
      var j :| 0 <= j < |qs| && qs[j] == rs[k];
    }
  }

  // ------------------------------------------------- filtering and generating

  lemma {:induction false} NarrowRegenerated(spec: ImageSpec, r: Request)
    ensures Regenerated(spec.(versions := Narrow(spec.versions, r))) == Narrow(Regenerated(spec), r)
    ensures Satisfiable(Regenerated(spec), r) <==> Satisfiable(spec.versions, r)
  {
  }

  /** What a filter finds in the full registry. */
  lemma {:induction false} FullKnows(t: Tree, f: LangFilter, l: string)
    requires GoodTree(t) && l in f && IsName(l)
    ensures Known(Full(t), f, l) <==> LoadOne(t, l, f[l]).Ok?
    ensures Known(Full(t), f, l) ==>
      NarrowLanguage(Full(t)[l], f[l]) == LanguageFor(SpecNamed(t, l), MergedVersions(map[], Narrowed(t, f, l)))
  {
    hide Regenerated, MergedVersions, LoadOne, Narrow, Satisfiable;
    LoadedPlain(t, f, l);
    if HasSpec(t, l) {
      NarrowRegenerated(SpecNamed(t, l), f[l]);
      MergedFresh(Narrowed(t, f, l));
      assert l in t.subdirs;
    }
  }

  lemma {:induction false} LoadsWhatFits(t: Tree, f: LangFilter)
    requires GoodTree(t) && Plain(f)
    ensures LoadsAll(t, f) <==> Fits(Full(t), f)
  {
    hide GoodTree, LoadOne, Known, Full, IsName;
    forall l | l in f ensures Known(Full(t), f, l) <==> LoadOne(t, l, f[l]).Ok? { FullKnows(t, f, l); }
  }

  /** MAIN RESULT.  Over a good tree, filtering the full registry and generating from filtered
      specifications give the same registry, and fail on the same filters. */
  lemma {:induction false} FilterCommutes(t: Tree, f: LangFilter, order: seq<string>)
    requires GoodTree(t) && Plain(f) && Lists(order, f.Keys)
    ensures LoadsAll(t, f) <==> Fits(Full(t), f)
    ensures LoadsAll(t, f) ==> Run(t, map[], f, order) == Filtered(Full(t), f)
  {
    hide LoadOne, Known, Run, Full, NarrowLanguage, LanguageFor, MergedVersions, Narrowed;
    LoadsWhatFits(t, f);
    if LoadsAll(t, f) {
      forall l
        ensures l in Run(t, map[], f, order) <==> l in Filtered(Full(t), f)
        ensures l in Run(t, map[], f, order) ==> Run(t, map[], f, order)[l] == Filtered(Full(t), f)[l]
      {
        RunAt(t, map[], f, order, l);
        if l in f { FullKnows(t, f, l); KnownIsIn(Full(t), f, l); }
      }
    }
  }

  lemma {:induction false} KnownIsIn(langs: Languages, f: LangFilter, l: string)
    requires Known(langs, f, l)
    ensures l in langs
  {
  }

  /** The registry knows directories only by their plain names. */
  lemma {:induction false} UnplainNeverFits(t: Tree, f: LangFilter, l: string)
    requires GoodTree(t) && l in f && !IsName(l)
    ensures !Fits(Full(t), f)
  {
    assert !Known(Full(t), f, l);
  }

  lemma {:induction false} TrailingSlash(n: string)
    requires IsName(n)
    ensures Rel(n + "/") == [n] && !IsName(n + "/")
  {
    CutAt(n, "", '/');
    SplitNone("", '/');
    assert n + ['/'] + "" == n + "/";
    var comps := Components(n + "/");
    assert comps == [n] + Split("", '/') == [n, ""] && comps[1..] == [""] && comps[1..][1..] == [];
    assert Push([], n, false) == [n];
    assert Walk([], comps, false) == Walk([n], comps[1..], false) == Walk([n], comps[1..][1..], false);
    assert (n + "/")[|n|] == '/';
  }

  lemma {:induction false} OneSpecTree(spec: ImageSpec)
    requires IsName(spec.name) && ValidSpec(spec)
    ensures GoodTree(Tree(map[[spec.name] := Spec(spec)], [spec.name]))
  {
    hide ValidSpec, IsName;
    forall n: string | [n] == [spec.name] ensures n == spec.name { assert [n][0] == n; }
  }

  /** One run for any version but the default is enough for a registry the daemon refuses. */
  lemma {:induction false} UnstartableRun(spec: ImageSpec, v: string)
    requires IsName(spec.name) && ValidSpec(spec) && v in spec.versions && v != spec.defaultVersion
    ensures var t := Tree(map[[spec.name] := Spec(spec)], [spec.name]);
            var r := FilterRun(map[spec.name := Only([v])], [spec.name]);
            GoodTree(t) && OkRuns(t, [r]) && !Startable(AfterRuns(t, [r]))
  {
    hide ValidSpec, IsName, GoodTree, AfterRuns, Startable, Rel;
    var t := Tree(map[[spec.name] := Spec(spec)], [spec.name]);
    var r := FilterRun(map[spec.name := Only([v])], [spec.name]);
    OneSpecTree(spec);
    NameIsItself(spec.name);
    assert r.filter[spec.name].versions == [v] && LoadOne(t, spec.name, r.filter[spec.name]).Ok?;
    assert OkRun(t, r);
    StartableExactly(t, [r]);
    assert t.subdirs[0] == spec.name && NamesLang([r][0], spec.name);
    assert SomeNamesLang([r], spec.name) && !SomeNamesVersion(t, [r], spec.name, spec.defaultVersion);
  }

  /** Without plain names the two can part: "python/" loads, since it names the directory
      "python", but it is no language of the registry. */
  lemma {:induction false} UnplainMayLoad(spec: ImageSpec)
    requires IsName(spec.name) && ValidSpec(spec)
    ensures var t := Tree(map[[spec.name] := Spec(spec)], [spec.name]);
            var f := map[spec.name + "/" := All];
            GoodTree(t) && LoadsAll(t, f) && !Fits(Full(t), f)
  {
    hide ValidSpec, IsName, Rel, Full, GoodTree, Fits;
    var t := Tree(map[[spec.name] := Spec(spec)], [spec.name]);
    TrailingSlash(spec.name);
    OneSpecTree(spec);
    UnplainNeverFits(t, map[spec.name + "/" := All], spec.name + "/");
  }

  // ------------------------------------- a tree in which everything asked for loads

  function AskedVersions(f: LangFilter): set<string> {
    set l, v | l in f && f[l].Only? && v in f[l].versions :: v
  }

  /** A specification with every version that f asks for of any language. */
  function Obliging(f: LangFilter, name: string): ImageSpec {
    ImageSpec(name, "interpreted", "main", "1", map[], Limits(0, 0, 0, 0, 0, 0.0, 0, 0), CompileLimits(0, 0, 0, 0.0, 0, 0), [],
              map v | v in AskedVersions(f) + {"1"} :: Version("base", [], ["run"]))
  }

  function NameAt(p: Path): string { if |p| == 1 then p[0] else "other" }

  function Places(f: LangFilter): set<Path> { set l | l in f :: Rel(l) }

  function PlainPlaces(f: LangFilter): set<string> { set p | p in Places(f) && |p| == 1 && IsName(p[0]) :: p[0] }

  function ObligingTree(f: LangFilter): Tree {
    Tree(map p | p in Places(f) :: Spec(Obliging(f, NameAt(p))), Sorted(PlainPlaces(f)))
  }

  lemma {:induction false} ObligingIsGood(f: LangFilter)
    ensures GoodTree(ObligingTree(f))
  {
    hide Rel, Sorted, Less;
    var t := ObligingTree(f);
    SortedDistinct(PlainPlaces(f));
    forall n | n in t.subdirs ensures IsName(n) && GoodDir(t, n) {
      var p :| p in Places(f) && |p| == 1 && IsName(p[0]) && p[0] == n;
      assert p == [n];
      ObligingIsValid(f, n);
    }
    forall n: string | IsName(n) && SpecAt(t, [n]).Spec? ensures n in t.subdirs {
      assert [n] in Places(f) && [n][0] == n;
    }
  }

  lemma {:induction false} SortedDistinct(s: set<string>)
    ensures forall i, j :: 0 <= i < j < |Sorted(s)| ==> Sorted(s)[i] != Sorted(s)[j]
  {
    forall i, j | 0 <= i < j < |Sorted(s)| ensures Sorted(s)[i] != Sorted(s)[j] {
      LessAsymmetric(Sorted(s)[i], Sorted(s)[j]);
    }
  }

  lemma {:induction false} ObligingIsValid(f: LangFilter, name: string)
    requires name != ""
    ensures ValidSpec(Obliging(f, name))
  {
  }

  lemma {:induction false} ObligingLoads(f: LangFilter)
    ensures LoadsAll(ObligingTree(f), f)
  {
    hide Rel, Sorted, Missing, Narrow;
    var t := ObligingTree(f);
    forall l | l in f ensures LoadOne(t, l, f[l]).Ok? {
      assert Rel(l) in Places(f) && SpecAt(t, Rel(l)) == Spec(Obliging(f, NameAt(Rel(l))));
      assert Satisfiable(Obliging(f, NameAt(Rel(l))).versions, f[l]);
    }
  }

  /** MAIN RESULT.  Loading and filtering refuse a filter together in every good tree exactly
      when its languages are plain names. */
  lemma {:induction false} FailuresAgreeExactly(f: LangFilter)
    ensures (forall t :: GoodTree(t) ==> (LoadsAll(t, f) <==> Fits(Full(t), f))) <==> Plain(f)
  {
    hide GoodTree, LoadOne, Known, Full, IsName;
    if Plain(f) {
      forall t | GoodTree(t) ensures LoadsAll(t, f) <==> Fits(Full(t), f) { LoadsWhatFits(t, f); }
    } else {
      var l :| l in f && !IsName(l);
      ObligingIsGood(f);
      ObligingLoads(f);
      UnplainNeverFits(ObligingTree(f), f, l);
    }
  }
}
