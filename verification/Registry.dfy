/** The language registry and its in-place filter. */
module Registries {
  import opened LangFilter
  import opened ImageSpecs
  import opened ResourceLimits

  datatype RegVersion = RegVersion(name: string, image: string, runCmd: seq<string>, buildCmd: seq<string>)

  datatype Language = Language(
    name: string, kind: string, filename: string, defaultVersion: string,
    env: map<string, string>, limits: Limits, compileLimits: CompileLimits,
    versions: map<string, RegVersion>)

  type Languages = map<string, Language>

  datatype FilterError = NotInRegistry(lang: string, missing: seq<string>) | UnknownLanguage(lang: string)

  function NarrowLanguage(lang: Language, r: Request): Language { lang.(versions := Narrow(lang.versions, r)) }

  /** What a filter keeps of a registry. */
  function Filtered(langs: Languages, f: LangFilter): Languages {
    map l | l in langs && l in f :: NarrowLanguage(langs[l], f[l])
  }

  /** What is left of a registry: exactly the languages asked for, each with its own fields and
      exactly the versions asked for, or all when none are named. */
  ghost predicate IsFiltered(after: Languages, before: Languages, f: LangFilter) {
    && (forall l :: l in after <==> l in before && l in f)
    && (forall l :: l in after && l in before && l in f ==>
          && after[l] == before[l].(versions := after[l].versions)
          && (forall v :: v in after[l].versions <==> v in before[l].versions && (f[l].All? || f[l].versions == [] || v in f[l].versions))
          && (forall v :: v in after[l].versions && v in before[l].versions ==> after[l].versions[v] == before[l].versions[v]))
  }

  lemma {:induction false} FilteredExactly(langs: Languages, f: LangFilter)
    ensures IsFiltered(Filtered(langs, f), langs, f)
  {
  }

  lemma {:induction false} FitsExactly(langs: Languages, f: LangFilter)
    ensures Fits(langs, f) <==>
      forall l :: l in f ==> l in langs && (f[l].All? || forall v :: v in f[l].versions ==> v in langs[l].versions)
  {
  }

  /** A language and every version asked for with it exist. */
  predicate Known(langs: Languages, f: LangFilter, lang: string) {
    lang in f && lang in langs && Satisfiable(langs[lang].versions, f[lang])
  }

  predicate Fits(langs: Languages, f: LangFilter) { forall l :: l in f ==> Known(langs, f, l) }

  /** The unknown versions found while walking the registry. */
  function VersionErrors(langs: Languages, f: LangFilter, order: seq<string>): seq<FilterError>
    requires forall l :: l in order ==> l in langs
  {
    if order == [] then [] else
    var n, l := |order| - 1, order[|order| - 1];
    VersionErrors(langs, f, order[..n]) + OwnError(langs, f, l)
  }

  function OwnError(langs: Languages, f: LangFilter, l: string): seq<FilterError>
    requires l in langs
  {
    if l in f && !Known(langs, f, l) then [NotInRegistry(l, Missing(langs[l].versions, f[l].versions))] else []
  }

  lemma {:induction false} VersionErrorsStep(langs: Languages, f: LangFilter, order: seq<string>, l: string)
    requires (forall l :: l in order ==> l in langs) && l in langs
    ensures VersionErrors(langs, f, order + [l]) == VersionErrors(langs, f, order) + OwnError(langs, f, l)
  {
    assert (order + [l])[..|order|] == order;
  }

  /** The unknown languages found while walking the filter. */
  function LanguageErrors(langs: Languages, order: seq<string>): seq<FilterError> {
    if order == [] then [] else
    var n, l := |order| - 1, order[|order| - 1];
    LanguageErrors(langs, order[..n]) + (if l !in langs then [UnknownLanguage(l)] else [])
  }

  lemma {:induction false} NoVersionErrors(langs: Languages, f: LangFilter, order: seq<string>)
    requires forall l :: l in order ==> l in langs
    ensures VersionErrors(langs, f, order) == [] <==> forall l :: l in order && l in f ==> Known(langs, f, l)
  {
    hide Satisfiable, Missing;
    if order != [] {
      var n := |order| - 1;
      NoVersionErrors(langs, f, order[..n]);
      assert order == order[..n] + [order[n]];
    }
  }

  lemma {:induction false} NoLanguageErrors(langs: Languages, order: seq<string>)
    ensures LanguageErrors(langs, order) == [] <==> forall k :: 0 <= k < |order| ==> order[k] in langs
  {
    if order != [] {
      var n := |order| - 1;
      var init := order[..n];
      NoLanguageErrors(langs, init);
      assert forall k :: 0 <= k < n ==> init[k] == order[k];
    }
  }

  /** There is no error exactly when everything asked for exists. */
  lemma {:induction false} NoErrors(langs: Languages, f: LangFilter, order: seq<string>, filterOrder: seq<string>)
    requires Lists(order, langs.Keys) && Lists(filterOrder, f.Keys)
    ensures VersionErrors(langs, f, order) + LanguageErrors(langs, filterOrder) == [] <==> Fits(langs, f)
  {
    hide Satisfiable, Missing;
    NoVersionErrors(langs, f, order);
    NoLanguageErrors(langs, filterOrder);
    assert (forall k :: 0 <= k < |filterOrder| ==> filterOrder[k] in langs) <==> (forall l :: l in f ==> l in langs) by {
      forall l | l in f ensures exists k :: 0 <= k < |filterOrder| && filterOrder[k] == l { assert l in filterOrder; }
    }
    assert VersionErrors(langs, f, order) + LanguageErrors(langs, filterOrder) == []
      <==> VersionErrors(langs, f, order) == [] && LanguageErrors(langs, filterOrder) == [];
  }

  lemma {:induction false} VersionErrorsName(langs: Languages, f: LangFilter, order: seq<string>)
    requires forall l :: l in order ==> l in langs
    ensures forall e :: e in VersionErrors(langs, f, order) <==> exists l :: l in order && l in langs && e in OwnError(langs, f, l)
  {
    hide OwnError;
    if order != [] {
      var n := |order| - 1;
      VersionErrorsName(langs, f, order[..n]);
      assert order == order[..n] + [order[n]];
    }
  }

  lemma {:induction false} LanguageErrorsName(langs: Languages, order: seq<string>)
    ensures forall e :: e in LanguageErrors(langs, order) <==> e.UnknownLanguage? && e.lang in order && e.lang !in langs
  {
    if order != [] {
      var n := |order| - 1;
      LanguageErrorsName(langs, order[..n]);
      assert order == order[..n] + [order[n]];
    }
  }

  /** The error says exactly what is unknown: a language, or the versions that one has not got. */
  predicate IsError(langs: Languages, f: LangFilter, e: FilterError) {
    match e
    case UnknownLanguage(l) => l in f && l !in langs
    case NotInRegistry(l, missing) =>
      l in f && l in langs && f[l].Only? && missing != []
      && (forall v :: v in missing ==> v in f[l].versions && v !in langs[l].versions)
      && (forall v :: v in f[l].versions ==> v in langs[l].versions || v in missing)
  }

  /** Everything unknown is reported, and nothing else. */
  lemma {:induction false} ErrorsExactly(langs: Languages, f: LangFilter, order: seq<string>, filterOrder: seq<string>)
    requires Lists(order, langs.Keys) && Lists(filterOrder, f.Keys)
    ensures var errs := VersionErrors(langs, f, order) + LanguageErrors(langs, filterOrder);
            && (forall e :: e in errs ==> IsError(langs, f, e))
            && (forall l :: l in f && l !in langs ==> UnknownLanguage(l) in errs)
            && (forall l, v :: l in f && l in langs && f[l].Only? && v in f[l].versions && v !in langs[l].versions ==>
                  exists e :: e in errs && e.NotInRegistry? && e.lang == l && v in e.missing)
  {
    VersionErrorsName(langs, f, order);
    LanguageErrorsName(langs, filterOrder);
    forall l | l in langs ensures forall e :: e in OwnError(langs, f, l) ==> IsError(langs, f, e) {
      OwnErrorTells(langs, f, l);
    }
    var errs := VersionErrors(langs, f, order) + LanguageErrors(langs, filterOrder);
    forall l, v | l in f && l in langs && f[l].Only? && v in f[l].versions && v !in langs[l].versions
      ensures exists e :: e in errs && e.NotInRegistry? && e.lang == l && v in e.missing
    {
      MissingMeans(langs[l].versions, f[l].versions);
      var e := NotInRegistry(l, Missing(langs[l].versions, f[l].versions));
      assert e in OwnError(langs, f, l) && l in order;
      assert e in VersionErrors(langs, f, order);
    }
    hide VersionErrors, LanguageErrors, OwnError;
  }

  lemma {:induction false} OwnErrorTells(langs: Languages, f: LangFilter, l: string)
    requires l in langs
    ensures forall e :: e in OwnError(langs, f, l) ==> IsError(langs, f, e)
  {
    if l in f && f[l].Only? { MissingMeans(langs[l].versions, f[l].versions); }
  }

  lemma {:induction false} NotAsked(langs: Languages, f: LangFilter, l: string)
    requires l in langs
    ensures l !in f ==> OwnError(langs, f, l) == [] && !Known(langs, f, l)
  {
  }

  lemma {:induction false} NoneYet(langs: Languages, f: LangFilter)
    ensures VersionErrors(langs, f, []) == []
  {
  }

  method Select(langs: Languages, f: LangFilter, l: string) returns (narrowed: Language, err: seq<FilterError>)
    requires l in langs && l in f
    ensures err == OwnError(langs, f, l)
    ensures Known(langs, f, l) <==> err == []
    ensures err == [] ==> narrowed == NarrowLanguage(langs[l], f[l])
  {
    var lang, r := langs[l], f[l];
    narrowed, err := lang, [];
    if r.Only? && |r.versions| > 0 {
      var newVersions, missing := FilterVersions(lang.versions, r.versions);
      MissingMeans(lang.versions, r.versions);
      if |missing| > 0 {
        assert missing[0] in missing;
        return lang, [NotInRegistry(l, missing)];
      }
      forall v | v in r.versions ensures v in lang.versions { assert v !in missing; }
      narrowed := lang.(versions := newVersions);
    }
  }

  /** The walk over the registry. */
  method SelectAll(langs: Languages, f: LangFilter, order: seq<string>)
    returns (newLanguages: Languages, langsSeen: set<string>, errs: seq<FilterError>)
    requires Lists(order, langs.Keys)
    ensures langsSeen == set l | l in langs && l in f
    ensures errs == VersionErrors(langs, f, order)
    ensures newLanguages == map l | l in langs && l in f && Known(langs, f, l) :: NarrowLanguage(langs[l], f[l])
  {
    hide Known, NarrowLanguage, OwnError, VersionErrors;
    newLanguages, langsSeen, errs := map[], {}, [];
    NoneYet(langs, f);
    for k := 0 to |order|
      invariant langsSeen == set l | l in order[..k] && l in f
      invariant newLanguages.Keys == set l | l in langsSeen && Known(langs, f, l)
      invariant forall l :: l in newLanguages ==> newLanguages[l] == NarrowLanguage(langs[l], f[l])
      invariant errs == VersionErrors(langs, f, order[..k])
    {
      var l := order[k];
      assert l in order;
      ghost var before, after := order[..k], order[..k + 1];
      assert after == before + [l];
      VersionErrorsStep(langs, f, before, l);
      NotAsked(langs, f, l);
      if l in f {
        langsSeen := langsSeen + {l};
        var lang, err := Select(langs, f, l);
        if |err| > 0 {
          errs := errs + err;
        } else {
          newLanguages := newLanguages[l := lang];
        }
      }
    }
    assert order[..|order|] == order;
  }

  /** The walk over the filter. */
  method Unseen(langs: Languages, f: LangFilter, langsSeen: set<string>, filterOrder: seq<string>)
    returns (errs: seq<FilterError>)
    requires Lists(filterOrder, f.Keys) && langsSeen == set l | l in langs && l in f
    ensures errs == LanguageErrors(langs, filterOrder)
  {
    errs := [];
    for k := 0 to |filterOrder|
      invariant errs == LanguageErrors(langs, filterOrder[..k])
    {
      var l := filterOrder[k];
      assert l in filterOrder && filterOrder[..k + 1][..k] == filterOrder[..k];
      if l !in langsSeen { errs := errs + [UnknownLanguage(l)]; }
    }
    assert filterOrder[..|filterOrder|] == filterOrder;
  }

  class Registry {
    var languages: Languages

    constructor (languages: Languages)
      ensures this.languages == languages
    {
      this.languages := languages;
    }

    /** Replaces the languages by the filtered ones, or leaves them alone and says what is
        unknown. */
    method Filter(f: LangFilter, order: seq<string>, filterOrder: seq<string>) returns (errs: seq<FilterError>)
      requires Lists(order, languages.Keys) && Lists(filterOrder, f.Keys)
      modifies this
      ensures errs == VersionErrors(old(languages), f, order) + LanguageErrors(old(languages), filterOrder)
      ensures errs == [] <==> Fits(old(languages), f)
      ensures languages == if errs == [] then Filtered(old(languages), f) else old(languages)
      ensures errs == [] <==> forall l :: l in f ==>
        l in old(languages) && (f[l].All? || forall v :: v in f[l].versions ==> v in old(languages)[l].versions)
      ensures errs == [] ==> IsFiltered(languages, old(languages), f)
    {
      hide Known, NarrowLanguage, VersionErrors, LanguageErrors;
      var newLanguages, langsSeen, versionErrs := SelectAll(languages, f, order);
      var unknown := Unseen(languages, f, langsSeen, filterOrder);
      errs := versionErrs + unknown;
      NoErrors(languages, f, order, filterOrder);
      FitsExactly(languages, f);
      if Fits(languages, f) { FilteredExactly(languages, f); }
      hide IsFiltered;
      if |errs| > 0 { return; }
      languages := newLanguages;
    }
  }
}
