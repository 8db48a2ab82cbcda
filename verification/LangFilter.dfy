/** The --lang filter: parsing, its meaning, and printing it back. */
module LangFilter {
  import opened Strings

  /** nil in the source stands for all versions. */
  datatype Request = All | Only(versions: seq<string>)

  type LangFilter = map<string, Request>

  datatype Error = TooLong(prefix: string) | NoLanguage(entry: string)

  datatype Parse = Accepted(filter: LangFilter) | Refused(error: Error)

  const MAX_RAW_LENGTH := 100

  // ------------------------------------------------------------- the meaning

  function LangOf(entry: string): string { Cut(entry, ':').0 }

  function VersionPart(entry: string): string { Cut(entry, ':').1 }

  predicate Bad(entry: string) { |entry| > MAX_RAW_LENGTH || LangOf(entry) == "" }

  function ErrorOf(entry: string): Error {
    if |entry| > MAX_RAW_LENGTH then TooLong(entry[..MAX_RAW_LENGTH]) else NoLanguage(entry)
  }

  function Langs(raw: seq<string>): set<string> { set e | e in raw :: LangOf(e) }

  /** The version pieces asked for with a language, empty ones included. */
  function Pieces(raw: seq<string>, lang: string): set<string> {
    set e, p | e in raw && LangOf(e) == lang && p in Split(VersionPart(e), ',') :: p
  }

  predicate SomeBare(raw: seq<string>, lang: string) {
    exists e :: e in raw && LangOf(e) == lang && VersionPart(e) == ""
  }

  function Narrowed(bare: bool, pieces: set<string>): Request {
    if bare || pieces - {""} == {} then All else Only(Sorted(pieces - {""}))
  }

  /** A language maps to all versions when some entry for it names none, or no entry for it
      names a non-empty one; else to the sorted union of what its entries name. */
  function Meaning(raw: seq<string>, ignoreVersions: bool): LangFilter {
    map lang | lang in Langs(raw) ::
      if ignoreVersions then All else Narrowed(SomeBare(raw, lang), Pieces(raw, lang))
  }

  predicate Acceptable(raw: seq<string>) { forall e :: e in raw ==> !Bad(e) }

  // ------------------------------------------------------------- the program

  /** What the map holds for one language while the entries are read, before duplicates are
      dropped. */
  ghost predicate Holds(r: Request, raw: seq<string>, lang: string, ignoreVersions: bool) {
    if ignoreVersions || SomeBare(raw, lang) then r == All
    else r.Only? && Pieces(raw, lang) == set p | p in r.versions
  }

  ghost predicate ReadSoFar(filter: LangFilter, raw: seq<string>, ignoreVersions: bool) {
    && filter.Keys == Langs(raw)
    && forall lang :: lang in filter ==> Holds(filter[lang], raw, lang, ignoreVersions)
  }

  function PiecesOf(e: string): set<string> { set p | p in Split(VersionPart(e), ',') }

  lemma {:induction false} OneMore(raw: seq<string>, e: string, lang: string)
    ensures Langs(raw + [e]) == Langs(raw) + {LangOf(e)}
    ensures Pieces(raw + [e], lang) == Pieces(raw, lang) + (if LangOf(e) == lang then PiecesOf(e) else {})
    ensures SomeBare(raw + [e], lang) <==> SomeBare(raw, lang) || (LangOf(e) == lang && VersionPart(e) == "")
    ensures lang !in Langs(raw) ==> Pieces(raw, lang) == {} && !SomeBare(raw, lang)
  {
    var raw' := raw + [e];
    assert e in raw' && forall x :: x in raw' <==> x in raw || x == e;
    assert Langs(raw') == Langs(raw) + {LangOf(e)};
    assert Pieces(raw', lang) == Pieces(raw, lang) + (if LangOf(e) == lang then PiecesOf(e) else {});
  }

  /** How one more entry changes what is held for its language. */
  function Update(filter: LangFilter, e: string, ignoreVersions: bool): Request {
    if ignoreVersions || VersionPart(e) == "" then All
    else if LangOf(e) !in filter then Only(Split(VersionPart(e), ','))
    else match filter[LangOf(e)]
         case All => All
         case Only(vs) => Only(vs + Split(VersionPart(e), ','))
  }

  lemma {:induction false} ReadSame(filter: LangFilter, raw: seq<string>, e: string, ignoreVersions: bool)
    requires LangOf(e) in filter ==> Holds(filter[LangOf(e)], raw, LangOf(e), ignoreVersions)
    requires LangOf(e) in filter <==> LangOf(e) in Langs(raw)
    ensures Holds(Update(filter, e, ignoreVersions), raw + [e], LangOf(e), ignoreVersions)
  {
    OneMore(raw, e, LangOf(e));
    match Update(filter, e, ignoreVersions)
    case All =>
    case Only(vs) => assert Pieces(raw + [e], LangOf(e)) == set p | p in vs;
  }

  lemma {:induction false} ReadOther(r: Request, raw: seq<string>, e: string, lang: string, ignoreVersions: bool)
    requires lang != LangOf(e) && Holds(r, raw, lang, ignoreVersions)
    ensures Holds(r, raw + [e], lang, ignoreVersions)
  {
    OneMore(raw, e, lang);
  }

  lemma {:induction false} ReadOne(filter: LangFilter, raw: seq<string>, e: string, ignoreVersions: bool)
    requires ReadSoFar(filter, raw, ignoreVersions)
    ensures ReadSoFar(filter[LangOf(e) := Update(filter, e, ignoreVersions)], raw + [e], ignoreVersions)
  {
    hide Holds, Update, Cut, Langs;
    var l, now := LangOf(e), Update(filter, e, ignoreVersions);
    ReadSame(filter, raw, e, ignoreVersions);
    forall lang | lang in filter && lang != l
      ensures Holds(filter[lang], raw + [e], lang, ignoreVersions)
    {
      ReadOther(filter[lang], raw, e, lang, ignoreVersions);
    }
    ReadKeys(filter, raw, e, now);
    assert forall lang :: lang in filter[l := now] ==> filter[l := now][lang] == if lang == l then now else filter[lang];
  }

  lemma {:induction false} ReadKeys(filter: LangFilter, raw: seq<string>, e: string, now: Request)
    requires filter.Keys == Langs(raw)
    ensures filter[LangOf(e) := now].Keys == Langs(raw + [e])
  {
    OneMore(raw, e, LangOf(e));
  }

  method ParseLangFilter(raw: seq<string>, ignoreVersions: bool) returns (r: Parse)
    ensures r.Accepted? <==> Acceptable(raw)
    ensures r.Accepted? ==> r.filter == Meaning(raw, ignoreVersions)
    ensures r.Refused? ==>
      exists k :: 0 <= k < |raw| && Acceptable(raw[..k]) && Bad(raw[k]) && r.error == ErrorOf(raw[k])
  {
    var filter: LangFilter := map[];
    for k := 0 to |raw|
      invariant Acceptable(raw[..k])
      invariant ReadSoFar(filter, raw[..k], ignoreVersions)
    {
      var e := raw[k];
      assert raw[..k + 1] == raw[..k] + [e] && e in raw;
      if |e| > MAX_RAW_LENGTH {
        return Refused(TooLong(e[..MAX_RAW_LENGTH]));
      }
      var lang, versionStr := LangOf(e), VersionPart(e);
      if lang == "" {
        return Refused(NoLanguage(e));
      }
      ghost var now := Update(filter, e, ignoreVersions);
      ReadOne(filter, raw[..k], e, ignoreVersions);
      if ignoreVersions {
        filter := filter[lang := All];
      } else if versionStr == "" {
        filter := filter[lang := All];
      } else if lang in filter && filter[lang].All? {
        // all versions of lang are already requested
        assert filter == filter[lang := now];
      } else if lang in filter {
        filter := filter[lang := Only(filter[lang].versions + Split(versionStr, ','))];
      } else {
        filter := filter[lang := Only(Split(versionStr, ','))];
      }
    }
    assert raw[..|raw|] == raw;
    if !ignoreVersions {
      DedupedMeaning(filter, raw);
      filter := DedupeLangFilter(filter);
    }
    r := Accepted(filter);
  }

  lemma {:induction false} DedupedMeaning(filter: LangFilter, raw: seq<string>)
    requires ReadSoFar(filter, raw, false)
    ensures (map lang | lang in filter :: Deduped(filter[lang])) == Meaning(raw, false)
  {
  }

  function Deduped(r: Request): Request {
    match r
    case All => All
    case Only(versions) => Narrowed(false, set v | v in versions)
  }

  method DedupeLangFilter(filter: LangFilter) returns (deduped: LangFilter)
    ensures deduped == map lang | lang in filter :: Deduped(filter[lang])
  {
    deduped := map[];
    var rest := filter.Keys;
    while rest != {}
      invariant rest <= filter.Keys && deduped.Keys == filter.Keys - rest
      invariant forall lang :: lang in deduped ==> deduped[lang] == Deduped(filter[lang])
    {
      var lang :| lang in rest;
      rest := rest - {lang};
      if filter[lang].All? {
        deduped := deduped[lang := All];
      } else {
        var versions := filter[lang].versions;
        var versionSet: set<string> := {};
        for k := 0 to |versions|
          invariant versionSet == (set v | v in versions[..k]) - {""}
        {
          assert versions[..k + 1] == versions[..k] + [versions[k]];
          if versions[k] != "" { versionSet := versionSet + {versions[k]}; }
        }
        assert versions[..|versions|] == versions;
        deduped := deduped[lang := if versionSet == {} then All else Only(Sorted(versionSet))];
      }
    }
  }

  // -------------------------------------------------------------- properties

  /** The entry names v, perhaps empty, among the versions of lang. */
  predicate Names(e: string, lang: string, v: string) { Cut(e, ':').0 == lang && v in Split(Cut(e, ':').1, ',') }

  /** MAIN RESULT.  What a filter says of a language, in terms of the entries alone: it is there
      when some entry names it; it asks for all versions when versions are ignored, some entry
      for it names none, or all name only empty ones; otherwise for exactly the non-empty ones
      they name, in increasing order. */
  lemma {:induction false} MeaningExactly(raw: seq<string>, ignoreVersions: bool, lang: string)
    ensures lang in Meaning(raw, ignoreVersions) <==> exists e :: e in raw && Cut(e, ':').0 == lang
    ensures lang in Meaning(raw, ignoreVersions) ==>
      (Meaning(raw, ignoreVersions)[lang] == All <==>
         || ignoreVersions
         || (exists e :: e in raw && Cut(e, ':').0 == lang && Cut(e, ':').1 == "")
         || (forall e, v :: e in raw && Names(e, lang, v) ==> v == ""))
    ensures lang in Meaning(raw, ignoreVersions) && Meaning(raw, ignoreVersions)[lang].Only? ==>
      var versions := Meaning(raw, ignoreVersions)[lang].versions;
      && Increasing(versions)
      && forall v :: v in versions <==> v != "" && exists e :: e in raw && Names(e, lang, v)
  {
    hide Cut, Split, Sorted, Increasing, SomeBare, Pieces, Narrowed, Names;
    BareExactly(raw, lang);
    PiecesExactly(raw, lang);
    AllEmptyExactly(raw, lang);
    NarrowedExactly(SomeBare(raw, lang), Pieces(raw, lang));
  }

  lemma {:induction false} BareExactly(raw: seq<string>, lang: string)
    ensures SomeBare(raw, lang) <==> exists e :: e in raw && Cut(e, ':').0 == lang && Cut(e, ':').1 == ""
  {
    hide Cut;
    if e :| e in raw && Cut(e, ':').0 == lang && Cut(e, ':').1 == "" { assert LangOf(e) == lang && VersionPart(e) == ""; }
  }

  lemma {:induction false} PiecesExactly(raw: seq<string>, lang: string)
    ensures forall v :: v in Pieces(raw, lang) <==> exists e :: e in raw && Names(e, lang, v)
  {
    hide Cut, Split;
    forall e, v | e in raw && Names(e, lang, v) ensures v in Pieces(raw, lang) {
      assert LangOf(e) == lang && v in Split(VersionPart(e), ',');
    }
  }

  lemma {:induction false} AllEmptyExactly(raw: seq<string>, lang: string)
    ensures (forall v :: v in Pieces(raw, lang) ==> v == "") <==> forall e, v :: e in raw && Names(e, lang, v) ==> v == ""
  {
    hide Names, Pieces;
    PiecesExactly(raw, lang);
    forall e, v | e in raw && Names(e, lang, v) ensures v in Pieces(raw, lang) {}
  }

  lemma {:induction false} NarrowedExactly(bare: bool, pieces: set<string>)
    ensures Narrowed(bare, pieces) == All <==> bare || forall v :: v in pieces ==> v == ""
    ensures Narrowed(bare, pieces).Only? ==>
      Increasing(Narrowed(bare, pieces).versions) && forall v :: v in Narrowed(bare, pieces).versions <==> v != "" && v in pieces
  {
    hide Sorted;
    if pieces - {""} != {} {
      var v :| v in pieces - {""};
    } else {
      forall v | v in pieces ensures v == "" { assert v in {""} || v in pieces - {""}; }
    }
  }

  /** What is refused, and how: an entry of more than 100 bytes, or without a language. */
  lemma {:induction false} RefusedExactly(e: string)
    ensures Bad(e) <==> |e| > 100 || e == "" || e[0] == ':'
    ensures |e| > 100 ==> ErrorOf(e) == TooLong(e[..100])
    ensures |e| <= 100 && Bad(e) ==> ErrorOf(e) == NoLanguage(e)
  {
  }

  /** MAIN RESULT.  Only which entries occur matters, not their order or number: two such
      lists are both refused or give the same filter. */
  lemma {:induction false} OrderIndependent(raw: seq<string>, other: seq<string>, ignoreVersions: bool)
    requires forall e :: e in raw <==> e in other
    ensures Acceptable(raw) <==> Acceptable(other)
    ensures Meaning(raw, ignoreVersions) == Meaning(other, ignoreVersions)
  {
    assert Langs(raw) == Langs(other);
    forall lang | lang in Langs(raw)
      ensures Pieces(raw, lang) == Pieces(other, lang) && (SomeBare(raw, lang) <==> SomeBare(other, lang))
    {
    }
  }

  /** e is the entry of f for a language, or for a language and a version. */
  predicate Spells(f: LangFilter, e: string, lang: string, v: string) {
    lang in f &&
    match f[lang]
    case All => e == lang
    case Only(versions) => v in versions && e == lang + ":" + v
  }

  /** A printing of a filter: all its entries and nothing else, in any order. */
  ghost predicate IsPrinting(out: seq<string>, f: LangFilter) {
    && (forall e :: e in out ==> exists lang, v :: Spells(f, e, lang, v))
    && (forall e, lang, v :: Spells(f, e, lang, v) ==> e in out)
  }

  lemma {:induction false} EntryParts(lang: string, v: string)
    requires ':' !in lang && ',' !in v
    ensures LangOf(lang + ":" + v) == lang && VersionPart(lang + ":" + v) == v
    ensures Split(v, ',') == [v]
    ensures LangOf(lang) == lang && VersionPart(lang) == ""
  {
    CutAt(lang, v, ':');
    CutNone(lang, ':');
    SplitNone(v, ',');
  }

  predicate CleanVersion(lang: string, v: string) {
    v != "" && ',' !in v && |lang| + 1 + |v| <= MAX_RAW_LENGTH
  }

  predicate CleanRequest(lang: string, r: Request) {
    && lang != "" && ':' !in lang && |lang| <= MAX_RAW_LENGTH
    && (r.Only? ==> r.versions != [] && Increasing(r.versions) && forall v :: v in r.versions ==> CleanVersion(lang, v))
  }

  /** Filters that can be written down: names without a colon, sorted non-empty lists of
      versions without commas, nothing too long. */
  predicate Clean(f: LangFilter) { forall lang :: lang in f ==> CleanRequest(lang, f[lang]) }

  lemma {:induction false} CleanPiece(raw: seq<string>, lang: string, v: string)
    requires Acceptable(raw) && v in Pieces(raw, lang) && v != "" && LangOf(lang) == lang
    ensures CleanVersion(lang, v)
  {
    var e :| e in raw && LangOf(e) == lang && v in Split(VersionPart(e), ',');
    assert !Bad(e);
  }

  /** What parsing accepts can be written down again: no printed entry is longer than the raw
      entry it came from. */
  lemma {:induction false} AcceptedIsClean(raw: seq<string>)
    requires Acceptable(raw)
    ensures Clean(Meaning(raw, false))
  {
    forall lang | lang in Langs(raw)
      ensures CleanRequest(lang, Narrowed(SomeBare(raw, lang), Pieces(raw, lang)))
    {
      var e :| e in raw && LangOf(e) == lang;
      assert !Bad(e);
      CutNone(lang, ':');
      forall v | v in Pieces(raw, lang) - {""} ensures CleanVersion(lang, v) { CleanPiece(raw, lang, v); }
      var s := Pieces(raw, lang) - {""};
      if s != {} {
        var some :| some in s;
        assert some in Sorted(s);
      }
    }
  }

  /** Entries that spell f for one language name that language and nothing else. */
  lemma {:induction false} SpelledEntry(f: LangFilter, e: string, lang: string, v: string)
    requires Clean(f) && Spells(f, e, lang, v)
    ensures !Bad(e) && LangOf(e) == lang
    ensures match f[lang]
            case All => VersionPart(e) == ""
            case Only(vs) => VersionPart(e) == v && v in vs && v != "" && PiecesOf(e) == {v}
  {
    match f[lang]
    case All => EntryParts(lang, "");
    case Only(vs) =>
      assert CleanVersion(lang, v);
      EntryParts(lang, v);
  }

  lemma {:induction false} PrintedEntry(f: LangFilter, out: seq<string>, e: string)
    requires Clean(f) && IsPrinting(out, f) && e in out
    ensures !Bad(e) && LangOf(e) in f
    ensures match f[LangOf(e)]
            case All => VersionPart(e) == ""
            case Only(vs) => VersionPart(e) in vs && VersionPart(e) != "" && PiecesOf(e) == {VersionPart(e)}
  {
    var lang, v :| Spells(f, e, lang, v);
    SpelledEntry(f, e, lang, v);
  }

  lemma {:induction false} PrintedAll(f: LangFilter, out: seq<string>, lang: string)
    requires Clean(f) && IsPrinting(out, f) && lang in f && f[lang] == All
    ensures lang in Langs(out) && SomeBare(out, lang)
  {
    assert Spells(f, lang, lang, "");
    SpelledEntry(f, lang, lang, "");
  }

  lemma {:induction false} PrintedVersion(f: LangFilter, out: seq<string>, lang: string, v: string)
    requires Clean(f) && IsPrinting(out, f)
    requires lang in f && f[lang].Only? && v in f[lang].versions
    ensures lang in Langs(out) && v in Pieces(out, lang)
  {
    var e := lang + ":" + v;
    assert Spells(f, e, lang, v);
    SpelledEntry(f, e, lang, v);
    assert v in PiecesOf(e);
  }

  lemma {:induction false} PrintedOnly(f: LangFilter, out: seq<string>, lang: string, vs: seq<string>)
    requires Clean(f) && IsPrinting(out, f) && lang in f && f[lang] == Only(vs)
    ensures lang in Langs(out) && !SomeBare(out, lang) && Pieces(out, lang) == set v | v in vs
  {
    PrintedVersion(f, out, lang, vs[0]);
    forall v | v in vs ensures v in Pieces(out, lang) { PrintedVersion(f, out, lang, v); }
    forall e | e in out && LangOf(e) == lang ensures VersionPart(e) != "" { PrintedEntry(f, out, e); }
    forall p | p in Pieces(out, lang) ensures p in vs {
      var e :| e in out && LangOf(e) == lang && p in Split(VersionPart(e), ',');
      assert p in PiecesOf(e);
      PrintedEntry(f, out, e);
    }
  }

  lemma {:induction false} NarrowedBack(r: Request, lang: string, bare: bool, pieces: set<string>)
    requires CleanRequest(lang, r)
    requires match r case All => bare case Only(vs) => !bare && pieces == set v | v in vs
    ensures Narrowed(bare, pieces) == r
  {
    match r
    case All =>
    case Only(vs) =>
      assert forall v :: v in vs ==> CleanVersion(lang, v);
      assert "" !in pieces && vs[0] in pieces;
      assert pieces - {""} == pieces;
      IncreasingUnique(Sorted(pieces), vs);
  }

  lemma {:induction false} PrintedLanguage(f: LangFilter, out: seq<string>, lang: string)
    requires Clean(f) && IsPrinting(out, f) && lang in f
    ensures lang in Langs(out) && Narrowed(SomeBare(out, lang), Pieces(out, lang)) == f[lang]
  {
    match f[lang] {
      case All => PrintedAll(f, out, lang);
      case Only(vs) => PrintedOnly(f, out, lang, vs);
    }
    NarrowedBack(f[lang], lang, SomeBare(out, lang), Pieces(out, lang));
  }

  lemma {:induction false} SameMeaning(f: LangFilter, out: seq<string>)
    requires Langs(out) == f.Keys
    requires forall lang :: lang in f ==> Narrowed(SomeBare(out, lang), Pieces(out, lang)) == f[lang]
    ensures Meaning(out, false) == f
  {
  }

  lemma {:induction false} PrintedLangs(f: LangFilter, out: seq<string>)
    requires Clean(f) && IsPrinting(out, f)
    ensures Acceptable(out) && Langs(out) == f.Keys
  {
    hide Clean, IsPrinting, Cut, Split, Sorted, Increasing, Narrowed, Pieces, SomeBare;
    forall e | e in out ensures !Bad(e) && LangOf(e) in f { PrintedEntry(f, out, e); }
    forall lang | lang in f ensures lang in Langs(out) { PrintedLanguage(f, out, lang); }
  }

  /** MAIN RESULT.  Any printing of a filter that can be written down, and so of any accepted
      one, is accepted and means that filter. */
  lemma {:induction false} PrintThenParse(f: LangFilter, out: seq<string>)
    requires Clean(f) && IsPrinting(out, f)
    ensures Acceptable(out) && Meaning(out, false) == f
  {
    PrintedLangs(f, out);
    forall lang | lang in f
      ensures Narrowed(SomeBare(out, lang), Pieces(out, lang)) == f[lang]
    {
      PrintedLanguage(f, out, lang);
    }
    SameMeaning(f, out);
  }
}
