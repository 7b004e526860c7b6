/** `write_current_item`: what happens to an entry when its closing line is
    read. The entry is completed (year, DOI), its DOI is recorded in the DOI
    cache and it is written out. The steps are functions on a `Progress`
    record; the imperative version in `BibParser` is proved equal to their
    composition. */
module Entry {
  import opened Wrappers
  import opened Text
  import opened Dict
  import opened YearKey
  import opened Underscore
  import opened TitleCase
  import opened Output
  import opened Lines

  /** The settings read from the configuration file. */
  datatype Config = Config(
    searchDOI: bool,
    useOfflineDOI: bool,
    printSelfInfo: bool,
    keepComments: bool,
    debugStatistics: bool,
    minYear: int,
    doi2url: bool,
    fieldRemoval: seq<string>)

  /** What the network answers for a title: the arXiv identifier on the
      search engine's result page, the DOI `google_lookup` finds and the DOI
      `crossref_lookup` finds. */
  datatype Lookup = Lookup(
    arxivId: string -> Option<string>,
    google: string -> Option<string>,
    crossref: string -> Option<string>)

  /** The part of the parser's state `write_current_item` touches: the fields
      of the current entry, the DOI cache, two counters and the output. */
  datatype Progress = Progress(
    fields: Fields,
    doiDict: map<string, string>,
    numMissing: nat,
    numFixed: nat,
    out: string)

  /** The state after the call, and whether it returned or raised. */
  datatype Outcome = Outcome(p: Progress, status: Status)

  /** Python's truth value of a lookup result: a non-empty string. */
  predicate Truthy(d: Option<string>)
  {
    d.Some? && |d.value| > 0
  }

  /** Year inference: when the year is missing or shorter than four
      characters, the group captured by `\w+(\d+)` in the key, if any, becomes
      the year. */
  function InferYear(bib: string, fs: Fields): Fields
  {
    var year := Get(fs, "year");
    if year.None? || |year.value| < 4 then
      match YearCapture(bib)
      case Some(y) => Set(fs, "year", y)
      case None => fs
    else fs
  }

  /** `fix_doi`: stores the DOI, and the DOI link as `url` when DOI2URL is
      set; with statistics on, the entry counts as missing and as fixed. */
  function FixDoi(cfg: Config, p: Progress, d: string): Progress
  {
    var q := if cfg.debugStatistics then p.(numMissing := p.numMissing + 1, numFixed := p.numFixed + 1) else p;
    var fs := Set(q.fields, "doi", d);
    q.(fields := if cfg.doi2url then Set(fs, "url", "http://doi.org/" + d) else fs)
  }

  /** A hit in the DOI cache. */
  function FromCache(cfg: Config, bib: string, p: Progress): Progress
  {
    if bib in p.doiDict then FixDoi(cfg, p, p.doiDict[bib]) else p
  }

  /** The search condition, evaluated left to right as Python's `and` does:
      `int(year)` raises when the year is missing or not a number. */
  function SearchWanted(cfg: Config, fs: Fields): Result<bool>
  {
    if !cfg.searchDOI then Ok(false)
    else match Get(fs, "year")
      case None => Err(KeyError("year"))
      case Some(y) =>
        match ParseInt(y)
        case None => Err(ValueError(y))
        case Some(n) =>
          if n <= cfg.minYear || Has(fs, "doi") then Ok(false)
          else match Get(fs, "type")
            case None => Err(KeyError("type"))
            case Some(t) => Ok(Lower(t) != "misc" && Lower(t) != "book")
  }

  /** `journal[:5].lower() == 'arxiv'` */
  predicate IsArxivJournal(fs: Fields)
  {
    match Get(fs, "journal")
    case None => false
    case Some(j) => Lower(if |j| <= 5 then j else j[..5]) == "arxiv"
  }

  /** The DOI search: an arXiv journal gets the PDF link as `url`; any other
      entry gets the first truthy DOI of Google and CrossRef, or counts as
      missing. The title is read first and raises when absent. */
  function Search(cfg: Config, p: Progress, lookup: Lookup): Result<Progress>
  {
    match Get(p.fields, "title")
    case None => Err(KeyError("title"))
    case Some(title) =>
      if IsArxivJournal(p.fields) then
        match lookup.arxivId(title)
        case Some(id) => Ok(p.(fields := Set(p.fields, "url", "https://arxiv.org/pdf/" + id)))
        case None => Ok(p)
      else
        var d := if Truthy(lookup.google(title)) then lookup.google(title) else lookup.crossref(title);
        if Truthy(d) then Ok(FixDoi(cfg, p, d.value))
        else Ok(p.(numMissing := p.numMissing + 1))
  }

  /** The DOI, if any, has its underscores escaped and is recorded in the
      cache under the key. */
  function EscapeDoi(bib: string, p: Progress): Progress
  {
    match Get(p.fields, "doi")
    case None => p
    case Some(d) =>
      var e := FixUnderscore(d);
      p.(fields := Set(p.fields, "doi", e), doiDict := p.doiDict[bib := e])
  }

  /** `del cur['type']`, then the emission loop and the closing brace. */
  function Emit(removal: seq<string>, p: Progress): Progress
  {
    var fs := Normalized(Delete(p.fields, "type"), removal);
    p.(fields := fs, out := p.out + Body(fs, removal))
  }

  /** The opening line is written, the year inferred and the cache
      consulted: the state in which the search condition is evaluated. */
  function Prepared(cfg: Config, bib: string, p: Progress, kind: string): Progress
  {
    FromCache(cfg, bib, p.(out := p.out + Header(kind, bib), fields := InferYear(bib, p.fields)))
  }

  /** The search condition and, when it holds, the search. */
  function Searched(cfg: Config, lookup: Lookup, p: Progress): Result<Progress>
  {
    match SearchWanted(cfg, p.fields)
    case Err(e) => Err(e)
    case Ok(wanted) => if wanted then Search(cfg, p, lookup) else Ok(p)
  }

  /** The whole of `write_current_item` for the entry `p.fields` under the
      key `bib`, with the network's answers as `lookup`. A raised exception
      leaves the state as it was at that point. */
  function Finalize(cfg: Config, bib: string, p: Progress, lookup: Lookup): Outcome
  {
    match Get(p.fields, "type")
    case None => Outcome(p, Raised(KeyError("type")))
    case Some(kind) =>
      var p2 := Prepared(cfg, bib, p, kind);
      match Searched(cfg, lookup, p2)
      case Err(e) => Outcome(p2, Raised(e))
      case Ok(p3) => Outcome(Emit(cfg.fieldRemoval, EscapeDoi(bib, p3)), Done)
  }

  // ---------------------------------------------------------------------------
  // What each step changes

  /** Year inference touches only the year, and only a missing or short one;
      what it stores is a single digit. */
  lemma InferYearSpec(bib: string, fs: Fields)
    requires Distinct(fs)
    ensures Distinct(InferYear(bib, fs))
    ensures forall k | k != "year" :: Get(InferYear(bib, fs), k) == Get(fs, k)
    ensures var y := Get(fs, "year");
      if y.Some? && |y.value| >= 4 then Get(InferYear(bib, fs), "year") == y
      else if YearCapture(bib).Some? then Get(InferYear(bib, fs), "year") == YearCapture(bib)
      else Get(InferYear(bib, fs), "year") == y
    ensures Get(InferYear(bib, fs), "year") != Get(fs, "year") ==>
      var y := Get(InferYear(bib, fs), "year").value; |y| == 1 && IsDigit(y[0])
  {
    YearCaptureIsOneDigit(bib);
    if YearCapture(bib).Some? {
      SetSpec(fs, "year", YearCapture(bib).value);
    }
  }

  /** `fix_doi` sets the DOI (and the link when asked for) and nothing else. */
  lemma FixDoiSpec(cfg: Config, p: Progress, d: string)
    requires Distinct(p.fields)
    ensures var q := FixDoi(cfg, p, d);
      && Distinct(q.fields)
      && Get(q.fields, "doi") == Some(d)
      && (forall k | k != "doi" && k != "url" :: Get(q.fields, k) == Get(p.fields, k))
      && (cfg.doi2url ==> Get(q.fields, "url") == Some("http://doi.org/" + d))
      && (!cfg.doi2url ==> Get(q.fields, "url") == Get(p.fields, "url"))
      && q.doiDict == p.doiDict && q.out == p.out
      && q.numFixed == p.numFixed + (if cfg.debugStatistics then 1 else 0)
      && q.numMissing == p.numMissing + (if cfg.debugStatistics then 1 else 0)
  {
    SetSpec(p.fields, "doi", d);
    SetSpec(Set(p.fields, "doi", d), "url", "http://doi.org/" + d);
  }

  /** A successful search changes at most the DOI and the link. */
  lemma SearchSpec(cfg: Config, p: Progress, lookup: Lookup)
    requires Distinct(p.fields)
    ensures Search(cfg, p, lookup).Ok? <==> Has(p.fields, "title")
    ensures Search(cfg, p, lookup).Ok? ==> var q := Search(cfg, p, lookup).value;
      && Distinct(q.fields)
      && (forall k | k != "doi" && k != "url" :: Get(q.fields, k) == Get(p.fields, k))
      && q.doiDict == p.doiDict && q.out == p.out
      && p.numFixed <= q.numFixed
      && q.numFixed - p.numFixed <= q.numMissing - p.numMissing <= 1
      && (!cfg.debugStatistics ==> q.numFixed == p.numFixed)
  {
    match Get(p.fields, "title")
    case None =>
    case Some(title) =>
      if IsArxivJournal(p.fields) {
        match lookup.arxivId(title)
        case Some(id) => SetSpec(p.fields, "url", "https://arxiv.org/pdf/" + id);
        case None =>
      } else {
        var d := if Truthy(lookup.google(title)) then lookup.google(title) else lookup.crossref(title);
        if Truthy(d) {
          FixDoiSpec(cfg, p, d.value);
        }
      }
  }

  /** The search condition holds only with the search switched on, for an
      entry without a DOI; it raises only with the search switched on, for a
      missing year, a year `int()` rejects or a missing type. */
  lemma SearchWantedSpec(cfg: Config, fs: Fields)
    ensures SearchWanted(cfg, fs) == Ok(true) <==>
      && cfg.searchDOI
      && Has(fs, "year") && ParseInt(Get(fs, "year").value).Some?
      && ParseInt(Get(fs, "year").value).value > cfg.minYear
      && !Has(fs, "doi")
      && Has(fs, "type")
      && Lower(Get(fs, "type").value) != "misc" && Lower(Get(fs, "type").value) != "book"
    ensures SearchWanted(cfg, fs) == Ok(false) <==>
      || !cfg.searchDOI
      || (&& Has(fs, "year") && ParseInt(Get(fs, "year").value).Some?
          && (|| ParseInt(Get(fs, "year").value).value <= cfg.minYear
              || Has(fs, "doi")
              || (Has(fs, "type") && Lower(Get(fs, "type").value) in ["misc", "book"])))
    ensures SearchWanted(cfg, fs).Err? ==> var e := SearchWanted(cfg, fs).error;
      && cfg.searchDOI
      && (e == KeyError("year") || e == KeyError("type") || e.ValueError?)
      && (e == KeyError("year") ==> !Has(fs, "year"))
      && (e == KeyError("type") ==> !Has(fs, "type"))
  {
  }

  /** The search condition and the search together: a search that is not
      wanted changes nothing, in particular when the entry has a DOI. */
  lemma SearchedSpec(cfg: Config, lookup: Lookup, p: Progress)
    requires Distinct(p.fields)
    ensures Searched(cfg, lookup, p).Ok? ==> var q := Searched(cfg, lookup, p).value;
      && Distinct(q.fields)
      && (forall k | k != "doi" && k != "url" :: Get(q.fields, k) == Get(p.fields, k))
      && q.doiDict == p.doiDict && q.out == p.out
      && p.numFixed <= q.numFixed
      && q.numFixed - p.numFixed <= q.numMissing - p.numMissing <= 1
      && (!cfg.debugStatistics ==> q.numFixed == p.numFixed)
      && (Has(p.fields, "doi") ==> q == p)
    ensures Searched(cfg, lookup, p).Err? ==> var e := Searched(cfg, lookup, p).error;
      && cfg.searchDOI
      && (e == KeyError("year") || e == KeyError("title") || e == KeyError("type") || e.ValueError?)
      && (e == KeyError("year") ==> !Has(p.fields, "year"))
      && (e == KeyError("title") ==> !Has(p.fields, "title"))
      && (e == KeyError("type") ==> !Has(p.fields, "type"))
  {
    SearchWantedSpec(cfg, p.fields);
    if SearchWanted(cfg, p.fields) == Ok(true) {
      SearchSpec(cfg, p, lookup);
    }
  }

  /** Escaping changes at most the DOI and records it in the cache under the
      key. */
  lemma EscapeDoiSpec(bib: string, p: Progress)
    requires Distinct(p.fields)
    ensures var q := EscapeDoi(bib, p);
      && Distinct(q.fields)
      && (forall k | k != "doi" :: Get(q.fields, k) == Get(p.fields, k))
      && Has(q.fields, "doi") == Has(p.fields, "doi")
      && (Has(p.fields, "doi") ==>
            && Get(q.fields, "doi") == Some(FixUnderscore(Get(p.fields, "doi").value))
            && q.doiDict == p.doiDict[bib := FixUnderscore(Get(p.fields, "doi").value)])
      && (!Has(p.fields, "doi") ==> q.doiDict == p.doiDict)
      && q.out == p.out && q.numFixed == p.numFixed && q.numMissing == p.numMissing
  {
    match Get(p.fields, "doi")
    case None =>
    case Some(d) => SetSpec(p.fields, "doi", FixUnderscore(d));
  }

  /** Emission removes the type, title-cases the titled keys that are not
      removed, and leaves every other key as it is. */
  lemma EmitSpec(removal: seq<string>, p: Progress, k: string)
    requires Distinct(p.fields)
    ensures var q := Emit(removal, p);
      && Distinct(q.fields)
      && !Has(q.fields, "type")
      && Names(q.fields) == Without(Names(p.fields), "type")
      && (k != "type" && (!IsTitled(k) || k in removal) ==> Get(q.fields, k) == Get(p.fields, k))
      && q.doiDict == p.doiDict && q.numFixed == p.numFixed && q.numMissing == p.numMissing
  {
    var d := Delete(p.fields, "type");
    DeleteSpec(p.fields, "type");
    NormalizedGet(d, removal, k);
    NormalizedGet(d, removal, "type");
    assert Names(Normalized(d, removal)) == Names(d);
  }

  /** The prepared state: the header is written, the year inferred, and a
      cached DOI stored; nothing else changes. */
  lemma PreparedSpec(cfg: Config, bib: string, p: Progress, kind: string)
    requires Distinct(p.fields)
    ensures var q := Prepared(cfg, bib, p, kind);
      && Distinct(q.fields)
      && q.out == p.out + Header(kind, bib)
      && (forall k | k != "year" && k != "doi" && k != "url" :: Get(q.fields, k) == Get(p.fields, k))
      && Get(q.fields, "year") == Get(InferYear(bib, p.fields), "year")
      && (bib in p.doiDict ==> Get(q.fields, "doi") == Some(p.doiDict[bib]))
      && (bib !in p.doiDict ==> Get(q.fields, "doi") == Get(p.fields, "doi"))
      && q.doiDict == p.doiDict
      && p.numFixed <= q.numFixed && q.numFixed - p.numFixed == q.numMissing - p.numMissing
      && (q.numFixed != p.numFixed ==> bib in p.doiDict)
      && q.numFixed <= p.numFixed + 1
  {
    var p1 := p.(out := p.out + Header(kind, bib), fields := InferYear(bib, p.fields));
    InferYearSpec(bib, p.fields);
    if bib in p.doiDict {
      FixDoiSpec(cfg, p1, p.doiDict[bib]);
    }
  }

  // ---------------------------------------------------------------------------
  // What write_current_item guarantees

  /** The fields other than year, DOI, link and type come out as they went
      in, except the titled ones that are written, which are title-cased. */
  lemma FinalizeKeepsFields(cfg: Config, bib: string, p: Progress, lookup: Lookup, k: string)
    requires Distinct(p.fields)
    requires k != "year" && k != "doi" && k != "url" && k != "type"
    requires !IsTitled(k) || k in cfg.fieldRemoval
    ensures Get(Finalize(cfg, bib, p, lookup).p.fields, k) == Get(p.fields, k)
  {
    FinalizeGet(cfg, bib, p, lookup, k);
    InferYearSpec(bib, p.fields);
  }

  /** An existing year of four characters or more is never overwritten. */
  lemma FinalizeKeepsLongYear(cfg: Config, bib: string, p: Progress, lookup: Lookup)
    requires Distinct(p.fields)
    requires Get(p.fields, "year").Some? && |Get(p.fields, "year").value| >= 4
    ensures Get(Finalize(cfg, bib, p, lookup).p.fields, "year") == Get(p.fields, "year")
  {
    FinalizeGet(cfg, bib, p, lookup, "year");
    InferYearSpec(bib, p.fields);
  }

  /** A field the later steps do not touch ends as year inference left it. */
  lemma FinalizeGet(cfg: Config, bib: string, p: Progress, lookup: Lookup, k: string)
    requires Distinct(p.fields)
    requires k != "doi" && k != "url" && k != "type"
    requires !IsTitled(k) || k in cfg.fieldRemoval
    ensures Get(Finalize(cfg, bib, p, lookup).p.fields, k) ==
      if Has(p.fields, "type") then Get(InferYear(bib, p.fields), k) else Get(p.fields, k)
  {
    match Get(p.fields, "type")
    case None =>
    case Some(kind) =>
      var p2 := Prepared(cfg, bib, p, kind);
      PreparedSpec(cfg, bib, p, kind);
      InferYearSpec(bib, p.fields);
      assert Get(p2.fields, k) == Get(InferYear(bib, p.fields), k);
      SearchedSpec(cfg, lookup, p2);
      match Searched(cfg, lookup, p2)
      case Err(_) =>
      case Ok(p3) =>
        assert Get(p3.fields, k) == Get(p2.fields, k);
        var p4 := EscapeDoi(bib, p3);
        EscapeDoiSpec(bib, p3);
        assert Get(p4.fields, k) == Get(p3.fields, k);
        EmitSpec(cfg.fieldRemoval, p4, k);
        assert Finalize(cfg, bib, p, lookup).p == Emit(cfg.fieldRemoval, p4);
  }

  /** The entry never gets a key twice, whether the call completes or raises. */
  lemma FinalizeDistinct(cfg: Config, bib: string, p: Progress, lookup: Lookup)
    requires Distinct(p.fields)
    ensures Distinct(Finalize(cfg, bib, p, lookup).p.fields)
  {
    match Get(p.fields, "type")
    case None =>
    case Some(kind) =>
      var p2 := Prepared(cfg, bib, p, kind);
      PreparedSpec(cfg, bib, p, kind);
      SearchedSpec(cfg, lookup, p2);
      match Searched(cfg, lookup, p2)
      case Err(_) =>
      case Ok(p3) =>
        EscapeDoiSpec(bib, p3);
        EmitSpec(cfg.fieldRemoval, EscapeDoi(bib, p3), "type");
  }

  // ---------------------------------------------------------------------------
  // When the network is consulted

  /** The network is consulted only when the search condition holds. */
  lemma NotWantedIgnoresLookup(cfg: Config, bib: string, p: Progress, l1: Lookup, l2: Lookup)
    requires Get(p.fields, "type").Some? ==>
      SearchWanted(cfg, Prepared(cfg, bib, p, Get(p.fields, "type").value).fields) != Ok(true)
    ensures Finalize(cfg, bib, p, l1) == Finalize(cfg, bib, p, l2)
  {
  }

  /** With the search switched off, the result does not depend on the network. */
  lemma NoSearchIgnoresLookup(cfg: Config, bib: string, p: Progress, l1: Lookup, l2: Lookup)
    requires !cfg.searchDOI
    ensures Finalize(cfg, bib, p, l1) == Finalize(cfg, bib, p, l2)
  {
    NotWantedIgnoresLookup(cfg, bib, p, l1, l2);
  }

  /** A key found in the DOI cache gets its DOI from there: no search. */
  lemma CacheHitIgnoresLookup(cfg: Config, bib: string, p: Progress, l1: Lookup, l2: Lookup)
    requires Distinct(p.fields)
    requires bib in p.doiDict
    ensures Finalize(cfg, bib, p, l1) == Finalize(cfg, bib, p, l2)
  {
    if Get(p.fields, "type").Some? {
      PreparedSpec(cfg, bib, p, Get(p.fields, "type").value);
    }
    NotWantedIgnoresLookup(cfg, bib, p, l1, l2);
  }

  /** An entry that already has a DOI is not searched for. */
  lemma DoiPresentIgnoresLookup(cfg: Config, bib: string, p: Progress, l1: Lookup, l2: Lookup)
    requires Distinct(p.fields)
    requires Has(p.fields, "doi")
    ensures Finalize(cfg, bib, p, l1) == Finalize(cfg, bib, p, l2)
  {
    if Get(p.fields, "type").Some? {
      PreparedSpec(cfg, bib, p, Get(p.fields, "type").value);
    }
    NotWantedIgnoresLookup(cfg, bib, p, l1, l2);
  }

  /** `misc` and `book` entries, in any letter case, are never searched for. */
  lemma MiscOrBookIgnoresLookup(cfg: Config, bib: string, p: Progress, l1: Lookup, l2: Lookup)
    requires Distinct(p.fields)
    requires Get(p.fields, "type").Some?
    requires Lower(Get(p.fields, "type").value) in {"misc", "book"}
    ensures Finalize(cfg, bib, p, l1) == Finalize(cfg, bib, p, l2)
  {
    PreparedSpec(cfg, bib, p, Get(p.fields, "type").value);
    NotWantedIgnoresLookup(cfg, bib, p, l1, l2);
  }

  /** `int()` of one digit is at most 9. */
  lemma ParseIntOneDigit(y: string)
    requires |y| == 1 && IsDigit(y[0])
    ensures ParseInt(y).Some? && ParseInt(y).value <= 9
  {
    ParseIntDigits(y);
    assert y[..0] == [];
  }

  /** A year inferred from the key is one digit, so with a minimum year of 9
      or more (the default is 1946) an entry whose year was inferred is never
      searched for. */
  lemma InferredYearIgnoresLookup(cfg: Config, bib: string, p: Progress, l1: Lookup, l2: Lookup)
    requires Distinct(p.fields)
    requires cfg.minYear >= 9
    requires Get(p.fields, "year").None? || |Get(p.fields, "year").value| < 4
    requires YearCapture(bib).Some?
    ensures Finalize(cfg, bib, p, l1) == Finalize(cfg, bib, p, l2)
  {
    if Get(p.fields, "type").Some? {
      PreparedSpec(cfg, bib, p, Get(p.fields, "type").value);
      InferYearSpec(bib, p.fields);
      YearCaptureIsOneDigit(bib);
      ParseIntOneDigit(YearCapture(bib).value);
    }
    NotWantedIgnoresLookup(cfg, bib, p, l1, l2);
  }

  // ---------------------------------------------------------------------------
  // Exceptions, the DOI cache, the counters and the text written

  /** The exceptions `write_current_item` can raise, and when. A missing type
      raises before anything is done; the other exceptions come from the
      search condition and the search, so they need the search switched on:
      a missing year that the key does not supply, a year `int()` rejects,
      or a missing title. */
  lemma FinalizeErrors(cfg: Config, bib: string, p: Progress, lookup: Lookup)
    requires Distinct(p.fields)
    ensures var o := Finalize(cfg, bib, p, lookup);
      && (o.status == Raised(KeyError("type")) <==> !Has(p.fields, "type"))
      && (!Has(p.fields, "type") ==> o.p == p)
      && (Has(p.fields, "type") && o.status.Raised? ==>
            && cfg.searchDOI
            && o.p.out == p.out + Header(Get(p.fields, "type").value, bib)
            && (o.status == Raised(KeyError("year")) || o.status == Raised(KeyError("title"))
                || o.status.error.ValueError?))
      && (o.status == Raised(KeyError("year")) ==> !Has(p.fields, "year") && YearCapture(bib).None?)
      && (o.status == Raised(KeyError("title")) ==> !Has(p.fields, "title"))
  {
    match Get(p.fields, "type")
    case None =>
    case Some(kind) =>
      var p2 := Prepared(cfg, bib, p, kind);
      PreparedSpec(cfg, bib, p, kind);
      assert Get(p2.fields, "type") == Some(kind);
      assert Get(p2.fields, "title") == Get(p.fields, "title");
      SearchedSpec(cfg, lookup, p2);
      match Searched(cfg, lookup, p2)
      case Ok(_) =>
      case Err(e) =>
        if e == KeyError("year") {
          InferYearSpec(bib, p.fields);
        }
  }

  /** After a completed call the DOI cache agrees with the entry: the key is
      cached exactly when the entry has a DOI, under that DOI, which is
      already escaped; a cached DOI comes back escaped; other keys' cache
      entries are untouched. */
  lemma FinalizeRecordsDoi(cfg: Config, bib: string, p: Progress, lookup: Lookup)
    requires Distinct(p.fields)
    ensures var o := Finalize(cfg, bib, p, lookup);
      o.status.Done? ==> DoiRecorded(bib, p.doiDict, o.p)
  {
    match Get(p.fields, "type")
    case None =>
    case Some(kind) =>
      var p2 := Prepared(cfg, bib, p, kind);
      PreparedSpec(cfg, bib, p, kind);
      SearchedSpec(cfg, lookup, p2);
      match Searched(cfg, lookup, p2)
      case Err(_) =>
      case Ok(p3) =>
        if bib in p.doiDict {
          assert Get(p2.fields, "doi") == Some(p.doiDict[bib]);
        }
        CompletedRecordsDoi(cfg.fieldRemoval, bib, p.doiDict, p3);
  }

  /** The cache of `q`, written under `bib`, agrees with its entry, given the
      cache `before` the call. */
  ghost predicate DoiRecorded(bib: string, before: map<string, string>, q: Progress)
  {
    && (bib in q.doiDict <==> Has(q.fields, "doi"))
    && (bib in q.doiDict ==>
          && Get(q.fields, "doi") == Some(q.doiDict[bib])
          && FixUnderscore(q.doiDict[bib]) == q.doiDict[bib])
    && (bib in before ==> bib in q.doiDict && q.doiDict[bib] == FixUnderscore(before[bib]))
    && (forall b | b != bib :: (b in q.doiDict <==> b in before))
    && (forall b | b != bib && b in before && b in q.doiDict :: q.doiDict[b] == before[b])
  }

  /** Escaping and emission record the DOI of the searched entry. */
  lemma CompletedRecordsDoi(removal: seq<string>, bib: string, before: map<string, string>, p: Progress)
    requires Distinct(p.fields)
    requires p.doiDict == before
    requires bib in before ==> Get(p.fields, "doi") == Some(before[bib])
    ensures DoiRecorded(bib, before, Emit(removal, EscapeDoi(bib, p)))
  {
    EscapeDoiSpec(bib, p);
    EmitSpec(removal, EscapeDoi(bib, p), "doi");
    if Has(p.fields, "doi") {
      FixUnderscoreIdempotent(Get(p.fields, "doi").value);
    }
  }

  /** Each call counts at most one missing DOI and at most one fixed one,
      never more fixed than missing, and nothing as fixed without the
      statistics switch. */
  lemma FinalizeCounters(cfg: Config, bib: string, p: Progress, lookup: Lookup)
    requires Distinct(p.fields)
    ensures var o := Finalize(cfg, bib, p, lookup);
      && p.numFixed <= o.p.numFixed
      && o.p.numFixed - p.numFixed <= o.p.numMissing - p.numMissing <= 1
      && (!cfg.debugStatistics ==> o.p.numFixed == p.numFixed)
  {
    match Get(p.fields, "type")
    case None =>
    case Some(kind) =>
      var p2 := Prepared(cfg, bib, p, kind);
      PreparedSpec(cfg, bib, p, kind);
      SearchedSpec(cfg, lookup, p2);
      match Searched(cfg, lookup, p2)
      case Err(_) =>
      case Ok(p3) =>
        EscapeDoiSpec(bib, p3);
        EmitSpec(cfg.fieldRemoval, EscapeDoi(bib, p3), "doi");
  }

  /** A completed call writes the opening line with the entry's type and the
      key, then the body of the finished entry, which has no type field any
      more; the written line of every `Writable` field reads back as
      that field. */
  lemma FinalizeOutput(cfg: Config, bib: string, p: Progress, lookup: Lookup)
    requires Distinct(p.fields)
    ensures var o := Finalize(cfg, bib, p, lookup);
      o.status.Done? ==>
        && Has(p.fields, "type")
        && !Has(o.p.fields, "type")
        && Distinct(o.p.fields)
        && o.p.out == p.out + Header(Get(p.fields, "type").value, bib) + Body(o.p.fields, cfg.fieldRemoval)
        && BodyReadable(o.p.fields, cfg.fieldRemoval)
  {
    match Get(p.fields, "type")
    case None =>
    case Some(kind) =>
      var p2 := Prepared(cfg, bib, p, kind);
      PreparedSpec(cfg, bib, p, kind);
      SearchedSpec(cfg, lookup, p2);
      match Searched(cfg, lookup, p2)
      case Err(_) =>
      case Ok(p3) =>
        EscapeDoiSpec(bib, p3);
        EmitSpec(cfg.fieldRemoval, EscapeDoi(bib, p3), "type");
        BodyReadsBack(Finalize(cfg, bib, p, lookup).p.fields, cfg.fieldRemoval);
  }
}
