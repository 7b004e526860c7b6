/** The line-driven parser as a state machine on values: the state of a
    `Parser` object, and what `clear`, `add_new_bib`, `write_current_item`
    and `parse_line` make of it. The class `BibParser.Parser` is proved to
    follow these functions step by step. */
module Machine {
  import opened Wrappers
  import opened Text
  import opened Dict
  import opened Lines
  import opened Output
  import opened Entry

  /** The attributes of a `Parser`. `cur` is the entry the parser writes
      into: a reference to one of the dicts stored in `bibDict`, modelled as
      the key under which that dict is stored. `out` is what has been
      written to the output file. */
  datatype ParserState = ParserState(
    bibDict: map<string, Fields>,
    doiDict: map<string, string>,
    duplicated: bool,
    numMissing: nat,
    numDuplicated: nat,
    numFixed: nat,
    cur: Option<string>,
    bib: string,
    out: string)

  /** The state after a call, and whether it returned or raised. */
  datatype Step = Step(s: ParserState, status: Status)

  /** The two lines written first when `printSelfInfo` is set. */
  const SelfInfo := "% Automatically generated by DuBibTeX.\n% https://github.com/ruofeidu/DuBibtex\n"

  /** The state after construction: nothing read yet, the DOI cache loaded
      from the saved JSON file when `useOfflineDOI` is set. */
  function Init(cfg: Config, savedDois: map<string, string>): ParserState
  {
    ParserState(map[], if cfg.useOfflineDOI then savedDois else map[], false, 0, 0, 0, None,
                "", if cfg.printSelfInfo then SelfInfo else "")
  }

  /** What the parser maintains between lines: `cur` names a stored entry
      (there is none before the first entry); outside a repeated entry a
      non-empty `bib` is the entry being read; a repeated entry's key is
      stored already; no stored entry has a key twice. */
  ghost predicate Consistent(s: ParserState)
  {
    && (s.cur.Some? ==> s.cur.value in s.bibDict)
    && (s.cur.None? ==> s.bibDict == map[])
    && (s.bib != "" && !s.duplicated ==> s.cur == Some(s.bib))
    && (s.duplicated ==> s.bib != "" && s.bib in s.bibDict)
    && (forall k | k in s.bibDict :: Distinct(s.bibDict[k]))
  }

  /** `clear`: back to the idle state. */
  function Clear(s: ParserState): ParserState
  {
    s.(duplicated := false, bib := "")
  }

  /** `add_new_bib`: the first entry with a key is kept; a later one with
      the same key only marks the parser as inside a repeated entry. */
  function AddNewBib(s: ParserState, key: string, kind: string): ParserState
  {
    if key in s.bibDict then s.(bib := key, duplicated := true)
    else s.(bib := key, bibDict := s.bibDict[key := [Field("type", kind)]], cur := Some(key))
  }

  /** The part of the state `write_current_item` works on, for the entry `c`. */
  function ProgressOf(s: ParserState, c: string): Progress
    requires c in s.bibDict
  {
    Progress(s.bibDict[c], s.doiDict, s.numMissing, s.numFixed, s.out)
  }

  /** The state with that part replaced. */
  function WithProgress(s: ParserState, c: string, p: Progress): ParserState
  {
    s.(bibDict := s.bibDict[c := p.fields], doiDict := p.doiDict, numMissing := p.numMissing,
       numFixed := p.numFixed, out := p.out)
  }

  lemma ProgressRoundTrip(s: ParserState, c: string)
    requires c in s.bibDict
    ensures WithProgress(s, c, ProgressOf(s, c)) == s
  {
    assert s.bibDict[c := s.bibDict[c]] == s.bibDict;
  }

  lemma ProgressOfWith(s: ParserState, c: string, p: Progress)
    ensures c in WithProgress(s, c, p).bibDict
    ensures ProgressOf(WithProgress(s, c, p), c) == p
  {
  }

  lemma WithProgressTwice(s: ParserState, c: string, p: Progress, q: Progress)
    ensures WithProgress(WithProgress(s, c, p), c, q) == WithProgress(s, c, q)
  {
    assert s.bibDict[c := p.fields][c := q.fields] == s.bibDict[c := q.fields];
  }

  /** `write_current_item`: the current entry is completed and written under
      the key `bib`. Without a current entry, indexing `None` raises a
      `TypeError`. */
  function WriteCurrentItem(cfg: Config, s: ParserState, lookup: Lookup): Step
    requires s.cur.Some? ==> s.cur.value in s.bibDict
  {
    match s.cur
    case None => Step(s, Raised(TypeError))
    case Some(c) =>
      var o := Finalize(cfg, s.bib, ProgressOf(s, c), lookup);
      Step(WithProgress(s, c, o.p), o.status)
  }

  /** `parse_line`. A closing line writes the entry (unless it repeats a
      key) and returns to the idle state; an exception skips the reset.
      Inside a repeated entry every other line is only counted. An opening
      line starts an entry and the line is then examined further: while
      idle it is written through when comments are kept; inside an entry a
      field line sets that field of the current entry. */
  function ParseLine(cfg: Config, s: ParserState, line: string, lookup: Lookup): Step
    requires Consistent(s)
  {
    if IsClosing(line) then
      if !s.duplicated then
        var w := WriteCurrentItem(cfg, s, lookup);
        if w.status.Raised? then w else Step(Clear(w.s), Done)
      else Step(Clear(s), Done)
    else if s.duplicated then
      Step(if cfg.debugStatistics then s.(numDuplicated := s.numDuplicated + 1) else s, Done)
    else
      var s1 := match MatchOpening(line)
        case Some(o) => AddNewBib(s, o.key, o.kind)
        case None => s;
      if s1.bib == "" then
        Step(if cfg.keepComments then s1.(out := s1.out + line) else s1, Done)
      else
        match LineField(line)
        case None => Step(s1, Done)
        case Some(f) =>
          match s1.cur
          case None => Step(s1, Raised(TypeError))
          case Some(c) =>
            Step(s1.(bibDict := s1.bibDict[c := Set(s1.bibDict[c], f.name, f.value)]), Done)
  }

  // ---------------------------------------------------------------------------
  // The invariant

  lemma InitConsistent(cfg: Config, savedDois: map<string, string>)
    ensures Consistent(Init(cfg, savedDois))
    ensures var s := Init(cfg, savedDois);
      s.bib == "" && !s.duplicated && s.cur == None && s.bibDict == map[]
  {
  }

  /** `add_new_bib` keeps the invariant and leaves the parser inside an entry. */
  lemma AddNewBibConsistent(s: ParserState, key: string, kind: string)
    requires Consistent(s) && key != ""
    ensures Consistent(AddNewBib(s, key, kind))
    ensures AddNewBib(s, key, kind).bib == key
  {
  }

  /** Writing keeps the invariant, whether it completes or raises. */
  lemma WriteCurrentItemConsistent(cfg: Config, s: ParserState, lookup: Lookup)
    requires Consistent(s)
    ensures Consistent(WriteCurrentItem(cfg, s, lookup).s)
  {
    match s.cur
    case None =>
    case Some(c) =>
      FinalizeDistinct(cfg, s.bib, ProgressOf(s, c), lookup);
  }

  /** Every line keeps the invariant, whether the call completes or raises. */
  lemma ParseLineConsistent(cfg: Config, s: ParserState, line: string, lookup: Lookup)
    requires Consistent(s)
    ensures Consistent(ParseLine(cfg, s, line, lookup).s)
  {
    if IsClosing(line) {
      WriteCurrentItemConsistent(cfg, s, lookup);
    } else if !s.duplicated {
      match MatchOpening(line)
      case Some(o) =>
        AddNewBibConsistent(s, o.key, o.kind);
        FieldSetConsistent(AddNewBib(s, o.key, o.kind), line);
      case None =>
        FieldSetConsistent(s, line);
    }
  }

  /** A field line read inside an entry keeps the invariant. */
  lemma FieldSetConsistent(s: ParserState, line: string)
    requires Consistent(s)
    ensures LineField(line).Some? && s.cur.Some? ==>
      var c := s.cur.value;
      var f := LineField(line).value;
      Consistent(s.(bibDict := s.bibDict[c := Set(s.bibDict[c], f.name, f.value)]))
  {
    if LineField(line).Some? && s.cur.Some? {
      var f := LineField(line).value;
      SetSpec(s.bibDict[s.cur.value], f.name, f.value);
    }
  }

  // ---------------------------------------------------------------------------
  // What each kind of line does

  /** The first entry with a key wins: a repeated key changes nothing stored
      and marks the parser as inside a repeated entry; a new key is stored
      with its type as the only field and becomes the current entry. */
  lemma AddNewBibFirstWins(s: ParserState, key: string, kind: string)
    ensures var t := AddNewBib(s, key, kind);
      && t.bib == key
      && t.doiDict == s.doiDict && t.out == s.out
      && (key in s.bibDict ==> t.duplicated && t.bibDict == s.bibDict && t.cur == s.cur)
      && (key !in s.bibDict ==>
            && t.duplicated == s.duplicated
            && t.cur == Some(key)
            && t.bibDict.Keys == s.bibDict.Keys + {key}
            && t.bibDict[key] == [Field("type", kind)]
            && (forall k | k in s.bibDict :: t.bibDict[k] == s.bibDict[k]))
  {
  }

  /** Inside a repeated entry a line other than the closing one changes
      nothing but the count of repeated lines, which only grows with the
      statistics switch on. */
  lemma DuplicateLineOnlyCounts(cfg: Config, s: ParserState, line: string, lookup: Lookup)
    requires Consistent(s) && s.duplicated && !IsClosing(line)
    ensures var t := ParseLine(cfg, s, line, lookup);
      && t.status == Done
      && t.s == s.(numDuplicated := t.s.numDuplicated)
      && t.s.numDuplicated == s.numDuplicated + (if cfg.debugStatistics then 1 else 0)
  {
  }

  /** A closing line always ends in the idle state when it returns. Inside a
      repeated entry nothing is written and nothing else changes; otherwise
      the current entry is written. */
  lemma ClosingLineResets(cfg: Config, s: ParserState, line: string, lookup: Lookup)
    requires Consistent(s) && IsClosing(line)
    ensures var t := ParseLine(cfg, s, line, lookup);
      && (t.status == Done ==> !t.s.duplicated && t.s.bib == "")
      && (s.duplicated ==> t == Step(Clear(s), Done))
      && (!s.duplicated ==> t.s.bib == "" || t == WriteCurrentItem(cfg, s, lookup))
      && (!s.duplicated && t.status == Done ==> t.s == Clear(WriteCurrentItem(cfg, s, lookup).s))
  {
  }

  /** A closing line before any entry has been opened raises a `TypeError`
      without writing; a second closing line after an entry raises a
      `KeyError` for the type, which the first one deleted. */
  lemma StrayClosingLineRaises(cfg: Config, s: ParserState, line: string, lookup: Lookup)
    requires Consistent(s) && IsClosing(line) && !s.duplicated
    ensures s.cur.None? ==> ParseLine(cfg, s, line, lookup) == Step(s, Raised(TypeError))
    ensures s.cur.Some? && !Has(s.bibDict[s.cur.value], "type") ==>
      ParseLine(cfg, s, line, lookup) == Step(s, Raised(KeyError("type")))
  {
    if s.cur.Some? && !Has(s.bibDict[s.cur.value], "type") {
      var c := s.cur.value;
      assert Get(s.bibDict[c], "type").None?;
      assert s.bibDict[c := s.bibDict[c]] == s.bibDict;
    }
  }

  /** While idle, a line that opens no entry is written through exactly when
      comments are kept, and is never stored as a field. */
  lemma IdleLinePassesThrough(cfg: Config, s: ParserState, line: string, lookup: Lookup)
    requires Consistent(s) && s.bib == "" && !IsClosing(line) && MatchOpening(line).None?
    ensures var t := ParseLine(cfg, s, line, lookup);
      && t.status == Done
      && t.s == s.(out := t.s.out)
      && t.s.out == (if cfg.keepComments then s.out + line else s.out)
  {
  }

  /** An opening line starts an entry under its key, and is not itself read
      as a field. */
  lemma OpeningLineStartsEntry(cfg: Config, s: ParserState, line: string, lookup: Lookup)
    requires Consistent(s) && !s.duplicated && MatchOpening(line).Some?
    ensures var o := MatchOpening(line).value;
      ParseLine(cfg, s, line, lookup) == Step(AddNewBib(s, o.key, o.kind), Done)
  {
    LineKindsExclusive(line);
  }

  /** Inside an entry that is not repeated, a field line sets that field of
      the entry being read, overwriting an earlier value for the same name,
      and changes nothing else. */
  lemma FieldLineSetsField(cfg: Config, s: ParserState, line: string, lookup: Lookup)
    requires Consistent(s) && s.bib != "" && !s.duplicated
    requires !IsClosing(line) && MatchOpening(line).None? && LineField(line).Some?
    ensures var f := LineField(line).value;
      var t := ParseLine(cfg, s, line, lookup);
      && t.status == Done
      && t.s == s.(bibDict := t.s.bibDict)
      && t.s.bibDict.Keys == s.bibDict.Keys
      && Get(t.s.bibDict[s.bib], f.name) == Some(f.value)
      && (forall k | k != f.name :: Get(t.s.bibDict[s.bib], k) == Get(s.bibDict[s.bib], k))
      && (forall b | b in s.bibDict && b != s.bib :: t.s.bibDict[b] == s.bibDict[b])
  {
    var f := LineField(line).value;
    SetSpec(s.bibDict[s.bib], f.name, f.value);
  }

  /** Inside an entry, a line that is no field line, no opening and no
      closing line changes nothing. */
  lemma OtherLineIgnored(cfg: Config, s: ParserState, line: string, lookup: Lookup)
    requires Consistent(s) && s.bib != "" && !s.duplicated
    requires !IsClosing(line) && MatchOpening(line).None? && LineField(line).None?
    ensures ParseLine(cfg, s, line, lookup) == Step(s, Done)
  {
  }

  /** Closing an entry that was opened and not repeated writes its opening
      line and its body, records its DOI and stores the finished fields; the
      parser ends idle. */
  lemma ClosingLineWritesEntry(cfg: Config, s: ParserState, line: string, lookup: Lookup)
    requires Consistent(s) && IsClosing(line) && s.bib != "" && !s.duplicated
    ensures var t := ParseLine(cfg, s, line, lookup);
      t.status == Done ==>
        && t.s.bib == "" && !t.s.duplicated
        && Has(s.bibDict[s.bib], "type")
        && t.s.out == s.out + Header(Get(s.bibDict[s.bib], "type").value, s.bib)
                            + Body(t.s.bibDict[s.bib], cfg.fieldRemoval)
        && !Has(t.s.bibDict[s.bib], "type")
        && DoiRecorded(s.bib, s.doiDict, ProgressOf(t.s, s.bib))
        && t.s.bibDict.Keys == s.bibDict.Keys
  {
    var p := ProgressOf(s, s.bib);
    FinalizeOutput(cfg, s.bib, p, lookup);
    FinalizeRecordsDoi(cfg, s.bib, p, lookup);
  }
}
