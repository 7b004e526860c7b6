/** The `Parser` object: its attributes are updated in place, line by line.
    Each method is proved to leave the object in the state the corresponding
    function of `Machine` or `Entry` describes. */
module BibParser {
  import opened Wrappers
  import opened Dict
  import opened YearKey
  import opened Underscore
  import opened TitleCase
  import opened Lines
  import opened Output
  import opened Entry
  import opened Machine

  class Parser {
    const cfg: Config
    var bibDict: map<string, Fields>
    var doiDict: map<string, string>
    var duplicated: bool
    var numMissing: nat
    var numDuplicated: nat
    var numFixed: nat
    var cur: Option<string>
    var bib: string
    var out: string

    /** The attributes as a value. */
    function State(): ParserState
      reads this
    {
      ParserState(bibDict, doiDict, duplicated, numMissing, numDuplicated, numFixed, cur, bib, out)
    }

    ghost predicate Valid()
      reads this
    {
      Consistent(State())
    }

    /** The fields of the current entry are stored and have distinct keys. */
    ghost predicate HasCurrent()
      reads this
    {
      cur.Some? && cur.value in bibDict && Distinct(bibDict[cur.value])
    }

    /** The parser after `__init__`, with the configuration already read and
        the saved DOI cache given as `savedDois`. */
    constructor(cfg: Config, savedDois: map<string, string>)
      ensures this.cfg == cfg
      ensures State() == Init(cfg, savedDois)
      ensures Valid()
    {
      this.cfg := cfg;
      bibDict := map[];
      doiDict := map[];
      duplicated := false;
      numMissing, numDuplicated, numFixed := 0, 0, 0;
      cur, bib := None, "";
      out := "";
      new;
      if cfg.printSelfInfo {
        out := out + SelfInfo;
      }
      if cfg.useOfflineDOI {
        doiDict := savedDois;
      }
    }

    /** `clear` */
    method Clear()
      modifies this
      ensures State() == Machine.Clear(old(State()))
    {
      duplicated := false;
      bib := "";
    }

    /** `fix_doi` */
    method FixDoi(d: string)
      requires HasCurrent()
      modifies this
      ensures HasCurrent() && cur == old(cur)
      ensures State() == WithProgress(old(State()), cur.value,
                                      Entry.FixDoi(cfg, ProgressOf(old(State()), cur.value), d))
    {
      if cfg.debugStatistics {
        numMissing := numMissing + 1;
        numFixed := numFixed + 1;
      }
      var c := cur.value;
      ghost var s0 := old(State());
      ghost var q := Entry.FixDoi(cfg, ProgressOf(s0, c), d);
      var fs := Set(bibDict[c], "doi", d);
      if cfg.doi2url {
        fs := Set(fs, "url", "http://doi.org/" + d);
      }
      assert fs == q.fields;
      FixDoiSpec(cfg, ProgressOf(s0, c), d);
      bibDict := bibDict[c := fs];
      ghost var s1 := WithProgress(s0, c, q);
      assert s1.bibDict == bibDict && s1.doiDict == doiDict && s1.out == out;
      assert s1.numMissing == numMissing && s1.numFixed == numFixed;
      assert State() == s1;
    }

    /** `add_new_bib` */
    method AddNewBib(key: string, kind: string)
      modifies this
      ensures State() == Machine.AddNewBib(old(State()), key, kind)
    {
      bib := key;
      if bib in bibDict {
        duplicated := true;
        return;
      }
      bibDict := bibDict[bib := []];
      cur := Some(bib);
      assert Set([], "type", kind) == [Field("type", kind)];
      bibDict := bibDict[cur.value := Set(bibDict[cur.value], "type", kind)];
      assert bibDict == old(bibDict)[key := [Field("type", kind)]];
    }

    /** The opening line, year inference and the DOI cache. */
    method PrepareEntry(kind: string)
      requires HasCurrent()
      modifies this
      ensures HasCurrent() && cur == old(cur)
      ensures State() == WithProgress(old(State()), cur.value,
                                      Prepared(cfg, bib, ProgressOf(old(State()), cur.value), kind))
    {
      var c := cur.value;
      ghost var p0 := ProgressOf(State(), c);
      out := out + Header(kind, bib);
      var fs := bibDict[c];
      var year := Get(fs, "year");
      if year.None? || |year.value| < 4 {
        var m := YearCapture(bib);
        if m.Some? {
          fs := Set(fs, "year", m.value);
        }
      }
      assert fs == InferYear(bib, p0.fields);
      InferYearSpec(bib, p0.fields);
      bibDict := bibDict[c := fs];
      ghost var p1 := p0.(out := p0.out + Header(kind, bib), fields := fs);
      ghost var s1 := WithProgress(old(State()), c, p1);
      assert s1.bibDict == bibDict && s1.doiDict == doiDict && s1.out == out;
      assert s1.numMissing == numMissing && s1.numFixed == numFixed;
      assert State() == s1;
      ProgressOfWith(old(State()), c, p1);
      if bib in doiDict {
        FixDoi(doiDict[bib]);
        WithProgressTwice(old(State()), c, p1, Entry.FixDoi(cfg, p1, doiDict[bib]));
      }
    }

    /** The DOI search for an entry the search condition selected. A missing
        title raises before anything changes. */
    method SearchDoi(lookup: Lookup) returns (status: Status)
      requires HasCurrent()
      modifies this
      ensures HasCurrent() && cur == old(cur)
      ensures var r := Search(cfg, ProgressOf(old(State()), cur.value), lookup);
        && (status.Raised? <==> r.Err?)
        && (r.Err? ==> status == Raised(r.error) && State() == old(State()))
        && (r.Ok? ==> State() == WithProgress(old(State()), cur.value, r.value))
    {
      var c := cur.value;
      SearchSpec(cfg, ProgressOf(State(), c), lookup);
      var title := Get(bibDict[c], "title");
      if title.None? {
        return Raised(KeyError("title"));
      }
      if IsArxivJournal(bibDict[c]) {
        var id := lookup.arxivId(title.value);
        if id.Some? {
          bibDict := bibDict[c := Set(bibDict[c], "url", "https://arxiv.org/pdf/" + id.value)];
        }
      } else {
        var d := lookup.google(title.value);
        if !Truthy(d) {
          d := lookup.crossref(title.value);
        }
        if Truthy(d) {
          FixDoi(d.value);
        } else {
          numMissing := numMissing + 1;
        }
      }
      return Done;
    }

    /** The DOI, if any, is escaped and recorded in the cache. */
    method RecordDoi()
      requires HasCurrent()
      modifies this
      ensures HasCurrent() && cur == old(cur)
      ensures State() == WithProgress(old(State()), cur.value,
                                      Entry.EscapeDoi(bib, ProgressOf(old(State()), cur.value)))
    {
      var c := cur.value;
      var doi := Get(bibDict[c], "doi");
      if doi.Some? {
        SetSpec(bibDict[c], "doi", FixUnderscore(doi.value));
        bibDict := bibDict[c := Set(bibDict[c], "doi", FixUnderscore(doi.value))];
        doiDict := doiDict[bib := Get(bibDict[c], "doi").value];
      }
    }

    /** `del cur['type']`, the emission loop and the closing brace. */
    method EmitEntry()
      requires HasCurrent()
      modifies this
      ensures cur == old(cur) && cur.Some?
      ensures State() == WithProgress(old(State()), cur.value,
                                      Emit(cfg.fieldRemoval, ProgressOf(old(State()), cur.value)))
    {
      var c := cur.value;
      ghost var p := ProgressOf(State(), c);
      var fs := Delete(bibDict[c], "type");
      DeleteSpec(bibDict[c], "type");
      var done, text := EmitFields(fs, cfg.fieldRemoval);
      assert Emit(cfg.fieldRemoval, p) == p.(fields := done, out := out + (text + "}\n\n"));
      bibDict := bibDict[c := done];
      out := out + (text + "}\n\n");
    }

    /** What follows the search: the DOI is escaped and recorded, and the
        entry is written. */
    method FinishEntry()
      requires HasCurrent()
      modifies this
      ensures cur == old(cur) && cur.Some?
      ensures State() == WithProgress(old(State()), cur.value,
        Emit(cfg.fieldRemoval, Entry.EscapeDoi(bib, ProgressOf(old(State()), cur.value))))
    {
      var c := cur.value;
      ghost var s0 := State();
      ghost var p4 := Entry.EscapeDoi(bib, ProgressOf(s0, c));
      RecordDoi();
      EscapeDoiSpec(bib, ProgressOf(s0, c));
      ProgressOfWith(s0, c, p4);
      EmitEntry();
      WithProgressTwice(s0, c, p4, Emit(cfg.fieldRemoval, p4));
    }

    /** `write_current_item` */
    method WriteCurrentItem(lookup: Lookup) returns (status: Status)
      requires Valid()
      modifies this
      ensures Step(State(), status) == Machine.WriteCurrentItem(cfg, old(State()), lookup)
    {
      if cur.None? {
        return Raised(TypeError);
      }
      var c := cur.value;
      ghost var s0 := State();
      ghost var p0 := ProgressOf(s0, c);
      var kind := Get(bibDict[c], "type");
      if kind.None? {
        ProgressRoundTrip(s0, c);
        return Raised(KeyError("type"));
      }
      ghost var p2 := Prepared(cfg, bib, p0, kind.value);
      PrepareEntry(kind.value);
      PreparedSpec(cfg, bib, p0, kind.value);
      var wanted := SearchWanted(cfg, bibDict[c]);
      if wanted.Err? {
        assert Finalize(cfg, s0.bib, p0, lookup) == Outcome(p2, Raised(wanted.error));
        return Raised(wanted.error);
      }
      if wanted.value {
        ProgressOfWith(s0, c, p2);
        status := SearchDoi(lookup);
        if status.Raised? {
          assert Finalize(cfg, s0.bib, p0, lookup) == Outcome(p2, status);
          return;
        }
        SearchSpec(cfg, p2, lookup);
        WithProgressTwice(s0, c, p2, Search(cfg, p2, lookup).value);
      }
      assert Searched(cfg, lookup, p2).Ok?;
      ghost var p3 := Searched(cfg, lookup, p2).value;
      assert State() == WithProgress(s0, c, p3);
      ProgressOfWith(s0, c, p3);
      FinishEntry();
      WithProgressTwice(s0, c, p3, Emit(cfg.fieldRemoval, Entry.EscapeDoi(bib, p3)));
      assert Finalize(cfg, s0.bib, p0, lookup) == Outcome(Emit(cfg.fieldRemoval, Entry.EscapeDoi(bib, p3)), Done);
      return Done;
    }

    /** `parse_line` */
    method ParseLine(line: string, lookup: Lookup) returns (status: Status)
      requires Valid()
      modifies this
      ensures Valid()
      ensures Step(State(), status) == Machine.ParseLine(cfg, old(State()), line, lookup)
    {
      ParseLineConsistent(cfg, State(), line, lookup);
      if IsClosing(line) {
        status := CloseEntry(line, lookup);
      } else if duplicated {
        if cfg.debugStatistics {
          numDuplicated := numDuplicated + 1;
        }
        status := Done;
      } else {
        status := ReadLine(line);
      }
    }

    /** The closing line: the entry is written unless it is a duplicate, and
        the parser is cleared unless writing raised. */
    method CloseEntry(line: string, lookup: Lookup) returns (status: Status)
      requires Valid() && IsClosing(line)
      modifies this
      ensures Step(State(), status) == Machine.ParseLine(cfg, old(State()), line, lookup)
    {
      if !duplicated {
        status := WriteCurrentItem(lookup);
        if status.Raised? {
          return;
        }
      }
      Clear();
      return Done;
    }

    /** A line inside or between entries that does not close one: an opening
        line starts an entry, a line outside every entry is copied when
        comments are kept, and a field line sets its field. */
    method ReadLine(line: string) returns (status: Status)
      requires Valid() && !IsClosing(line) && !duplicated
      modifies this
      ensures forall lookup: Lookup :: Step(State(), status) == Machine.ParseLine(cfg, old(State()), line, lookup)
    {
      var m := MatchOpening(line);
      if m.Some? {
        AddNewBibConsistent(State(), m.value.key, m.value.kind);
        AddNewBib(m.value.key, m.value.kind);
      }
      if bib == "" {
        if cfg.keepComments {
          out := out + line;
        }
        return Done;
      }
      var f := MatchField(line, true);
      if f.None? {
        f := MatchField(line, false);
      }
      if f.Some? {
        var c := cur.value;
        bibDict := bibDict[c := Set(bibDict[c], f.value.name, f.value.value)];
      }
      return Done;
    }
  }

  /** The emission loop of `write_current_item` over the keys of the entry
      `fs`, each key handled by `EmitField`. */
  method EmitFields(fs: Fields, removal: seq<string>) returns (done: Fields, text: string)
    requires Distinct(fs)
    ensures done == Normalized(fs, removal)
    ensures text == FieldLines(done, removal, |done|)
  {
    ghost var norm := Normalized(fs, removal);
    done := fs;
    text := "";
    var n := |done|;
    var i := 0;
    while i < n
      invariant 0 <= i <= n == |fs| == |done| == |norm|
      invariant forall j | 0 <= j < n :: done[j].name == fs[j].name
      invariant forall j | 0 <= j < i :: done[j] == norm[j]
      invariant forall j | i <= j < n :: done[j] == fs[j]
      invariant text == FieldLines(norm, removal, i)
    {
      assert Distinct(done);
      var piece;
      done, piece := EmitField(done, removal, i);
      assert done[i] == norm[i];
      assert piece == FieldLine(norm, removal, i);
      text := text + piece;
      i := i + 1;
    }
    assert done == norm;
  }

  /** One pass of the emission loop, at position `i` of the entry `fs`: a
      removed key is skipped; otherwise a titled key has its value
      title-cased in the entry, and the key is written. */
  method EmitField(fs: Fields, removal: seq<string>, i: nat) returns (done: Fields, piece: string)
    requires Distinct(fs) && i < |fs|
    ensures done == fs[i := NormalizeField(fs[i], removal)]
    ensures piece == FieldLine(done, removal, i)
  {
    if fs[i].name in removal {
      return fs, "";
    }
    done := TitleCaseField(fs, removal, i);
    piece := WriteField(done, i);
  }

  /** `cur[key] = capitalize(cur[key])` for a titled key at position `i`. */
  method TitleCaseField(fs: Fields, removal: seq<string>, i: nat) returns (done: Fields)
    requires Distinct(fs) && i < |fs| && fs[i].name !in removal
    ensures done == fs[i := NormalizeField(fs[i], removal)]
  {
    done := fs;
    var key := fs[i].name;
    if IsTitled(key) {
      GetOfDistinct(fs, i);
      IndexOfIs(fs, key, i);
      var v := Capitalize(Get(fs, key).value, ' ');
      assert NormalizeField(fs[i], removal) == Field(key, v);
      done := Set(fs, key, v);
      assert done == fs[i := Field(key, v)];
    }
  }

  /** The line written for the key at position `i`: `  key={value}`, the
      title double-braced, a comma unless `i` is the last position, and a
      line break. */
  method WriteField(fs: Fields, i: nat) returns (piece: string)
    requires Distinct(fs) && i < |fs|
    ensures piece == FieldText(fs[i]) + (if i != |fs| - 1 then "," else "") + "\n"
  {
    var key := fs[i].name;
    GetOfDistinct(fs, i);
    var value := Get(fs, key).value;
    if key == "title" {
      piece := "  " + key + "={{" + value + "}}";
    } else {
      piece := "  " + key + "={" + value + "}";
    }
    if i != |fs| - 1 {
      piece := piece + ",";
    }
    piece := piece + "\n";
  }
}
