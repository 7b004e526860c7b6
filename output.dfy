/** The text `write_current_item` produces for one entry: the opening line,
    one line per field that is not in the removal list, and the closing
    brace. */
module Output {
  import opened Wrappers
  import opened Text
  import opened Dict
  import opened Lines
  import opened TitleCase

  /** `@type{key,` and a line break. */
  function Header(kind: string, key: string): string
  {
    "@" + kind + "{" + key + ",\n"
  }

  /** The keys whose values are title-cased before they are written. */
  predicate IsTitled(name: string)
  {
    name == "booktitle" || name == "journal" || name == "title"
  }

  /** A field as the emission loop leaves it in the entry: title-cased when
      its key is titled and not removed, unchanged otherwise. */
  function NormalizeField(f: Field, removal: seq<string>): Field
  {
    if f.name !in removal && IsTitled(f.name) then Field(f.name, Capitalized(f.value, ' ')) else f
  }

  function Normalized(fs: Fields, removal: seq<string>): (r: Fields)
    ensures |r| == |fs|
    ensures forall i | 0 <= i < |fs| :: r[i].name == fs[i].name
  {
    seq(|fs|, i requires 0 <= i < |fs| => NormalizeField(fs[i], removal))
  }

  /** Title-casing keeps every key and its position; a key that is not
      titled, or is removed, keeps its value. */
  lemma NormalizedGet(fs: Fields, removal: seq<string>, k: string)
    ensures Distinct(fs) ==> Distinct(Normalized(fs, removal))
    ensures Has(Normalized(fs, removal), k) == Has(fs, k)
    ensures !IsTitled(k) || k in removal ==> Get(Normalized(fs, removal), k) == Get(fs, k)
    ensures IsTitled(k) && k !in removal && Has(fs, k) ==>
      Get(Normalized(fs, removal), k) == Some(Capitalized(Get(fs, k).value, ' '))
  {
    var r := Normalized(fs, removal);
    IndexOfSameNames(r, fs, k);
  }

  /** `  key={value}`, or `  title={{value}}` for the title. */
  function FieldText(f: Field): string
  {
    if f.name == "title" then "  " + f.name + "={{" + f.value + "}}"
    else "  " + f.name + "={" + f.value + "}"
  }

  /** What position `i` contributes: nothing for a removed key, otherwise its
      text, a comma unless `i` is the last position of the whole entry
      (removed keys included), and a line break. */
  function FieldLine(fs: Fields, removal: seq<string>, i: nat): string
    requires i < |fs|
  {
    if fs[i].name in removal then ""
    else FieldText(fs[i]) + (if i != |fs| - 1 then "," else "") + "\n"
  }

  /** The lines of the first `n` positions. */
  function FieldLines(fs: Fields, removal: seq<string>, n: nat): string
    requires n <= |fs|
  {
    if n == 0 then "" else FieldLines(fs, removal, n - 1) + FieldLine(fs, removal, n - 1)
  }

  /** The field lines and the closing brace with an empty line. */
  function Body(fs: Fields, removal: seq<string>): string
  {
    FieldLines(fs, removal, |fs|) + "}\n\n"
  }

  // ---------------------------------------------------------------------------
  // The comma placement

  /** The positions from `k + 1` up to `n` are all removed, so they add nothing. */
  lemma {:induction false} RemovedTailAddsNothing(fs: Fields, removal: seq<string>, k: nat, n: nat)
    requires k < n <= |fs|
    requires forall j | k < j < n :: fs[j].name in removal
    ensures FieldLines(fs, removal, n) == FieldLines(fs, removal, k + 1)
    decreases n
  {
    if n > k + 1 {
      RemovedTailAddsNothing(fs, removal, k, n - 1);
    }
  }

  /** The comma is placed by position over all keys, so when the last key of
      the entry is removed, the last written field keeps its comma and the
      entry ends in `,` before the closing brace; when the last key is kept,
      no comma precedes the closing brace. */
  lemma TrailingComma(fs: Fields, removal: seq<string>, k: nat)
    requires k < |fs| && fs[k].name !in removal
    ensures var b := Body(fs, removal);
      |b| >= 5 && (b[|b| - 5..] == ",\n}\n\n" <==> fs[|fs| - 1].name in removal)
  {
    var last := LastKept(fs, removal, k, |fs|);
    RemovedTailAddsNothing(fs, removal, last, |fs|);
    var t := FieldText(fs[last]);
    assert t[|t| - 1] == '}';
    var comma := last != |fs| - 1;
    assert comma == (fs[|fs| - 1].name in removal);
    var pre := FieldLines(fs, removal, last);
    assert FieldLines(fs, removal, last + 1) == pre + FieldLine(fs, removal, last);
    assert FieldLine(fs, removal, last) == t + (if comma then "," else "") + "\n";
    CommaBeforeClose(pre, t, comma);
  }

  lemma CommaBeforeClose(pre: string, t: string, comma: bool)
    requires |t| > 0 && t[|t| - 1] == '}'
    ensures var b := pre + t + (if comma then "," else "") + "\n" + "}\n\n";
      |b| >= 5 && (b[|b| - 5..] == ",\n}\n\n" <==> comma)
  {
    var b := pre + t + (if comma then "," else "") + "\n" + "}\n\n";
    if !comma {
      assert b[|b| - 5] == t[|t| - 1];
    }
  }

  /** The last kept position below `n`, given one at `k`. */
  function LastKept(fs: Fields, removal: seq<string>, k: nat, n: nat): (last: nat)
    requires k < n <= |fs| && fs[k].name !in removal
    ensures k <= last < n && fs[last].name !in removal
    ensures forall j | last < j < n :: fs[j].name in removal
    decreases n
  {
    if fs[n - 1].name !in removal then n - 1 else LastKept(fs, removal, k, n - 1)
  }

  // ---------------------------------------------------------------------------
  // The written lines read back

  /** The opening line written for an entry is recognised as an opening line
      with the same type and key. */
  lemma HeaderReadBack(kind: string, key: string)
    requires |kind| > 0 && All(kind, IsWordChar)
    requires |key| > 0 && All(key, IsKeyChar)
    ensures MatchOpening(Header(kind, key)) == Some(Opening(kind, key))
  {
    var line := Header(kind, key);
    var b := 1 + |kind|;
    var c := b + 1 + |key|;
    HeaderShape(kind, key);
    assert RunEnd(line, 0, IsSpace) == 0 by {
      RunEndIs(line, 0, 0, IsSpace);
    }
    assert RunEnd(line, 1, IsWordChar) == b by {
      forall j | 1 <= j < b ensures IsWordChar(line[j]) {
        assert line[j] == line[1..b][j - 1];
      }
      RunEndIs(line, 1, b, IsWordChar);
    }
    assert RunEnd(line, b + 1, IsKeyChar) == c by {
      forall j | b + 1 <= j < c ensures IsKeyChar(line[j]) {
        assert line[j] == line[b + 1..c][j - b - 1];
      }
      RunEndIs(line, b + 1, c, IsKeyChar);
    }
    MatchOpeningUnfold(line, b, c);
  }

  /** The opening pattern, unfolded over the positions its runs end at. */
  lemma MatchOpeningUnfold(line: string, b: nat, c: nat)
    requires 1 < b && b + 1 < c < |line|
    requires line[0] == '@' && line[b] == '{' && line[c] == ','
    requires RunEnd(line, 0, IsSpace) == 0
    requires RunEnd(line, 1, IsWordChar) == b
    requires RunEnd(line, b + 1, IsKeyChar) == c
    ensures MatchOpening(line) == Some(Opening(line[1..b], line[b + 1..c]))
  {
  }

  /** Where the type, the key and the punctuation sit in the opening line. */
  lemma HeaderShape(kind: string, key: string)
    ensures var line := Header(kind, key); var b := 1 + |kind|; var c := b + 1 + |key|;
      && |line| == c + 2 && line[0] == '@' && line[b] == '{' && line[c] == ','
      && line[1..b] == kind && line[b + 1..c] == key
  {
    var line := Header(kind, key);
    var b := 1 + |kind|;
    var c := b + 1 + |key|;
    var tail := "{" + key + ",\n";
    assert line == "@" + kind + tail;
    Pieces("@", kind, tail);
    assert line[b..] == tail;
    Pieces("{", key, ",\n");
    assert tail == "{" + key + ",\n";
    assert line[b + 1..c] == tail[1..1 + |key|];
  }

  lemma LastCloseIs(line: string, lo: nat, hi: nat, double: bool, e: nat)
    requires lo <= e <= hi <= |line|
    requires ClosesAt(line, e, double)
    requires forall p | e < p <= hi :: !ClosesAt(line, p, double)
    ensures LastClose(line, lo, hi, double) == Some(e)
  {
    var r := LastClose(line, lo, hi, double);
    assert r.Some?;
    assert r.value >= e;
  }

  /** A value a field line can carry through the parser unchanged: no line
      break, no leading white space, and (outside the title) no leading `{`,
      which would make the double-braced pattern apply. */
  predicate Writable(f: Field)
  {
    && |f.name| > 0 && All(f.name, IsWordChar)
    && All(f.value, NotNewline)
    && (f.value != [] ==> !IsSpace(f.value[0]) && (f.name != "title" ==> f.value[0] != '{'))
  }

  /** The field pattern, unfolded over the positions its runs end at. */
  lemma MatchFieldUnfold(line: string, double: bool, b: nat, v: nat, hi: nat, e: nat)
    requires 2 < b && b + 2 <= v <= e <= hi < |line|
    requires line[b] == '=' && line[b + 1] == '{'
    requires v == if double then b + 3 else b + 2
    requires double ==> line[b + 2] == '{'
    requires RunEnd(line, 0, IsSpace) == 2
    requires RunEnd(line, 2, IsWordChar) == b
    requires RunEnd(line, b, IsSpace) == b
    requires RunEnd(line, b + 1, IsSpace) == b + 1
    requires RunEnd(line, v, IsSpace) == v
    requires RunEnd(line, v, NotNewline) == hi
    requires LastClose(line, v, hi, double) == Some(e)
    ensures MatchField(line, double) == Some(Field(line[2..b], line[v..e]))
  {
  }

  /** The double-braced pattern fails on a line whose value does not open
      with `{`. */
  lemma NotDoubleBraced(line: string, b: nat)
    requires 2 < b && b + 2 < |line|
    requires line[0] == ' ' && line[1] == ' ' && !IsSpace(line[2])
    requires forall j | 2 <= j < b :: IsWordChar(line[j])
    requires line[b] == '=' && line[b + 1] == '{' && line[b + 2] != '{'
    ensures MatchField(line, true).None?
  {
    assert RunEnd(line, 0, IsSpace) == 2 by {
      RunEndIs(line, 0, 2, IsSpace);
    }
    assert RunEnd(line, 2, IsWordChar) == b by {
      RunEndIs(line, 2, b, IsWordChar);
    }
    assert RunEnd(line, b, IsSpace) == b && RunEnd(line, b + 1, IsSpace) == b + 1 by {
      RunEndIs(line, b, b, IsSpace);
      RunEndIs(line, b + 1, b + 1, IsSpace);
    }
  }

  /** The three parts of a concatenation, cut back out of it. */
  lemma Pieces(a: string, m: string, c: string)
    ensures (a + m + c)[..|a|] == a
    ensures (a + m + c)[|a|..|a| + |m|] == m
    ensures (a + m + c)[|a| + |m|..] == c
  {
    assert (a + m + c)[..|a|] == a;
    assert (a + m + c)[|a|..|a| + |m|] == m;
    assert (a + m + c)[|a| + |m|..] == c;
  }

  /** The shape of a written field line, as the field pattern sees it: two
      spaces, the name up to `b`, `={` (or `={{`), the value from `v` to
      `e`, then `}` (or `}}`), perhaps a comma, and the line break. */
  predicate FieldLineShape(line: string, double: bool, b: nat, v: nat, e: nat, tail: string)
  {
    && 2 < b && b + 2 <= v <= e <= |line|
    && line[0] == ' ' && line[1] == ' ' && !IsSpace(line[2])
    && (forall j | 2 <= j < b :: IsWordChar(line[j]))
    && line[b] == '=' && line[b + 1] == '{'
    && v == (if double then b + 3 else b + 2)
    && (double ==> line[b + 2] == '{')
    && (forall j | v <= j < e :: line[j] != '\n')
    && (v < e ==> !IsSpace(line[v]))
    && (tail == "\n" || tail == ",\n")
    && line[e..] == (if double then "}}" else "}") + tail
  }

  /** The field pattern on a line of that shape. */
  lemma MatchFieldIs(line: string, double: bool, b: nat, v: nat, e: nat, tail: string)
    requires FieldLineShape(line, double, b, v, e, tail)
    ensures MatchField(line, double) == Some(Field(line[2..b], line[v..e]))
  {
    ClosingSuffix(line, e, double, tail);
    var hi := |line| - 1;
    assert RunEnd(line, v, NotNewline) == hi by {
      forall j | v <= j < hi ensures line[j] != '\n' {
        if j >= e {
          assert line[j] == line[e..][j - e];
        }
      }
      assert line[hi] == '\n' by { assert line[hi] == line[e..][hi - e]; }
      RunEndIs(line, v, hi, NotNewline);
    }
    assert RunEnd(line, 0, IsSpace) == 2 by {
      RunEndIs(line, 0, 2, IsSpace);
    }
    assert RunEnd(line, 2, IsWordChar) == b by {
      RunEndIs(line, 2, b, IsWordChar);
    }
    assert RunEnd(line, b, IsSpace) == b && RunEnd(line, b + 1, IsSpace) == b + 1 by {
      RunEndIs(line, b, b, IsSpace);
      RunEndIs(line, b + 1, b + 1, IsSpace);
    }
    assert RunEnd(line, v, IsSpace) == v by {
      assert v == e ==> line[v] == line[e..][0];
      RunEndIs(line, v, v, IsSpace);
    }
    LastCloseIs(line, v, hi, double, e);
    MatchFieldUnfold(line, double, b, v, hi, e);
  }

  /** After the value only the closing brace (or braces), perhaps a comma, and
      the line break follow: the pattern closes at the value's end and at no
      later position. */
  lemma ClosingSuffix(line: string, e: nat, double: bool, tail: string)
    requires tail == "\n" || tail == ",\n"
    requires e <= |line| && line[e..] == (if double then "}}" else "}") + tail
    ensures ClosesAt(line, e, double)
    ensures forall p | e < p <= |line| - 1 :: !ClosesAt(line, p, double)
  {
    var n := |line|;
    assert line[n - 1] == '\n';
    assert line[e] == '}';
    assert double ==> line[e + 1] == '}';
    RunEndIs(line, e, e, IsSpace);
    RunEndIs(line, n - 1, n, IsSpace);
    forall p | e < p <= n - 1 ensures !ClosesAt(line, p, double) {
      if p < n - 1 {
        assert line[p] == line[e..][p - e];
        RunEndIs(line, p, p, IsSpace);
      }
    }
  }

  /** The written line of a `Writable` field has that shape. */
  lemma WrittenLineShape(f: Field, tail: string)
    requires Writable(f)
    requires tail == "\n" || tail == ",\n"
    ensures var double := f.name == "title"; var b := 2 + |f.name|;
      var v := if double then b + 3 else b + 2;
      var line := FieldText(f) + tail;
      && FieldLineShape(line, double, b, v, v + |f.value|, tail)
      && line[2..b] == f.name && line[v..v + |f.value|] == f.value
      && (!double ==> line[b + 2] != '{')
  {
    var double := f.name == "title";
    var b := 2 + |f.name|;
    var v := if double then b + 3 else b + 2;
    WrittenLineCut(f, tail);
    ShapeOfCut(FieldText(f) + tail, f.name, f.value, double, b, v, v + |f.value|, tail);
  }

  /** A line cut into two spaces, a name, `={` (or `={{`), a value, and `}`
      (or `}}`) with the tail, has the field line shape. */
  lemma ShapeOfCut(line: string, name: string, value: string, double: bool, b: nat, v: nat, e: nat, tail: string)
    requires |name| > 0 && All(name, IsWordChar)
    requires All(value, NotNewline) && (value != [] ==> !IsSpace(value[0]))
    requires !double && value != [] ==> value[0] != '{'
    requires tail == "\n" || tail == ",\n"
    requires b == 2 + |name| && v == (if double then b + 3 else b + 2) && e == v + |value|
    requires |line| == e + (if double then 2 else 1) + |tail|
    requires line[..2] == "  " && line[2..b] == name && line[b..v] == (if double then "={{" else "={")
    requires line[v..e] == value && line[e..] == (if double then "}}" else "}") + tail
    ensures FieldLineShape(line, double, b, v, e, tail)
    ensures !double ==> line[b + 2] != '{'
  {
    assert line[0] == line[..2][0] && line[1] == line[..2][1];
    forall j | 2 <= j < b ensures IsWordChar(line[j]) {
      assert line[j] == line[2..b][j - 2];
    }
    assert line[b] == line[b..v][0] && line[b + 1] == line[b..v][1];
    assert double ==> line[b + 2] == line[b..v][2];
    forall j | v <= j < e ensures line[j] != '\n' {
      assert line[j] == line[v..e][j - v];
    }
    assert v < e ==> line[v] == line[v..e][0];
    assert line[e] == line[e..][0];
    assert !double && v == e ==> line[b + 2] == '}';
    assert !double && v < e ==> line[b + 2] == value[0];
  }

  /** A written field line cut at the ends of its indentation, name, opening
      braces and value. */
  lemma WrittenLineCut(f: Field, tail: string)
    ensures var double := f.name == "title";
      var opener := if double then "={{" else "={";
      var closer := if double then "}}" else "}";
      var b := 2 + |f.name|; var v := b + |opener|; var e := v + |f.value|;
      var line := FieldText(f) + tail;
      && |line| == e + |closer| + |tail|
      && line[..2] == "  " && line[2..b] == f.name && line[b..v] == opener
      && line[v..e] == f.value && line[e..] == closer + tail
  {
    var double := f.name == "title";
    var opener := if double then "={{" else "={";
    var closer := if double then "}}" else "}";
    var b := 2 + |f.name|;
    var v := b + |opener|;
    var pre := "  " + f.name + opener;
    var line := FieldText(f) + tail;
    assert line == pre + f.value + (closer + tail);
    Pieces(pre, f.value, closer + tail);
    Pieces("  ", f.name, opener);
    assert line[..v] == pre;
    assert line[..2] == pre[..2];
    assert line[2..b] == pre[2..b];
    assert line[b..v] == pre[b..v];
  }

  /** The written line of a readable (`Writable`) field, with or without its
      comma, is read back by the field patterns as the same field. */
  lemma FieldLineReadBack(f: Field, tail: string)
    requires Writable(f)
    requires tail == "\n" || tail == ",\n"
    ensures LineField(FieldText(f) + tail) == Some(f)
  {
    WrittenLineShape(f, tail);
    var line := FieldText(f) + tail;
    var double := f.name == "title";
    var b := 2 + |f.name|;
    var v := if double then b + 3 else b + 2;
    var e := v + |f.value|;
    assert FieldLineShape(line, double, b, v, e, tail);
    assert line[2..b] == f.name && line[v..e] == f.value;
    ShapedLineReadBack(line, double, b, v, e, tail);
  }

  /** Why the double-braced pattern is tried first: on a written title line the
      single-braced pattern also matches, but it keeps the inner braces in
      the value, while the line as a whole reads back as the title itself. */
  lemma TitleNeedsDoublePattern(f: Field, tail: string)
    requires Writable(f) && f.name == "title"
    requires tail == "\n" || tail == ",\n"
    ensures MatchField(FieldText(f) + tail, false) == Some(Field("title", "{" + f.value + "}"))
    ensures LineField(FieldText(f) + tail) == Some(f)
  {
    WrittenLineShape(f, tail);
    FieldLineReadBack(f, tail);
    var line := FieldText(f) + tail;
    var b := 2 + |f.name|;
    var e := b + 3 + |f.value|;
    SingleShapeOfDouble(line, b, b + 3, e, tail);
    MatchFieldIs(line, false, b, b + 2, e + 1, tail);
  }

  /** Outside the title, a value that opens with `{` and closes with `}` is
      written as `  key={{x}}`, which the double-braced pattern, tried first,
      reads back as `x`: the braces are lost. */
  lemma BracedValueLosesBraces(f: Field, x: string, tail: string)
    requires f.name != "title" && |f.name| > 0 && All(f.name, IsWordChar)
    requires f.value == "{" + x + "}"
    requires All(x, NotNewline) && (x != [] ==> !IsSpace(x[0]))
    requires tail == "\n" || tail == ",\n"
    ensures LineField(FieldText(f) + tail) == Some(Field(f.name, x))
  {
    var line := FieldText(f) + tail;
    var b := 2 + |f.name|;
    var e := b + 3 + |x|;
    BracedLineCut(f, x, tail);
    ShapeOfCut(line, f.name, x, true, b, b + 3, e, tail);
    MatchFieldIs(line, true, b, b + 3, e, tail);
  }

  /** That line cut at the ends of its indentation, name, braces and `x`. */
  lemma BracedLineCut(f: Field, x: string, tail: string)
    requires f.name != "title" && f.value == "{" + x + "}"
    ensures var b := 2 + |f.name|; var e := b + 3 + |x|; var line := FieldText(f) + tail;
      && |line| == e + 2 + |tail|
      && line[..2] == "  " && line[2..b] == f.name && line[b..b + 3] == "={{"
      && line[b + 3..e] == x && line[e..] == "}}" + tail
  {
    var b := 2 + |f.name|;
    var pre := "  " + f.name + "={{";
    var line := FieldText(f) + tail;
    assert line == pre + x + ("}}" + tail);
    Pieces(pre, x, "}}" + tail);
    Pieces("  ", f.name, "={{");
    assert line[..b + 3] == pre;
    assert line[..2] == pre[..2];
    assert line[2..b] == pre[2..b];
    assert line[b..b + 3] == pre[b..b + 3];
  }

  /** A double-braced line also has the single-braced shape, with the inner
      braces inside the value. */
  lemma SingleShapeOfDouble(line: string, b: nat, v: nat, e: nat, tail: string)
    requires FieldLineShape(line, true, b, v, e, tail)
    ensures FieldLineShape(line, false, b, b + 2, e + 1, tail)
    ensures line[b + 2..e + 1] == "{" + line[v..e] + "}"
  {
    assert line[e..][1..] == line[e + 1..];
    assert line[e] == '}' && line[e + 1..] == "}" + tail;
    forall j | b + 2 <= j < e + 1 ensures line[j] != '\n' {
      if j == b + 2 { assert line[j] == '{'; } else if j == e { assert line[j] == '}'; }
    }
    assert line[b + 2..v] == [line[b + 2]] && line[e..e + 1] == [line[e]];
    SliceThree(line, b + 2, v, e, e + 1);
  }

  lemma SliceThree(s: string, i: nat, j: nat, k: nat, l: nat)
    requires i <= j <= k <= l <= |s|
    ensures s[i..l] == s[i..j] + s[j..k] + s[k..l]
  {
    assert forall x | 0 <= x < l - i :: s[i..l][x] == (s[i..j] + s[j..k] + s[k..l])[x];
  }

  /** A line of that shape is read back with the name and the value it
      holds. */
  lemma ShapedLineReadBack(line: string, double: bool, b: nat, v: nat, e: nat, tail: string)
    requires FieldLineShape(line, double, b, v, e, tail)
    requires !double ==> line[b + 2] != '{'
    ensures LineField(line) == Some(Field(line[2..b], line[v..e]))
  {
    MatchFieldIs(line, double, b, v, e, tail);
    if !double {
      NotDoubleBraced(line, b);
    }
  }

  /** The written line of every kept `Writable` field holds that field. */
  predicate BodyReadable(fs: Fields, removal: seq<string>)
  {
    forall i | 0 <= i < |fs| && fs[i].name !in removal && Writable(fs[i]) ::
      LineField(FieldLine(fs, removal, i)) == Some(fs[i])
  }

  lemma BodyReadsBack(fs: Fields, removal: seq<string>)
    ensures BodyReadable(fs, removal)
  {
    forall i | 0 <= i < |fs| && fs[i].name !in removal && Writable(fs[i])
      ensures LineField(FieldLine(fs, removal, i)) == Some(fs[i])
    {
      var tail := if i != |fs| - 1 then ",\n" else "\n";
      assert FieldLine(fs, removal, i) == FieldText(fs[i]) + tail;
      FieldLineReadBack(fs[i], tail);
    }
  }
}
