/** The four line patterns the parser matches with `re.match`, written as
    recognisers on strings. Each starts at the beginning of the line and does
    not need to reach its end. */
module Lines {
  import opened Wrappers
  import opened Text
  import opened Dict

  /** `\s*}\s*`: the line closing an entry. */
  predicate IsClosing(line: string)
  {
    var a := RunEnd(line, 0, IsSpace);
    a < |line| && line[a] == '}'
  }

  datatype Opening = Opening(kind: string, key: string)

  /** `\s*\@(\w+)\{([\w\d\.]+),`: the line opening an entry, with its type and key.
      Both runs are maximal, since the character after each cannot belong to it. */
  function MatchOpening(line: string): (r: Option<Opening>)
    ensures r.Some? ==> |r.value.kind| > 0 && All(r.value.kind, IsWordChar)
    ensures r.Some? ==> |r.value.key| > 0 && All(r.value.key, IsKeyChar)
  {
    var a := RunEnd(line, 0, IsSpace);
    if a == |line| || line[a] != '@' then None
    else
      var b := RunEnd(line, a + 1, IsWordChar);
      if b == a + 1 || b == |line| || line[b] != '{' then None
      else
        var c := RunEnd(line, b + 1, IsKeyChar);
        if c == b + 1 || c == |line| || line[c] != ',' then None
        else Some(Opening(line[a + 1..b], line[b + 1..c]))
  }

  /** From position `p`, optional white space and then the closing `[\}"]`
      (followed by one more `}` in the double-braced pattern). */
  predicate ClosesAt(line: string, p: nat, double: bool)
    requires p <= |line|
  {
    var q := RunEnd(line, p, IsSpace);
    && q < |line| && (line[q] == '}' || line[q] == '"')
    && (double ==> q + 1 < |line| && line[q + 1] == '}')
  }

  /** The greedy `(.*)`: the largest end position in [lo, hi] after which the
      pattern can still close. */
  function LastClose(line: string, lo: nat, hi: nat, double: bool): (r: Option<nat>)
    requires lo <= hi <= |line|
    ensures r.Some? ==> lo <= r.value <= hi && ClosesAt(line, r.value, double)
    ensures r.Some? ==> forall p | r.value < p <= hi :: !ClosesAt(line, p, double)
    ensures r.None? <==> forall p | lo <= p <= hi :: !ClosesAt(line, p, double)
    decreases hi
  {
    if ClosesAt(line, hi, double) then Some(hi)
    else if hi == lo then None
    else LastClose(line, lo, hi - 1, double)
  }

  /** The characters of s[i..j] are those of `s` at [i, j). */
  lemma SliceAll(s: string, i: nat, j: nat, p: char -> bool)
    requires i <= j <= |s|
    requires forall k | i <= k < j :: p(s[k])
    ensures All(s[i..j], p)
  {
    assert forall k | 0 <= k < j - i :: s[i..j][k] == s[i + k];
  }

  /** The value part of a field line from position `i`: white space, then the
      greedy `(.*)` up to the last place the pattern can close. */
  function FieldValue(line: string, i: nat, double: bool): (r: Option<string>)
    requires i <= |line|
    ensures r.Some? ==> All(r.value, NotNewline)
  {
    var v := RunEnd(line, i, IsSpace);
    var hi := RunEnd(line, v, NotNewline);
    match LastClose(line, v, hi, double)
    case None => None
    case Some(p) =>
      SliceAll(line, v, p, NotNewline);
      Some(line[v..p])
  }

  /** `\s*(\w+)\s*=\s*[\{"]\s*(.*)\s*[\}"]` (double false) and
      `\s*(\w+)\s*=\s*[\{"]\{\s*(.*)\s*[\}"]\}` (double true): a field line,
      with its name and its value. `.` stops at a line break. */
  function MatchField(line: string, double: bool): (r: Option<Field>)
    ensures r.Some? ==> |r.value.name| > 0 && All(r.value.name, IsWordChar)
    ensures r.Some? ==> All(r.value.value, NotNewline)
  {
    var a := RunEnd(line, 0, IsSpace);
    var b := RunEnd(line, a, IsWordChar);
    if a == b then None
    else
      var c := RunEnd(line, b, IsSpace);
      if c == |line| || line[c] != '=' then None
      else
        var d := RunEnd(line, c + 1, IsSpace);
        if d == |line| || (line[d] != '{' && line[d] != '"') then None
        else if double && (d + 1 == |line| || line[d + 1] != '{') then None
        else
          match FieldValue(line, if double then d + 2 else d + 1, double)
          case None => None
          case Some(value) =>
            SliceAll(line, a, b, IsWordChar);
            Some(Field(line[a..b], value))
  }

  /** The field a line sets: the double-braced pattern is tried first. */
  function LineField(line: string): Option<Field>
  {
    var m := MatchField(line, true);
    if m.Some? then m else MatchField(line, false)
  }

  /** The three patterns are told apart by the first character after the
      leading white space (`}`, `@` or a word character), so a line is at most
      one of closing, opening and field line. */
  lemma LineKindsExclusive(line: string)
    ensures IsClosing(line) ==> MatchOpening(line).None? && LineField(line).None?
    ensures MatchOpening(line).Some? ==> LineField(line).None?
  {
  }
}
