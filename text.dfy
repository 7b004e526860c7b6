/** Character classes and string helpers: an ASCII view of Python's `str` and `re`. */
module Text {
  import opened Wrappers

  predicate IsDigit(c: char) { '0' <= c <= '9' }
  predicate IsUpper(c: char) { 'A' <= c <= 'Z' }
  predicate IsLower(c: char) { 'a' <= c <= 'z' }

  /** `\w` */
  predicate IsWordChar(c: char) { IsDigit(c) || IsUpper(c) || IsLower(c) || c == '_' }

  /** `[\w\d\.]`, the characters of a citation key */
  predicate IsKeyChar(c: char) { IsWordChar(c) || c == '.' }

  /** `\s`, and the characters `str.strip()` and `int()` treat as white space */
  predicate IsSpace(c: char) { c == ' ' || ('\t' <= c <= '\r') || ('\U{1C}' <= c <= '\U{1F}') }

  predicate NotNewline(c: char) { c != '\n' }

  /** Every character of `s` satisfies `p`. */
  predicate All(s: string, p: char -> bool) { forall i | 0 <= i < |s| :: p(s[i]) }

  function LowerChar(c: char): char { if IsUpper(c) then (c as int + 32) as char else c }
  function UpperChar(c: char): char { if IsLower(c) then (c as int - 32) as char else c }

  /** `str.lower()` */
  function Lower(s: string): (r: string)
    ensures |r| == |s|
  {
    seq(|s|, i requires 0 <= i < |s| => LowerChar(s[i]))
  }

  predicate AllLower(s: string) { forall i | 0 <= i < |s| :: !IsUpper(s[i]) }

  lemma LowerIsLower(s: string)
    ensures AllLower(Lower(s))
  {
  }

  lemma LowerIdempotent(s: string)
    ensures Lower(Lower(s)) == Lower(s)
  {
    assert forall i | 0 <= i < |s| :: Lower(Lower(s))[i] == Lower(s)[i];
  }

  /** The end of the longest run of characters satisfying `p` that starts at `i`. */
  function RunEnd(s: string, i: nat, p: char -> bool): (j: nat)
    requires i <= |s|
    ensures i <= j <= |s|
    ensures forall k | i <= k < j :: p(s[k])
    ensures j < |s| ==> !p(s[j])
    decreases |s| - i
  {
    if i < |s| && p(s[i]) then RunEnd(s, i + 1, p) else i
  }

  /** The run that starts at `i` ends at `j` when `p` holds on [i, j) and not at `j`. */
  lemma RunEndIs(s: string, i: nat, j: nat, p: char -> bool)
    requires i <= j <= |s|
    requires forall k | i <= k < j :: p(s[k])
    requires j < |s| ==> !p(s[j])
    ensures RunEnd(s, i, p) == j
  {
  }

  /** `s` with its leading characters satisfying `p` removed. */
  function TrimStart(s: string, p: char -> bool): (r: string)
    ensures |r| <= |s| && r == s[|s| - |r|..]
    ensures forall k | 0 <= k < |s| - |r| :: p(s[k])
    ensures r != [] ==> !p(r[0])
  {
    if |s| > 0 && p(s[0]) then
      var r := TrimStart(s[1..], p);
      assert forall k | 1 <= k < |s| :: s[1..][k - 1] == s[k];
      r
    else s
  }

  /** `s` with its trailing characters satisfying `p` removed. */
  function TrimEnd(s: string, p: char -> bool): (r: string)
    ensures |r| <= |s| && r == s[..|r|]
    ensures forall k | |r| <= k < |s| :: p(s[k])
    ensures r != [] ==> !p(r[|r| - 1])
  {
    if |s| > 0 && p(s[|s| - 1]) then
      var r := TrimEnd(s[..|s| - 1], p);
      assert forall k | 0 <= k < |s| - 1 :: s[..|s| - 1][k] == s[k];
      r
    else s
  }

  /** `str.strip(chars)` */
  function Trim(s: string, p: char -> bool): string
  {
    TrimEnd(TrimStart(s, p), p)
  }

  /** A stripped string is a piece of the original whose two ends do not satisfy `p`. */
  lemma TrimShape(s: string, p: char -> bool)
    ensures var t := Trim(s, p); t != [] ==> !p(t[0]) && !p(t[|t| - 1])
    ensures forall i | 0 <= i < |Trim(s, p)| :: Trim(s, p)[i] in s
  {
    var t1 := TrimStart(s, p);
    var t := TrimEnd(t1, p);
    forall i | 0 <= i < |t| ensures t[i] in s {
      assert t[i] == t1[i] == s[|s| - |t1| + i];
    }
    if t != [] {
      assert t[0] == t1[0];
    }
  }

  /** Stripping a string whose ends do not satisfy `p` changes nothing. */
  lemma TrimNoOp(s: string, p: char -> bool)
    requires s == [] || (!p(s[0]) && !p(s[|s| - 1]))
    ensures Trim(s, p) == s
  {
    assert TrimStart(s, p) == s;
    assert TrimEnd(s, p) == s;
  }

  // ---------------------------------------------------------------------------
  // Python's int() on a string

  function DigitValue(c: char): nat { if IsDigit(c) then c as int - '0' as int else 0 }

  /** Decimal digits, with single underscores allowed between two digits. */
  predicate IsDigitGroups(t: string)
  {
    && |t| > 0 && IsDigit(t[0]) && IsDigit(t[|t| - 1])
    && (forall i | 0 <= i < |t| :: IsDigit(t[i]) || t[i] == '_')
    && (forall i | 0 <= i < |t| - 1 :: !(t[i] == '_' && t[i + 1] == '_'))
  }

  /** The value of a digit string, underscores ignored. */
  function DigitsValue(t: string): nat
  {
    if t == [] then 0
    else if t[|t| - 1] == '_' then DigitsValue(t[..|t| - 1])
    else DigitsValue(t[..|t| - 1]) * 10 + DigitValue(t[|t| - 1])
  }

  /** `int(s)` for a string: surrounding white space, an optional sign, digits.
      None stands for the ValueError that Python raises. */
  function ParseInt(s: string): Option<int>
  {
    var t := Trim(s, IsSpace);
    var signed := |t| > 0 && (t[0] == '+' || t[0] == '-');
    var body := if signed then t[1..] else t;
    var n: int := if signed && t[0] == '-' then -(DigitsValue(body) as int) else DigitsValue(body);
    if IsDigitGroups(body) then Some(n)
    else None
  }

  /** The decimal representation of a natural number. */
  function Decimal(n: nat): (r: string)
    ensures |r| > 0 && forall i | 0 <= i < |r| :: IsDigit(r[i])
  {
    if n < 10 then ['0' + n as char] else Decimal(n / 10) + ['0' + (n % 10) as char]
  }

  lemma {:induction false} DecimalValue(n: nat)
    ensures DigitsValue(Decimal(n)) == n
  {
    var r := Decimal(n);
    if n >= 10 {
      DecimalValue(n / 10);
      assert r[..|r| - 1] == Decimal(n / 10);
    }
  }

  /** int() of a string of digits is their value. */
  lemma ParseIntDigits(d: string)
    requires |d| > 0 && forall i | 0 <= i < |d| :: IsDigit(d[i])
    ensures ParseInt(d) == Some(DigitsValue(d) as int)
  {
    assert !IsSpace(d[0]) && !IsSpace(d[|d| - 1]);
    TrimNoOp(d, IsSpace);
    assert d[0] != '+' && d[0] != '-';
    assert IsDigitGroups(d);
  }

  /** int() reads back every decimal numeral: the partner of Decimal. */
  lemma ParseIntDecimal(n: nat)
    ensures ParseInt(Decimal(n)) == Some(n)
  {
    ParseIntDigits(Decimal(n));
    DecimalValue(n);
  }
}
