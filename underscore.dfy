/** `fix_underscore`: `re.sub('[^\_]\_', '\\\_', s)`. */
module Underscore {
  import opened Text

  /** Scanning left to right, a non-underscore character followed by an
      underscore is replaced, together with the underscore, by `\_`; the
      scan resumes after the pair. The character before the underscore is
      therefore lost. */
  function FixUnderscore(s: string): (r: string)
    ensures |r| == |s|
    ensures forall i | 0 <= i < |s| ::
      r[i] == s[i] || (r[i] == '\\' && s[i] != '_' && i + 1 < |s| && s[i + 1] == '_')
    ensures forall i | 1 <= i < |s| && s[i] == '_' && s[i - 1] != '_' :: r[i - 1] == '\\'
  {
    if |s| >= 2 && s[0] != '_' && s[1] == '_' then "\\_" + FixUnderscore(s[2..])
    else if s == [] then []
    else [s[0]] + FixUnderscore(s[1..])
  }

  /** Fixing twice is fixing once, so a DOI read back from the offline cache
      and fixed again is stored unchanged. */
  lemma {:induction false} FixUnderscoreIdempotent(s: string)
    ensures FixUnderscore(FixUnderscore(s)) == FixUnderscore(s)
  {
    var r := FixUnderscore(s);
    if |s| >= 2 && s[0] != '_' && s[1] == '_' {
      FixUnderscoreIdempotent(s[2..]);
      assert r == "\\_" + FixUnderscore(s[2..]);
      assert FixUnderscore(r) == "\\_" + FixUnderscore(r[2..]);
      assert r[2..] == FixUnderscore(s[2..]);
    } else if s != [] {
      FixUnderscoreIdempotent(s[1..]);
      var t := FixUnderscore(s[1..]);
      assert r == [s[0]] + t;
      assert r[1..] == t;
      if |r| >= 2 && r[0] != '_' && r[1] == '_' {
        assert false;
      }
    }
  }

  /** The character before the underscore is dropped: `ab_c` becomes `a\_c`. */
  lemma FixUnderscoreDropsPrecedingChar()
    ensures FixUnderscore("ab_c") == "a\\_c"
  {
    assert FixUnderscore("_c") == "_c" by {
      assert FixUnderscore("c") == "c";
    }
    assert FixUnderscore("b_c") == "\\_c";
  }
}
