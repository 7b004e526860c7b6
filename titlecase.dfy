/** `capitalize`: title casing of titles, journal and book titles. */
module TitleCase {
  import opened Text

  /** Interior words whose lower-case form is in this set are written in
      lower case. */
  const StopWords: set<string> :=
    {"a", "an", "the", "to", "on", "in", "of", "at", "by", "for", "or", "and", "vs.", "iOS"}

  /** The characters `s.strip(',.- ')` removes. */
  predicate IsStripped(c: char) { c == ',' || c == '.' || c == '-' || c == ' ' }

  function Strip(s: string): string
  {
    Trim(s, IsStripped)
  }

  /** `s.rfind(c)`: the last position of `c` in `s`, or -1. */
  function RFind(s: string, c: char): (r: int)
    ensures -1 <= r < |s|
    ensures r >= 0 ==> s[r] == c
    ensures forall i | r < i < |s| :: s[i] != c
  {
    if |s| == 0 then -1
    else if s[|s| - 1] == c then |s| - 1
    else RFind(s[..|s| - 1], c)
  }

  /** Python's slice `s[n:]`, empty when `n` is past the end. */
  function Drop(s: string, n: nat): string
  {
    if n <= |s| then s[n..] else []
  }

  /** `s[-3:].lower() == ' on'` */
  predicate EndsWithOn(s: string)
  {
    |s| >= 3 && Lower(s[|s| - 3..]) == " on"
  }

  /** Undoes the inversion of IEEE venue names: when the last comma is past
      position 0 and the string ends in " on", the text after the comma (less
      the character right after it) is put in front of the text before it. */
  function Reorder(s: string): string
  {
    var p := RFind(s, ',');
    if p > 0 && EndsWithOn(s) then Drop(s, p + 2) + s[..p] else s
  }

  /** `s.split(c)`: the pieces between the separators, empty ones included. */
  function Split(s: string, c: char): (r: seq<string>)
    ensures |r| >= 1
    ensures forall k | 0 <= k < |r| :: c !in r[k]
  {
    if |s| == 0 then [""]
    else
      var rest := Split(s[1..], c);
      if s[0] == c then [""] + rest
      else [[s[0]] + rest[0]] + rest[1..]
  }

  /** `c.join(ws)` */
  function Join(ws: seq<string>, c: char): string
  {
    if |ws| == 0 then ""
    else if |ws| == 1 then ws[0]
    else ws[0] + [c] + Join(ws[1..], c)
  }

  predicate IsStopWord(w: string)
  {
    Lower(w) in StopWords
  }

  /** The word with its first character upper-cased and the rest unchanged. */
  function CapitalizeFirst(w: string): string
    requires |w| > 0
  {
    [UpperChar(w[0])] + w[1..]
  }

  /** The casing of the non-empty word `ws[i]`: an interior stop word is
      lower-cased, every other word gets an upper-case first character. */
  function CaseWord(ws: seq<string>, i: nat): string
    requires i < |ws| && |ws[i]| > 0
  {
    if 0 < i < |ws| - 1 && IsStopWord(ws[i]) then Lower(ws[i]) else CapitalizeFirst(ws[i])
  }

  /** `capitalized_words` after the first `n` words: empty words are skipped. */
  function CasedWordsUpTo(ws: seq<string>, n: nat): seq<string>
    requires n <= |ws|
  {
    if n == 0 then []
    else CasedWordsUpTo(ws, n - 1) + (if |ws[n - 1]| == 0 then [] else [CaseWord(ws, n - 1)])
  }

  function CasedWords(ws: seq<string>): seq<string>
  {
    CasedWordsUpTo(ws, |ws|)
  }

  /** The non-empty words among the first `n`. */
  function NonEmptyUpTo(ws: seq<string>, n: nat): seq<string>
    requires n <= |ws|
  {
    if n == 0 then []
    else NonEmptyUpTo(ws, n - 1) + (if |ws[n - 1]| == 0 then [] else [ws[n - 1]])
  }

  /** The positions of the non-empty words among the first `n`, in increasing order. */
  function NonEmptyIndices(ws: seq<string>, n: nat): (r: seq<nat>)
    requires n <= |ws|
    ensures forall k | 0 <= k < |r| :: r[k] < n && |ws[r[k]]| > 0
    ensures forall k, l | 0 <= k < l < |r| :: r[k] < r[l]
  {
    if n == 0 then []
    else NonEmptyIndices(ws, n - 1) + (if |ws[n - 1]| == 0 then [] else [n - 1])
  }

  /** One call of `capitalize(s, spliter)` before its recursive call. */
  function Pass(s: string, sep: char): string
  {
    Join(CasedWords(Split(Reorder(Strip(s)), sep)), sep)
  }

  /** `capitalize(s, spliter)`: a pass over `spliter`-separated words, then,
      unless `spliter` is already '-', one more pass over '-'-separated words. */
  function Capitalized(s: string, sep: char): string
  {
    var r := Pass(s, sep);
    if sep == '-' then r else Pass(r, '-')
  }

  /** Python's `capitalize(s, spliter=' ')`. */
  method Capitalize(s: string, spliter: char) returns (r: string)
    ensures r == Capitalized(s, spliter)
    decreases if spliter == '-' then 0 else 1
  {
    var t := Strip(s);
    t := Reorder(t);
    var words := Split(t, spliter);
    r := CaseAndJoin(words, spliter);
    if spliter != '-' {
      r := Capitalize(r, '-');
    }
  }

  /** The word loop of `capitalize` and the join that follows it. */
  method CaseAndJoin(words: seq<string>, spliter: char) returns (r: string)
    ensures r == Join(CasedWords(words), spliter)
  {
    var capitalizedWords: seq<string> := [];
    var i := 0;
    while i < |words|
      invariant 0 <= i <= |words|
      invariant capitalizedWords == CasedWordsUpTo(words, i)
    {
      var word := words[i];
      if |word| > 0 {
        var cased;
        if 0 < i < |words| - 1 && IsStopWord(word) {
          cased := Lower(word);
        } else {
          cased := [UpperChar(word[0])] + word[1..];
        }
        assert cased == CaseWord(words, i);
        capitalizedWords := capitalizedWords + [cased];
      }
      i := i + 1;
    }
    r := Join(capitalizedWords, spliter);
  }

  // ---------------------------------------------------------------------------
  // Splitting and joining

  lemma {:induction false} JoinSplit(s: string, c: char)
    ensures Join(Split(s, c), c) == s
  {
    if |s| > 0 {
      JoinSplit(s[1..], c);
      var rest := Split(s[1..], c);
      if s[0] != c && |rest| > 1 {
        assert Join(rest, c) == rest[0] + [c] + Join(rest[1..], c);
      }
    }
  }

  lemma {:induction false} SplitPrefix(w: string, t: string, c: char)
    requires c !in w
    ensures Split(w + t, c) == [w + Split(t, c)[0]] + Split(t, c)[1..]
  {
    if |w| > 0 {
      SplitPrefix(w[1..], t, c);
      var st := Split(t, c);
      assert (w + t)[1..] == w[1..] + t;
      assert (w + t)[0] == w[0] && w[0] != c;
      var rest := Split(w[1..] + t, c);
      assert rest == [w[1..] + st[0]] + st[1..];
      assert Split(w + t, c) == [[w[0]] + rest[0]] + rest[1..];
      assert [w[0]] + (w[1..] + st[0]) == w + st[0];
    } else {
      assert w + t == t;
      assert Split(t, c) == [Split(t, c)[0]] + Split(t, c)[1..];
      assert w + Split(t, c)[0] == Split(t, c)[0];
    }
  }

  /** Splitting a join gives back the pieces, when no piece holds the separator. */
  lemma {:induction false} SplitJoin(ws: seq<string>, c: char)
    requires |ws| >= 1
    requires forall k | 0 <= k < |ws| :: c !in ws[k]
    ensures Split(Join(ws, c), c) == ws
  {
    if |ws| == 1 {
      SplitPrefix(ws[0], "", c);
      assert ws[0] + "" == ws[0];
      assert Split("", c) == [""];
    } else {
      SplitJoin(ws[1..], c);
      var t := [c] + Join(ws[1..], c);
      assert Join(ws, c) == ws[0] + t;
      SplitPrefix(ws[0], t, c);
      assert t[1..] == Join(ws[1..], c);
      assert Split(t, c) == [""] + ws[1..];
      assert ws[0] + "" == ws[0];
      assert ws == [ws[0]] + ws[1..];
    }
  }

  /** Joining non-empty pieces that do not hold the separator never puts two
      separators side by side, nor one at either end. */
  lemma {:induction false} JoinNoDoubledSeparator(ws: seq<string>, c: char)
    requires forall k | 0 <= k < |ws| :: |ws[k]| > 0 && c !in ws[k]
    ensures var r := Join(ws, c);
      && (forall k | 0 <= k < |r| - 1 :: !(r[k] == c && r[k + 1] == c))
      && (|r| > 0 ==> r[0] != c && r[|r| - 1] != c)
  {
    if |ws| > 1 {
      JoinNoDoubledSeparator(ws[1..], c);
      var w, j := ws[0], Join(ws[1..], c);
      var r := Join(ws, c);
      assert r == w + [c] + j;
      assert |j| > 0 by {
        assert |ws[1]| > 0;
        JoinLength(ws[1..], c);
      }
      forall k | 0 <= k < |r| - 1 ensures !(r[k] == c && r[k + 1] == c) {
        if k < |w| {
          assert r[k] == w[k];
        } else if k == |w| {
          assert r[k + 1] == j[0];
        } else {
          assert r[k] == j[k - |w| - 1] && r[k + 1] == j[k - |w|];
        }
      }
      assert r[0] == w[0];
      assert r[|r| - 1] == j[|j| - 1];
    } else if |ws| == 1 {
      assert ws[0][0] in ws[0];
      assert ws[0][|ws[0]| - 1] in ws[0];
    }
  }

  lemma {:induction false} JoinLength(ws: seq<string>, c: char)
    requires |ws| > 0
    ensures |Join(ws, c)| >= |ws[0]|
  {
  }

  // ---------------------------------------------------------------------------
  // Casing of words

  lemma LowerUpperChar(x: char)
    ensures LowerChar(UpperChar(x)) == LowerChar(x)
    ensures UpperChar(UpperChar(x)) == UpperChar(x)
  {
  }

  /** Casing a word changes only the case of its letters. */
  lemma CaseWordChangesOnlyCase(ws: seq<string>, i: nat)
    requires i < |ws| && |ws[i]| > 0
    ensures |CaseWord(ws, i)| == |ws[i]|
    ensures Lower(CaseWord(ws, i)) == Lower(ws[i])
  {
    var w := ws[i];
    if CaseWord(ws, i) == Lower(w) {
      LowerIdempotent(w);
    } else {
      LowerUpperChar(w[0]);
      assert forall j | 0 <= j < |w| :: Lower(CapitalizeFirst(w))[j] == Lower(w)[j];
    }
  }

  lemma SameLowerKeepsNonLetters(x: string, y: string, c: char)
    requires Lower(x) == Lower(y) && !IsUpper(c) && !IsLower(c)
    ensures c in x <==> c in y
  {
    if c in x {
      var j :| 0 <= j < |x| && x[j] == c;
      assert Lower(x)[j] == LowerChar(x[j]) && Lower(y)[j] == LowerChar(y[j]);
      assert y[j] == c;
    }
    if c in y {
      var j :| 0 <= j < |y| && y[j] == c;
      assert Lower(x)[j] == LowerChar(x[j]) && Lower(y)[j] == LowerChar(y[j]);
      assert x[j] == c;
    }
  }

  /** `capitalized_words` holds the non-empty words, in order, each changed
      only in the case of its letters. */
  lemma {:induction false} CasedWordsFollowNonEmpty(ws: seq<string>, n: nat)
    requires n <= |ws|
    ensures |CasedWordsUpTo(ws, n)| == |NonEmptyUpTo(ws, n)|
    ensures forall k | 0 <= k < |NonEmptyUpTo(ws, n)| ::
      && |CasedWordsUpTo(ws, n)[k]| == |NonEmptyUpTo(ws, n)[k]| > 0
      && Lower(CasedWordsUpTo(ws, n)[k]) == Lower(NonEmptyUpTo(ws, n)[k])
  {
    if n > 0 {
      CasedWordsFollowNonEmpty(ws, n - 1);
      if |ws[n - 1]| > 0 {
        CaseWordChangesOnlyCase(ws, n - 1);
      }
    }
  }

  /** The rule of the word loop: the k-th cased word comes from the k-th
      non-empty word, at position i of the split. The first and the last
      position give an upper-case first letter; at an interior position a word
      whose lower-case form is a stop word is lower-cased, and every other word
      gets an upper-case first letter with the rest unchanged. Positions count
      the empty words, so a doubled separator before a last word leaves it
      interior. */
  lemma {:induction false} CasedWordsRule(ws: seq<string>, n: nat)
    requires n <= |ws|
    ensures |CasedWordsUpTo(ws, n)| == |NonEmptyIndices(ws, n)|
    ensures forall k | 0 <= k < |NonEmptyIndices(ws, n)| ::
      var i := NonEmptyIndices(ws, n)[k];
      CasedWordsUpTo(ws, n)[k] ==
        if 0 < i < |ws| - 1 && IsStopWord(ws[i]) then Lower(ws[i])
        else [UpperChar(ws[i][0])] + ws[i][1..]
  {
    CasedWordsAt(ws, n);
  }

  lemma {:induction false} CasedWordsAt(ws: seq<string>, n: nat)
    requires n <= |ws|
    ensures |CasedWordsUpTo(ws, n)| == |NonEmptyIndices(ws, n)|
    ensures forall k | 0 <= k < |NonEmptyIndices(ws, n)| ::
      CasedWordsUpTo(ws, n)[k] == CaseWord(ws, NonEmptyIndices(ws, n)[k])
  {
    if n > 0 {
      CasedWordsAt(ws, n - 1);
      var prev, pidx := CasedWordsUpTo(ws, n - 1), NonEmptyIndices(ws, n - 1);
      if |ws[n - 1]| > 0 {
        assert CasedWordsUpTo(ws, n) == prev + [CaseWord(ws, n - 1)];
        assert NonEmptyIndices(ws, n) == pidx + [n - 1];
      } else {
        assert CasedWordsUpTo(ws, n) == prev;
        assert NonEmptyIndices(ws, n) == pidx;
      }
    }
  }

  /** With no empty word the k-th word is at position k. */
  lemma {:induction false} NonEmptyIndicesAll(ws: seq<string>, n: nat)
    requires n <= |ws|
    requires forall k | 0 <= k < n :: |ws[k]| > 0
    ensures |NonEmptyIndices(ws, n)| == n
    ensures forall k | 0 <= k < n :: NonEmptyIndices(ws, n)[k] == k
  {
    if n > 0 {
      NonEmptyIndicesAll(ws, n - 1);
      assert NonEmptyIndices(ws, n) == NonEmptyIndices(ws, n - 1) + [n - 1];
    }
  }

  /** A non-empty first word is the first of the non-empty words. */
  lemma {:induction false} NonEmptyIndicesFirst(ws: seq<string>, n: nat)
    requires 0 < n <= |ws| && |ws[0]| > 0
    ensures |NonEmptyIndices(ws, n)| > 0 && NonEmptyIndices(ws, n)[0] == 0
  {
    if n > 1 {
      NonEmptyIndicesFirst(ws, n - 1);
    }
  }

  /** When the first and the last word are non-empty, they are the first and
      the last of the non-empty words. */
  lemma NonEmptyIndicesEnds(ws: seq<string>)
    requires |ws| > 0 && |ws[0]| > 0 && |ws[|ws| - 1]| > 0
    ensures var idx := NonEmptyIndices(ws, |ws|);
      |idx| > 0 && idx[0] == 0 && idx[|idx| - 1] == |ws| - 1
  {
    NonEmptyIndicesFirst(ws, |ws|);
    assert NonEmptyIndices(ws, |ws|) == NonEmptyIndices(ws, |ws| - 1) + [|ws| - 1];
  }

  /** The entry "iOS" of the stop-word set never matches: a lower-cased word
      has no upper-case letter. */
  lemma StopWordIosUnreachable(w: string)
    ensures Lower(w) != "iOS"
  {
    LowerIsLower(w);
    assert IsUpper("iOS"[1]);
  }

  /** A cased word is cased again to itself when it keeps being interior or
      not: it has the same lower-case form, and its first letter is already
      upper case. */
  lemma CaseWordStable(ws: seq<string>, c: seq<string>, i: nat, k: nat)
    requires i < |ws| && |ws[i]| > 0 && k < |c|
    requires c[k] == CaseWord(ws, i)
    requires (0 < k < |c| - 1) == (0 < i < |ws| - 1)
    ensures |c[k]| > 0 && CaseWord(c, k) == c[k]
  {
    var w := ws[i];
    CaseWordChangesOnlyCase(ws, i);
    assert IsStopWord(c[k]) == IsStopWord(w);
    if 0 < i < |ws| - 1 && IsStopWord(w) {
      LowerIdempotent(w);
    } else {
      LowerUpperChar(w[0]);
      assert c[k] == [UpperChar(w[0])] + w[1..];
      assert CapitalizeFirst(c[k]) == [UpperChar(UpperChar(w[0]))] + w[1..];
    }
  }

  /** Casing the cased words changes nothing when the first and the last word
      are non-empty: every word then keeps its first, interior or last place
      among the cased words. */
  lemma CasedWordsIdempotent(ws: seq<string>)
    requires |ws| > 0 ==> |ws[0]| > 0 && |ws[|ws| - 1]| > 0
    ensures CasedWords(CasedWords(ws)) == CasedWords(ws)
  {
    var c := CasedWords(ws);
    if |ws| > 0 {
      CasedWordsStable(ws);
      NonEmptyIndicesAll(c, |c|);
      CasedWordsAt(c, |c|);
      assert forall k | 0 <= k < |c| :: CasedWords(c)[k] == CaseWord(c, k) == c[k];
    }
  }

  lemma CasedWordsStable(ws: seq<string>)
    requires |ws| > 0 && |ws[0]| > 0 && |ws[|ws| - 1]| > 0
    ensures forall k | 0 <= k < |CasedWords(ws)| ::
      |CasedWords(ws)[k]| > 0 && CaseWord(CasedWords(ws), k) == CasedWords(ws)[k]
  {
    var c := CasedWords(ws);
    var idx := NonEmptyIndices(ws, |ws|);
    CasedWordsAt(ws, |ws|);
    NonEmptyIndicesEnds(ws);
    forall k | 0 <= k < |c| ensures |c[k]| > 0 && CaseWord(c, k) == c[k] {
      var i := idx[k];
      assert c[k] == CaseWord(ws, i);
      if 0 < k < |c| - 1 {
        assert idx[0] < i < idx[|c| - 1];
      }
      CaseWordStable(ws, c, i, k);
    }
  }

  // ---------------------------------------------------------------------------
  // One pass

  /** A pass drops the empty words, so its result never holds two separators
      side by side, nor one at either end. */
  lemma PassHasNoEmptyWord(s: string, sep: char)
    requires !IsUpper(sep) && !IsLower(sep)
    ensures var r := Pass(s, sep);
      && (forall k | 0 <= k < |r| - 1 :: !(r[k] == sep && r[k + 1] == sep))
      && (|r| > 0 ==> r[0] != sep && r[|r| - 1] != sep)
  {
    var ws := Split(Reorder(Strip(s)), sep);
    CasedWordsHaveNoSeparator(ws, sep);
    JoinNoDoubledSeparator(CasedWords(ws), sep);
  }

  /** The cased words are non-empty and, like the words they come from, do
      not hold the separator. */
  lemma CasedWordsHaveNoSeparator(ws: seq<string>, sep: char)
    requires !IsUpper(sep) && !IsLower(sep)
    requires forall k | 0 <= k < |ws| :: sep !in ws[k]
    ensures forall k | 0 <= k < |CasedWords(ws)| :: |CasedWords(ws)[k]| > 0 && sep !in CasedWords(ws)[k]
  {
    var cw := CasedWords(ws);
    var ne := NonEmptyUpTo(ws, |ws|);
    CasedWordsFollowNonEmpty(ws, |ws|);
    NonEmptyHasNoSeparator(ws, |ws|, sep);
    forall k | 0 <= k < |cw| ensures |cw[k]| > 0 && sep !in cw[k] {
      SameLowerKeepsNonLetters(cw[k], ne[k], sep);
    }
  }

  lemma {:induction false} NonEmptyHasNoSeparator(ws: seq<string>, n: nat, sep: char)
    requires n <= |ws|
    requires forall k | 0 <= k < |ws| :: sep !in ws[k]
    ensures forall k | 0 <= k < |NonEmptyUpTo(ws, n)| :: sep !in NonEmptyUpTo(ws, n)[k]
  {
    if n > 0 {
      NonEmptyHasNoSeparator(ws, n - 1, sep);
    }
  }

  // ---------------------------------------------------------------------------
  // No doubled space after the default two passes

  /** No two `c` side by side. */
  predicate NoDoubled(s: string, c: char)
  {
    forall k | 0 <= k < |s| - 1 :: !(s[k] == c && s[k + 1] == c)
  }

  /** The default `capitalize(s)`, a pass over ' ' and then one over '-',
      never leaves two spaces side by side. The first pass leaves none; in the
      second, `strip` keeps a piece of its text, the reordering joins a piece
      ending in the "n" of " on" to a piece starting with a character `strip`
      keeps, and the '-' pass changes spaces nowhere. */
  lemma CapitalizedNoDoubleSpace(s: string)
    ensures NoDoubled(Capitalized(s, ' '), ' ')
  {
    var r := Pass(s, ' ');
    PassHasNoEmptyWord(s, ' ');
    assert NoDoubled(r, ' ');
    ReorderStripNoDoubled(r);
    WordsKeepNoDoubled(Reorder(Strip(r)), '-', ' ');
  }

  /** Stripping and the reordering do not put two spaces side by side. */
  lemma ReorderStripNoDoubled(s: string)
    requires NoDoubled(s, ' ')
    ensures NoDoubled(Reorder(Strip(s)), ' ')
  {
    StripNoDoubled(s);
    TrimShape(s, IsStripped);
    ReorderNoDoubled(Strip(s));
  }

  /** `strip` keeps a piece of the text. */
  lemma StripNoDoubled(s: string)
    requires NoDoubled(s, ' ')
    ensures NoDoubled(Strip(s), ' ')
  {
    var t1 := TrimStart(s, IsStripped);
    var t := Strip(s);
    NoDoubledSlice(s, ' ', |s| - |t1|, |s|);
    assert s[|s| - |t1|..|s|] == t1;
    NoDoubledSlice(t1, ' ', 0, |t|);
    assert t1[0..|t|] == t;
  }

  /** The reordering of a stripped text joins a piece ending in the "n" of
      " on" to a piece starting with the text's first character. */
  lemma ReorderNoDoubled(t: string)
    requires NoDoubled(t, ' ')
    requires t != [] ==> !IsStripped(t[0])
    ensures NoDoubled(Reorder(t), ' ')
  {
    var p := RFind(t, ',');
    if p > 0 && EndsWithOn(t) {
      assert p + 2 <= |t| && Reorder(t) == t[p + 2..] + t[..p] by {
        ReorderSpec(t);
      }
      EndsWithOnKept(t);
      var a := t[p + 2..];
      var b := t[..p];
      NoDoubledSlice(t, ' ', p + 2, |t|);
      assert t[p + 2..|t|] == a;
      NoDoubledSlice(t, ' ', 0, p);
      assert t[0..p] == b;
      if a != [] {
        assert a[|a| - 1] == t[|t| - 1];
      }
      assert b[0] == t[0];
      NoDoubledAppend(a, b, ' ');
    }
  }

  /** A pass over `sep` puts no two `c` side by side where the text has none,
      when `c` is neither the separator nor a letter. */
  lemma WordsKeepNoDoubled(u: string, sep: char, c: char)
    requires c != sep && !IsUpper(c) && !IsLower(c)
    requires NoDoubled(u, c)
    ensures NoDoubled(Join(CasedWords(Split(u, sep)), sep), c)
  {
    var ws := Split(u, sep);
    JoinSplit(u, sep);
    JoinPiecesNoDoubled(ws, sep, c);
    NonEmptyNoDoubled(ws, |ws|, c);
    CasedWordsFollowNonEmpty(ws, |ws|);
    var cw := CasedWords(ws);
    var ne := NonEmptyUpTo(ws, |ws|);
    forall k | 0 <= k < |cw| ensures NoDoubled(cw[k], c) {
      SameLowerNoDoubled(cw[k], ne[k], c);
    }
    JoinNoDoubled(cw, sep, c);
  }

  lemma NoDoubledSlice(s: string, c: char, i: nat, j: nat)
    requires i <= j <= |s| && NoDoubled(s, c)
    ensures NoDoubled(s[i..j], c)
  {
    forall k | 0 <= k < j - i - 1 ensures !(s[i..j][k] == c && s[i..j][k + 1] == c) {
      assert s[i..j][k] == s[i + k] && s[i..j][k + 1] == s[i + k + 1];
    }
  }

  lemma NoDoubledAppend(a: string, b: string, c: char)
    requires NoDoubled(a, c) && NoDoubled(b, c)
    requires a != [] && b != [] ==> a[|a| - 1] != c || b[0] != c
    ensures NoDoubled(a + b, c)
  {
    var s := a + b;
    forall k | 0 <= k < |s| - 1 ensures !(s[k] == c && s[k + 1] == c) {
      if k + 1 < |a| {
        assert s[k] == a[k] && s[k + 1] == a[k + 1];
      } else if k + 1 == |a| {
        assert s[k] == a[|a| - 1] && s[k + 1] == b[0];
      } else {
        assert s[k] == b[k - |a|] && s[k + 1] == b[k + 1 - |a|];
      }
    }
  }

  /** The pieces of a join have no two `c` side by side when the join has none. */
  lemma {:induction false} JoinPiecesNoDoubled(ws: seq<string>, sep: char, c: char)
    requires NoDoubled(Join(ws, sep), c)
    ensures forall k | 0 <= k < |ws| :: NoDoubled(ws[k], c)
  {
    if |ws| > 1 {
      var j := Join(ws[1..], sep);
      var s := ws[0] + [sep] + j;
      assert Join(ws, sep) == s;
      NoDoubledSlice(s, c, 0, |ws[0]|);
      assert s[0..|ws[0]|] == ws[0];
      NoDoubledSlice(s, c, |ws[0]| + 1, |s|);
      assert s[|ws[0]| + 1..|s|] == j;
      JoinPiecesNoDoubled(ws[1..], sep, c);
      forall k | 1 <= k < |ws| ensures NoDoubled(ws[k], c) {
        assert ws[k] == ws[1..][k - 1];
      }
    }
  }

  /** A join of pieces without two `c` side by side has none either, when
      the separator is not `c`. */
  lemma {:induction false} JoinNoDoubled(ws: seq<string>, sep: char, c: char)
    requires c != sep && forall k | 0 <= k < |ws| :: NoDoubled(ws[k], c)
    ensures NoDoubled(Join(ws, sep), c)
  {
    if |ws| > 1 {
      JoinNoDoubled(ws[1..], sep, c);
      var j := Join(ws[1..], sep);
      NoDoubledAppend([sep], j, c);
      NoDoubledAppend(ws[0], [sep] + j, c);
      assert Join(ws, sep) == ws[0] + ([sep] + j);
    }
  }

  /** Two words with the same lower-case form hold a non-letter at the same places. */
  lemma SameLowerNoDoubled(x: string, y: string, c: char)
    requires |x| == |y| && Lower(x) == Lower(y) && !IsUpper(c) && !IsLower(c)
    requires NoDoubled(y, c)
    ensures NoDoubled(x, c)
  {
    forall k | 0 <= k < |x| ensures x[k] == c ==> y[k] == c {
      assert Lower(x)[k] == LowerChar(x[k]) && Lower(y)[k] == LowerChar(y[k]);
    }
  }

  lemma {:induction false} NonEmptyNoDoubled(ws: seq<string>, n: nat, c: char)
    requires n <= |ws|
    requires forall k | 0 <= k < |ws| :: NoDoubled(ws[k], c)
    ensures forall k | 0 <= k < |NonEmptyUpTo(ws, n)| :: NoDoubled(NonEmptyUpTo(ws, n)[k], c)
  {
    if n > 0 {
      NonEmptyNoDoubled(ws, n - 1, c);
    }
  }

  /** Without a comma nothing is reordered. */
  lemma NoCommaNoReorder(s: string)
    requires ',' !in s
    ensures Reorder(s) == s
  {
    assert forall i | 0 <= i < |s| :: s[i] != ',';
  }

  /** Without a comma in the input, a pass over ' ' or '-' is idempotent, and
      so is `capitalize(s, '-')`: the result has no character that `strip`
      removes at either end, no comma, and words that the word loop casts to
      themselves, since its first and last word are non-empty. */
  lemma PassIdempotent(s: string, sep: char)
    requires sep == ' ' || sep == '-'
    requires ',' !in s
    ensures Pass(Pass(s, sep), sep) == Pass(s, sep)
    ensures sep == '-' ==> Capitalized(Capitalized(s, sep), sep) == Capitalized(s, sep)
  {
    var t := Strip(s);
    StripShape(s);
    NoCommaNoReorder(t);
    assert Pass(s, sep) == Join(CasedWords(Split(t, sep)), sep);
    if t == [] {
      EmptyPass(sep);
    } else {
      StrippedPassIdempotent(t, sep);
    }
  }

  /** A pass over the empty text gives the empty text. */
  lemma EmptyPass(sep: char)
    ensures Join(CasedWords(Split([], sep)), sep) == []
    ensures Pass([], sep) == []
  {
    assert Split([], sep) == [""];
    assert CasedWords([""]) == [];
    TrimNoOp([], IsStripped);
    NoCommaNoReorder([]);
  }

  /** A pass over the result of a pass on a stripped, comma-free, non-empty
      text changes nothing. */
  lemma StrippedPassIdempotent(t: string, sep: char)
    requires sep == ' ' || sep == '-'
    requires |t| > 0 && !IsStripped(t[0]) && !IsStripped(t[|t| - 1]) && ',' !in t
    ensures var r := Join(CasedWords(Split(t, sep)), sep); Pass(r, sep) == r
  {
    var ws := Split(t, sep);
    var cw := CasedWords(ws);
    var r := Join(cw, sep);
    assert CasedWords(cw) == cw by {
      PassResultShape(t, sep);
      CasedWordsIdempotent(ws);
    }
    assert Split(Reorder(Strip(r)), sep) == cw by {
      PassResultShape(t, sep);
      WordsOfPass(cw, sep);
    }
  }

  /** The words a pass finds in a join of words without the separator, whose
      ends `strip` keeps and which holds no comma, are those words. */
  lemma WordsOfPass(cw: seq<string>, sep: char)
    requires |cw| >= 1 && forall k | 0 <= k < |cw| :: sep !in cw[k]
    requires var r := Join(cw, sep);
      ',' !in r && |r| > 0 && !IsStripped(r[0]) && !IsStripped(r[|r| - 1])
    ensures Split(Reorder(Strip(Join(cw, sep))), sep) == cw
  {
    var r := Join(cw, sep);
    TrimNoOp(r, IsStripped);
    NoCommaNoReorder(r);
    SplitJoin(cw, sep);
  }

  /** A stripped comma-free text has no comma and keeps its ends. */
  lemma StripShape(s: string)
    requires ',' !in s
    ensures var t := Strip(s);
      && ',' !in t
      && (t != [] ==> !IsStripped(t[0]) && !IsStripped(t[|t| - 1]))
  {
    var t := Strip(s);
    TrimShape(s, IsStripped);
    forall i | 0 <= i < |t| ensures t[i] != ',' {
      assert t[i] in s;
    }
  }

  /** The join of the cased words of a stripped, comma-free, non-empty text:
      its pieces hold neither the separator nor a comma, and its two ends are
      characters that `strip` keeps. */
  lemma PassResultShape(t: string, sep: char)
    requires sep == ' ' || sep == '-'
    requires |t| > 0 && !IsStripped(t[0]) && !IsStripped(t[|t| - 1]) && ',' !in t
    ensures var ws := Split(t, sep); var cw := CasedWords(ws); var r := Join(cw, sep);
      && |ws| > 0 && |ws[0]| > 0 && |ws[|ws| - 1]| > 0
      && |cw| >= 1 && (forall k | 0 <= k < |cw| :: sep !in cw[k])
      && ',' !in r && |r| > 0 && !IsStripped(r[0]) && !IsStripped(r[|r| - 1])
  {
    var ws := Split(t, sep);
    SplitFirst(t, sep);
    SplitLast(t, sep);
    SplitKeepsOut(t, sep, ',');
    CasedWordsHaveNoSeparator(ws, sep);
    CasedWordsHaveNoSeparator(ws, ',');
    CasedJoinEnds(ws, sep);
    JoinKeepsOut(CasedWords(ws), sep, ',');
  }

  /** The joined cased words start and end with characters that `strip`
      keeps when the words do. */
  lemma CasedJoinEnds(ws: seq<string>, sep: char)
    requires |ws| > 0 && |ws[0]| > 0 && |ws[|ws| - 1]| > 0
    requires !IsStripped(ws[0][0]) && !IsStripped(ws[|ws| - 1][|ws[|ws| - 1]| - 1])
    requires forall k | 0 <= k < |CasedWords(ws)| :: |CasedWords(ws)[k]| > 0
    ensures var r := Join(CasedWords(ws), sep);
      |r| > 0 && !IsStripped(r[0]) && !IsStripped(r[|r| - 1])
  {
    var cw := CasedWords(ws);
    var w := ws[|ws| - 1];
    CasedWordsEnds(ws);
    JoinEnds(cw, sep);
    UpperKept(ws[0][0]);
    UpperKept(w[|w| - 1]);
  }

  lemma UpperKept(c: char)
    requires !IsStripped(c)
    ensures !IsStripped(UpperChar(c))
  {
  }

  /** The first cased word starts with the first word's first character, upper
      cased; the last ends with the last word's last character, upper-cased
      when that word has one character. */
  lemma CasedWordsEnds(ws: seq<string>)
    requires |ws| > 0 && |ws[0]| > 0 && |ws[|ws| - 1]| > 0
    ensures var cw := CasedWords(ws); var w := ws[|ws| - 1];
      && |cw| > 0 && |cw[0]| > 0 && |cw[|cw| - 1]| > 0
      && cw[0][0] == UpperChar(ws[0][0])
      && cw[|cw| - 1][|cw[|cw| - 1]| - 1] == if |w| == 1 then UpperChar(w[0]) else w[|w| - 1]
  {
    var cw := CasedWords(ws);
    CasedWordsAt(ws, |ws|);
    NonEmptyIndicesEnds(ws);
    assert cw[0] == CapitalizeFirst(ws[0]);
    assert cw[|cw| - 1] == CapitalizeFirst(ws[|ws| - 1]);
  }

  lemma SplitFirst(s: string, c: char)
    requires |s| > 0 && s[0] != c
    ensures |Split(s, c)[0]| > 0 && Split(s, c)[0][0] == s[0]
  {
  }

  lemma {:induction false} SplitLast(s: string, c: char)
    requires |s| > 0 && s[|s| - 1] != c
    ensures var ws := Split(s, c); var w := ws[|ws| - 1];
      |w| > 0 && w[|w| - 1] == s[|s| - 1]
  {
    if |s| > 1 {
      SplitLast(s[1..], c);
    }
  }

  /** The pieces of a split hold only characters of the text. */
  lemma {:induction false} SplitKeepsOut(s: string, c: char, x: char)
    requires x !in s
    ensures forall k | 0 <= k < |Split(s, c)| :: x !in Split(s, c)[k]
  {
    if |s| > 0 {
      assert x !in s[1..] by {
        forall i | 0 <= i < |s| - 1 ensures s[1..][i] != x {
          assert s[1..][i] == s[i + 1];
        }
      }
      SplitKeepsOut(s[1..], c, x);
    }
  }

  /** A join holds only the separator and characters of its pieces. */
  lemma {:induction false} JoinKeepsOut(ws: seq<string>, c: char, x: char)
    requires x != c && forall k | 0 <= k < |ws| :: x !in ws[k]
    ensures x !in Join(ws, c)
  {
    if |ws| > 1 {
      JoinKeepsOut(ws[1..], c, x);
      assert x !in ws[0];
    }
  }

  /** A join of non-empty pieces starts with the first piece and ends with the last. */
  lemma {:induction false} JoinEnds(ws: seq<string>, c: char)
    requires |ws| > 0 && forall k | 0 <= k < |ws| :: |ws[k]| > 0
    ensures var r := Join(ws, c); var w := ws[|ws| - 1];
      |r| > 0 && r[0] == ws[0][0] && r[|r| - 1] == w[|w| - 1]
  {
    if |ws| > 1 {
      JoinEnds(ws[1..], c);
      var j := Join(ws[1..], c);
      assert Join(ws, c) == ws[0] + [c] + j;
    }
  }

  /** With two commas `capitalize(s, '-')` is not idempotent: its result
      still holds a comma followed by text ending in " on", so a second call
      reorders it again (for instance "a, on, b on" becomes "B ona, on" and
      then "OnB ona"). */
  lemma CommaPassesTwice(x: string, y: string, b: string)
    requires |x| > 0 && !IsStripped(x[0])
    requires EndsWithOn(y) && EndsWithOn(b) && !IsStripped(b[1])
    requires ',' !in y && ',' !in b
    requires '-' !in x && '-' !in y && '-' !in b
    ensures var s := x + [','] + y + [','] + b; var r := Capitalized(s, '-');
      && |r| > 0 && r[0] == UpperChar(b[1])
      && |Capitalized(r, '-')| > 0 && Capitalized(r, '-')[0] == UpperChar(y[1])
      && (UpperChar(b[1]) != UpperChar(y[1]) ==> Capitalized(r, '-') != r)
  {
    var a2 := [UpperChar(b[1])] + b[2..] + x;
    FirstCommaPass(x, y, b);
    assert '-' !in [UpperChar(b[1])] + b[2..];
    SecondCommaPass(a2, y);
  }

  /** The first call on x,y,b moves b (less its leading space) to the front. */
  lemma FirstCommaPass(x: string, y: string, b: string)
    requires |x| > 0 && !IsStripped(x[0])
    requires EndsWithOn(b) && !IsStripped(b[1])
    requires ',' !in b
    requires '-' !in x && '-' !in y && '-' !in b
    ensures Capitalized(x + [','] + y + [','] + b, '-') == ([UpperChar(b[1])] + b[2..] + x) + [','] + y
  {
    var a := x + [','] + y;
    var s := a + [','] + b;
    EndsWithOnKept(b);
    assert s[0] == x[0] && s[|s| - 1] == b[|b| - 1];
    TrimNoOp(s, IsStripped);
    ReorderSplit(a, b);
    var u := b[1..] + a;
    assert '-' !in b[1..];
    OneWordPass(u, '-');
    assert u[0] == b[1];
    assert u[1..] == b[2..] + a by { DropOne(b[1..], a); assert b[1..][1..] == b[2..]; }
    Regroup(UpperChar(b[1]), b[2..], x, y);
  }

  /** The second call on a,y moves y (less its leading space) to the front. */
  lemma SecondCommaPass(a: string, y: string)
    requires |a| > 0 && !IsStripped(a[0])
    requires EndsWithOn(y) && ',' !in y
    requires '-' !in a && '-' !in y
    ensures var r := Capitalized(a + [','] + y, '-'); |r| > 0 && r[0] == UpperChar(y[1])
  {
    var r := a + [','] + y;
    EndsWithOnKept(y);
    assert r[0] == a[0] && r[|r| - 1] == y[|y| - 1];
    TrimNoOp(r, IsStripped);
    ReorderSplit(a, y);
    OneWordPass(y[1..] + a, '-');
  }

  /** The reordering of a text whose last comma has a before it and b after. */
  lemma ReorderSplit(a: string, b: string)
    requires |a| > 0 && ',' !in b && EndsWithOn(b)
    ensures Reorder(a + [','] + b) == b[1..] + a
  {
    var s := a + [','] + b;
    assert s[|a|] == ',';
    forall i | |a| < i < |s| ensures s[i] != ',' {
      assert s[i] == b[i - |a| - 1];
    }
    RFindIs(s, ',', |a|);
    assert s[|s| - 3..] == b[|b| - 3..];
    assert s[|a| + 2..] == b[1..];
    assert s[..|a|] == a;
  }

  lemma DropOne(p: string, q: string)
    requires |p| > 0
    ensures (p + q)[1..] == p[1..] + q
  {
  }

  lemma Regroup(c: char, p: string, x: string, y: string)
    ensures [c] + (p + (x + [','] + y)) == ([c] + p + x) + [','] + y
  {
  }

  /** A text ending in " on" ends in a character that is not stripped. */
  lemma EndsWithOnKept(s: string)
    requires EndsWithOn(s)
    ensures !IsStripped(s[|s| - 1])
  {
    assert Lower(s[|s| - 3..])[2] == LowerChar(s[|s| - 1]);
  }

  /** `s.rfind(c)` at a position holding `c` with none after it. */
  lemma RFindIs(s: string, c: char, p: nat)
    requires p < |s| && s[p] == c && c !in s[p + 1..]
    ensures RFind(s, c) == p
  {
    assert forall i | p < i < |s| :: s[i] == s[p + 1..][i - p - 1];
  }

  /** A pass over a text without the separator capitalizes it as one word. */
  lemma OneWordPass(t: string, sep: char)
    requires |t| > 0 && sep !in t
    ensures Join(CasedWords(Split(t, sep)), sep) == CapitalizeFirst(t)
  {
    SplitPrefix(t, "", sep);
    assert t + "" == t;
    var ws := [t];
    assert Split(t, sep) == ws;
    assert ws[0] == t && |ws[0]| > 0;
    assert CasedWordsUpTo(ws, 1) == CasedWordsUpTo(ws, 0) + [CaseWord(ws, 0)];
    assert CaseWord(ws, 0) == CapitalizeFirst(t);
  }

  /** The reordering: when it applies, the last comma sits at p > 0, the text
      ends in " on", and the result is the text from p + 2 on followed by the
      text before p; the comma and the character after it are dropped. */
  lemma ReorderSpec(s: string)
    ensures var r := Reorder(s); var p := RFind(s, ',');
      if p > 0 && EndsWithOn(s) then
        && p + 2 <= |s| && s[p] == ',' && ',' !in s[p + 1..]
        && |r| == |s| - 2
        && multiset(r) == multiset(s) - multiset{s[p], s[p + 1]}
        && r == s[p + 2..] + s[..p]
      else r == s
  {
    var p := RFind(s, ',');
    if p > 0 && EndsWithOn(s) {
      var e := s[|s| - 3..];
      assert Lower(e)[2] == LowerChar(e[2]) == 'n';
      assert s[|s| - 1] != ',';
      assert p + 2 <= |s|;
      assert s == s[..p] + [s[p], s[p + 1]] + s[p + 2..];
      calc {
        multiset(s);
        multiset(s[..p]) + multiset{s[p], s[p + 1]} + multiset(s[p + 2..]);
      }
    }
  }
}
