/** Year inference from a citation key: `Re.year = re.compile('\w+(\d+)')`
    applied with `search`. */
module YearKey {
  import opened Wrappers
  import opened Text

  /** A match of `\w+(\d+)` in `s`: `\w+` is s[start..split], the group `(\d+)`
      is s[split..end]. */
  ghost predicate IsMatch(s: string, start: nat, split: nat, end: nat)
  {
    && start < split < end <= |s|
    && (forall j | start <= j < split :: IsWordChar(s[j]))
    && (forall j | split <= j < end :: IsDigit(s[j]))
  }

  /** The match a backtracking engine reports: the leftmost start, then the
      longest `\w+`, then the longest `\d+`. */
  ghost predicate IsReported(s: string, start: nat, split: nat, end: nat)
  {
    && IsMatch(s, start, split, end)
    && (forall i: nat, k: nat, m: nat | IsMatch(s, i, k, m) :: start <= i)
    && (forall k: nat, m: nat | IsMatch(s, start, k, m) :: k <= split)
    && (forall m: nat | IsMatch(s, start, split, m) :: m <= end)
  }

  datatype Span = Span(start: nat, split: nat, end: nat)

  /** The largest k in [lo, hi) with a digit at k. */
  function LastDigit(s: string, lo: nat, hi: nat): (r: Option<nat>)
    requires lo <= hi <= |s|
    ensures r.Some? ==> lo <= r.value < hi && IsDigit(s[r.value])
    ensures r.Some? ==> forall k | r.value < k < hi :: !IsDigit(s[k])
    ensures r.None? ==> forall k | lo <= k < hi :: !IsDigit(s[k])
    decreases hi
  {
    if hi == lo then None
    else if IsDigit(s[hi - 1]) then Some(hi - 1)
    else LastDigit(s, lo, hi - 1)
  }

  /** The search from position i onward: at a word character, `\w+` first takes
      the whole run and gives characters back until a digit can follow. */
  function SearchFrom(s: string, i: nat): Option<Span>
    requires i <= |s|
    decreases |s| - i
  {
    if i == |s| then None
    else if IsWordChar(s[i]) then
      match LastDigit(s, i + 1, RunEnd(s, i, IsWordChar))
      case Some(k) => Some(Span(i, k, RunEnd(s, k, IsDigit)))
      case None => SearchFrom(s, i + 1)
    else SearchFrom(s, i + 1)
  }

  /** `m.groups()[0]` of `Re.year.search(key)`, if there is a match. */
  function YearCapture(key: string): Option<string>
  {
    match SearchFrom(key, 0)
    case None => None
    case Some(sp) => if sp.split <= sp.end <= |key| then Some(key[sp.split..sp.end]) else None
  }

  /** No match starts at `i`. */
  ghost predicate NoMatchAt(s: string, i: nat)
  {
    forall k: nat, m: nat :: !IsMatch(s, i, k, m)
  }

  /** A match starting at `i`, with the longest `\w+` and then the longest `\d+`. */
  ghost predicate GreedyAt(s: string, i: nat, k: nat, m: nat)
  {
    && IsMatch(s, i, k, m)
    && (forall k': nat, m': nat | IsMatch(s, i, k', m') :: k' <= k)
    && (forall m': nat | IsMatch(s, i, k, m') :: m' <= m)
  }

  lemma WordRunCovers(s: string, i: nat, k: nat)
    requires i <= k < |s|
    requires forall j | i <= j <= k :: IsWordChar(s[j])
    ensures k < RunEnd(s, i, IsWordChar)
  {
  }

  lemma NoDigitNoMatch(s: string, i: nat)
    requires i < |s| && IsWordChar(s[i])
    requires LastDigit(s, i + 1, RunEnd(s, i, IsWordChar)).None?
    ensures NoMatchAt(s, i)
  {
    forall k: nat, m: nat ensures !IsMatch(s, i, k, m) {
      if IsMatch(s, i, k, m) {
        assert IsDigit(s[k]);
        WordRunCovers(s, i, k);
        assert false;
      }
    }
  }

  lemma LastDigitIsGreedy(s: string, i: nat, k: nat)
    requires i < |s| && IsWordChar(s[i])
    requires LastDigit(s, i + 1, RunEnd(s, i, IsWordChar)) == Some(k)
    ensures GreedyAt(s, i, k, RunEnd(s, k, IsDigit))
  {
    var m := RunEnd(s, k, IsDigit);
    assert IsMatch(s, i, k, m);
    forall k': nat, m': nat | IsMatch(s, i, k', m') ensures k' <= k {
      assert IsDigit(s[k']);
      WordRunCovers(s, i, k');
    }
  }

  /** What the search from position `i` reports. */
  ghost predicate FoundFrom(s: string, i: nat, r: Option<Span>)
  {
    match r
    case None => forall i': nat | i <= i' :: NoMatchAt(s, i')
    case Some(sp) =>
      && i <= sp.start
      && GreedyAt(s, sp.start, sp.split, sp.end)
      && forall i': nat | i <= i' < sp.start :: NoMatchAt(s, i')
  }

  lemma {:induction false} SearchFromIsLeftmostGreedy(s: string, i: nat)
    requires i <= |s|
    ensures FoundFrom(s, i, SearchFrom(s, i))
    decreases |s| - i
  {
    if i == |s| {
      forall i': nat | i <= i' ensures NoMatchAt(s, i') { }
      return;
    }
    if IsWordChar(s[i]) {
      var e := RunEnd(s, i, IsWordChar);
      match LastDigit(s, i + 1, e)
      case Some(k) =>
        LastDigitIsGreedy(s, i, k);
      case None =>
        NoDigitNoMatch(s, i);
        SearchFromIsLeftmostGreedy(s, i + 1);
    } else {
      assert NoMatchAt(s, i);
      SearchFromIsLeftmostGreedy(s, i + 1);
    }
  }

  /** The recogniser finds exactly the match Python reports, or none when
      there is no match at all. */
  lemma YearSearchIsReported(key: string)
    ensures SearchFrom(key, 0).None? ==> forall i: nat, k: nat, m: nat :: !IsMatch(key, i, k, m)
    ensures SearchFrom(key, 0).Some? ==>
      var sp := SearchFrom(key, 0).value;
      IsReported(key, sp.start, sp.split, sp.end)
  {
    SearchFromIsLeftmostGreedy(key, 0);
    match SearchFrom(key, 0)
    case None =>
      forall i: nat, k: nat, m: nat ensures !IsMatch(key, i, k, m) {
        assert NoMatchAt(key, i);
      }
    case Some(sp) =>
      forall i: nat, k: nat, m: nat | IsMatch(key, i, k, m) ensures sp.start <= i {
        assert i < sp.start ==> NoMatchAt(key, i);
      }
  }

  /** The greedy `\w+` keeps all but one digit: a reported group is a single
      digit, the last digit of the first word run that has a digit after its
      first character. */
  lemma ReportedGroupIsOneDigit(s: string, start: nat, split: nat, end: nat)
    requires IsReported(s, start, split, end)
    ensures end == split + 1
  {
    if end > split + 1 {
      assert IsMatch(s, start, split + 1, end);
    }
  }

  /** What year inference stores is one digit. */
  lemma YearCaptureIsOneDigit(key: string)
    ensures YearCapture(key).Some? ==> |YearCapture(key).value| == 1 && IsDigit(YearCapture(key).value[0])
    ensures YearCapture(key).None? <==> forall i: nat, k: nat, m: nat :: !IsMatch(key, i, k, m)
  {
    YearSearchIsReported(key);
    match SearchFrom(key, 0)
    case None =>
    case Some(sp) =>
      ReportedGroupIsOneDigit(key, sp.start, sp.split, sp.end);
  }

  /** Any match with the engine's priorities determines the capture. */
  lemma YearCaptureOfReported(key: string, i: nat, k: nat, m: nat)
    requires IsReported(key, i, k, m)
    ensures YearCapture(key) == Some(key[k..m])
  {
    YearSearchIsReported(key);
    var sp := SearchFrom(key, 0).value;
    assert sp.start == i && sp.split == k && sp.end == m;
  }

  /** For the key `Smith2020Test` the stored year is "0", not "2020". */
  lemma YearOfSmith2020Test(s: string)
    requires s == "Smith2020Test"
    ensures YearCapture(s) == Some("0")
  {
    assert IsMatch(s, 0, 8, 9);
    assert forall j | 9 <= j < 13 :: !IsDigit(s[j]);
    forall k: nat, m: nat | IsMatch(s, 0, k, m) ensures k <= 8 {
      assert IsDigit(s[k]);
    }
    forall m: nat | IsMatch(s, 0, 8, m) ensures m <= 9 {
      assert !IsDigit(s[9]);
    }
    YearCaptureOfReported(s, 0, 8, 9);
    assert s[8..9] == "0";
  }
}
