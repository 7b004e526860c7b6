/** `levenshtein`: case-insensitive edit distance, computed by the two-row
    dynamic programme. */
module Levenshtein {
  import opened Text

  function Min3(a: nat, b: nat, c: nat): nat
  {
    if a <= b && a <= c then a else if b <= c then b else c
  }

  /** The edit distance between the prefixes a[..i] and b[..j]: the fewest
      insertions, deletions and substitutions turning one into the other. */
  function Dist(a: string, b: string, i: nat, j: nat): nat
    requires i <= |a| && j <= |b|
    decreases i + j
  {
    if i == 0 then j
    else if j == 0 then i
    else Min3(Dist(a, b, i - 1, j) + 1,
              Dist(a, b, i, j - 1) + 1,
              Dist(a, b, i - 1, j - 1) + (if a[i - 1] == b[j - 1] then 0 else 1))
  }

  function EditDistance(a: string, b: string): nat
  {
    Dist(a, b, |a|, |b|)
  }

  lemma {:induction false} DistSymmetric(a: string, b: string, i: nat, j: nat)
    requires i <= |a| && j <= |b|
    ensures Dist(a, b, i, j) == Dist(b, a, j, i)
    decreases i + j
  {
    if i > 0 && j > 0 {
      DistSymmetric(a, b, i - 1, j);
      DistSymmetric(a, b, i, j - 1);
      DistSymmetric(a, b, i - 1, j - 1);
    }
  }

  /** The distance does not depend on the order of the arguments. */
  lemma EditDistanceSymmetric(a: string, b: string)
    ensures EditDistance(a, b) == EditDistance(b, a)
  {
    DistSymmetric(a, b, |a|, |b|);
  }

  lemma {:induction false} DistSelf(a: string, i: nat)
    requires i <= |a|
    ensures Dist(a, a, i, i) == 0
  {
    if i > 0 {
      DistSelf(a, i - 1);
    }
  }

  /** A string is at distance 0 from itself, and at distance |s| from "". */
  lemma EditDistanceSelfAndEmpty(s: string)
    ensures EditDistance(s, s) == 0
    ensures EditDistance(s, "") == |s| && EditDistance("", s) == |s|
  {
    DistSelf(s, |s|);
  }

  lemma {:induction false} DistUpper(a: string, b: string, i: nat, j: nat)
    requires i <= |a| && j <= |b|
    ensures Dist(a, b, i, j) <= if i <= j then j else i
    decreases i + j
  {
    if i > 0 && j > 0 {
      DistUpper(a, b, i - 1, j - 1);
      assert Dist(a, b, i, j) <= Dist(a, b, i - 1, j - 1) + 1;
    }
  }

  lemma {:induction false} DistLower(a: string, b: string, i: nat, j: nat)
    requires i <= |a| && j <= |b|
    ensures Dist(a, b, i, j) >= if i <= j then j - i else i - j
    decreases i + j
  {
    if i > 0 && j > 0 {
      DistLower(a, b, i - 1, j);
      DistLower(a, b, i, j - 1);
      DistLower(a, b, i - 1, j - 1);
      var lo := if i <= j then j - i else i - j;
      assert Dist(a, b, i - 1, j) + 1 >= lo;
      assert Dist(a, b, i, j - 1) + 1 >= lo;
      assert Dist(a, b, i - 1, j - 1) >= lo;
    }
  }

  /** The distance lies between the difference of the lengths and the longer length. */
  lemma EditDistanceBounds(a: string, b: string)
    ensures EditDistance(a, b) <= if |a| <= |b| then |b| else |a|
    ensures EditDistance(a, b) >= if |a| <= |b| then |b| - |a| else |a| - |b|
  {
    DistUpper(a, b, |a|, |b|);
    DistLower(a, b, |a|, |b|);
  }

  /** The distance `levenshtein` computes: that of the lower-cased strings. */
  function CaselessDistance(s1: string, s2: string): nat
  {
    EditDistance(Lower(s1), Lower(s2))
  }

  /** Case does not matter, and neither does the order of the arguments. */
  lemma CaselessDistanceProperties(s1: string, s2: string)
    ensures CaselessDistance(s1, s2) == CaselessDistance(s2, s1)
    ensures CaselessDistance(Lower(s1), Lower(s2)) == CaselessDistance(s1, s2)
    ensures CaselessDistance(s1, s1) == 0
    ensures CaselessDistance(s1, "") == |s1|
  {
    EditDistanceSymmetric(Lower(s1), Lower(s2));
    LowerIdempotent(s1);
    LowerIdempotent(s2);
    EditDistanceSelfAndEmpty(Lower(s1));
    assert Lower("") == "";
  }

  /** One pass of the outer loop: `current_row` built from `previous_row`. */
  method NextRow(a: string, b: string, i: nat, previous: seq<nat>) returns (current: seq<nat>)
    requires i < |a|
    requires |previous| == |b| + 1
    requires forall j | 0 <= j <= |b| :: previous[j] == Dist(a, b, i, j)
    ensures |current| == |b| + 1
    ensures forall j | 0 <= j <= |b| :: current[j] == Dist(a, b, i + 1, j)
  {
    current := [i + 1];
    var j := 0;
    while j < |b|
      invariant 0 <= j <= |b|
      invariant |current| == j + 1
      invariant forall k | 0 <= k <= j :: current[k] == Dist(a, b, i + 1, k)
    {
      var insertions := previous[j + 1] + 1;
      var deletions := current[j] + 1;
      var substitutions := previous[j] + (if a[i] != b[j] then 1 else 0);
      assert Min3(insertions, deletions, substitutions) == Dist(a, b, i + 1, j + 1);
      current := current + [Min3(insertions, deletions, substitutions)];
      j := j + 1;
    }
  }

  /** The body of `levenshtein` once its arguments are lower-cased and ordered:
      the rows of the distance table are built one at a time, each from the
      previous one, and the last entry of the last row is the distance. */
  method DistanceTable(a: string, b: string) returns (d: nat)
    ensures d == EditDistance(a, b)
  {
    if |b| == 0 {
      return |a|;
    }
    var previous: seq<nat> := seq(|b| + 1, j requires 0 <= j <= |b| => j);
    var i := 0;
    while i < |a|
      invariant 0 <= i <= |a|
      invariant |previous| == |b| + 1
      invariant forall j | 0 <= j <= |b| :: previous[j] == Dist(a, b, i, j)
    {
      previous := NextRow(a, b, i, previous);
      i := i + 1;
    }
    d := previous[|b|];
  }

  /** Python's `levenshtein(s1, s2)`: both strings are lower-cased and the
      longer one is put first. */
  method ComputeLevenshtein(s1: string, s2: string) returns (d: nat)
    ensures d == CaselessDistance(s1, s2)
    decreases if |s1| < |s2| then 1 else 0
  {
    var a := Lower(s1);
    var b := Lower(s2);
    if |a| < |b| {
      d := ComputeLevenshtein(s2, s1);
      EditDistanceSymmetric(b, a);
      return;
    }
    d := DistanceTable(a, b);
  }
}
