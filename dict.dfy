/** A Python `dict` from field name to field value: an insertion-ordered
    association list. Assigning to a present key keeps its position,
    assigning to a new key appends it, `del` removes it. */
module Dict {
  import opened Wrappers

  datatype Field = Field(name: string, value: string)

  type Fields = seq<Field>

  function Names(fs: Fields): (r: seq<string>)
    ensures |r| == |fs| && forall i | 0 <= i < |fs| :: r[i] == fs[i].name
  {
    seq(|fs|, i requires 0 <= i < |fs| => fs[i].name)
  }

  /** No key occurs twice. */
  predicate Distinct(fs: Fields)
  {
    forall i, j | 0 <= i < j < |fs| :: fs[i].name != fs[j].name
  }

  /** The position of key `k`, if present. */
  function IndexOf(fs: Fields, k: string): (r: Option<nat>)
    ensures r.Some? ==> r.value < |fs| && fs[r.value].name == k
    ensures r.Some? ==> forall i | 0 <= i < r.value :: fs[i].name != k
    ensures r.None? <==> forall i | 0 <= i < |fs| :: fs[i].name != k
  {
    if |fs| == 0 then None
    else if fs[0].name == k then Some(0)
    else match IndexOf(fs[1..], k)
      case None => None
      case Some(i) => Some(i + 1)
  }

  /** `k in d` */
  predicate Has(fs: Fields, k: string) { IndexOf(fs, k).Some? }

  /** `d[k]`, None standing for the KeyError */
  function Get(fs: Fields, k: string): (r: Option<string>)
    ensures r.Some? <==> Has(fs, k)
    ensures r.Some? ==> Field(k, r.value) in fs
  {
    match IndexOf(fs, k)
    case None => None
    case Some(i) => Some(fs[i].value)
  }

  /** `d[k] = v` */
  function Set(fs: Fields, k: string, v: string): Fields
  {
    match IndexOf(fs, k)
    case Some(i) => fs[i := Field(k, v)]
    case None => fs + [Field(k, v)]
  }

  /** `del d[k]` (a missing key is left to the caller) */
  function Delete(fs: Fields, k: string): Fields
  {
    match IndexOf(fs, k)
    case Some(i) => fs[..i] + fs[i + 1..]
    case None => fs
  }

  /** The names with `k` filtered out, the others in their order. */
  function Without(ns: seq<string>, k: string): seq<string>
  {
    if ns == [] then [] else (if ns[0] == k then [] else [ns[0]]) + Without(ns[1..], k)
  }

  lemma {:induction false} WithoutAppend(a: seq<string>, b: seq<string>, k: string)
    ensures Without(a + b, k) == Without(a, k) + Without(b, k)
  {
    if a == [] {
      assert a + b == b;
    } else {
      var h := if a[0] == k then [] else [a[0]];
      assert (a + b)[0] == a[0] && (a + b)[1..] == a[1..] + b;
      assert Without(a + b, k) == h + Without(a[1..] + b, k);
      WithoutAppend(a[1..], b, k);
      assert Without(a, k) == h + Without(a[1..], k);
    }
  }

  lemma {:induction false} WithoutAbsent(ns: seq<string>, k: string)
    requires k !in ns
    ensures Without(ns, k) == ns
  {
    if ns != [] {
      WithoutAbsent(ns[1..], k);
    }
  }

  lemma NamesAppend(a: Fields, b: Fields)
    ensures Names(a + b) == Names(a) + Names(b)
  {
  }

  lemma NamesSlice(fs: Fields, i: nat, j: nat)
    requires i <= j <= |fs|
    ensures Names(fs[i..j]) == Names(fs)[i..j]
  {
  }

  lemma IndexOfIs(fs: Fields, k: string, i: nat)
    requires i < |fs| && fs[i].name == k
    requires forall j | 0 <= j < i :: fs[j].name != k
    ensures IndexOf(fs, k) == Some(i)
  {
  }

  /** The position of a key depends on the names alone. */
  lemma IndexOfSameNames(fs: Fields, gs: Fields, k: string)
    requires |fs| == |gs| && forall i | 0 <= i < |fs| :: fs[i].name == gs[i].name
    ensures IndexOf(fs, k) == IndexOf(gs, k)
  {
    match IndexOf(fs, k)
    case None =>
    case Some(i) => IndexOfIs(gs, k, i);
  }

  lemma GetOfDistinct(fs: Fields, i: nat)
    requires Distinct(fs) && i < |fs|
    ensures Get(fs, fs[i].name) == Some(fs[i].value)
  {
  }

  /** Assignment: the key now maps to `v`, every other key keeps its value,
      the key order is kept, and a new key goes last. */
  lemma SetSpec(fs: Fields, k: string, v: string)
    requires Distinct(fs)
    ensures Distinct(Set(fs, k, v))
    ensures Get(Set(fs, k, v), k) == Some(v)
    ensures forall k' | k' != k :: Get(Set(fs, k, v), k') == Get(fs, k')
    ensures Names(Set(fs, k, v)) == if Has(fs, k) then Names(fs) else Names(fs) + [k]
  {
    var r := Set(fs, k, v);
    forall k' | k' != k ensures Get(r, k') == Get(fs, k') {
      SetOther(fs, k, v, k');
    }
    match IndexOf(fs, k)
    case Some(i) =>
      assert r == fs[i := Field(k, v)];
      IndexOfIs(r, k, i);
      assert Names(r) == Names(fs);
      forall a, b | 0 <= a < b < |r| ensures r[a].name != r[b].name {
        assert r[a].name == fs[a].name && r[b].name == fs[b].name;
      }
    case None =>
      assert r == fs + [Field(k, v)];
      IndexOfIs(r, k, |fs|);
      assert Names(r) == Names(fs) + [k];
      forall a, b | 0 <= a < b < |r| ensures r[a].name != r[b].name {
        assert r[a] == fs[a];
      }
  }

  lemma SetOther(fs: Fields, k: string, v: string, k': string)
    requires k' != k
    ensures Get(Set(fs, k, v), k') == Get(fs, k')
  {
    var r := Set(fs, k, v);
    assert forall i | 0 <= i < |fs| :: r[i].name == k' <==> fs[i].name == k';
    assert |r| > |fs| ==> r[|fs|].name != k';
    match IndexOf(fs, k')
    case None =>
      assert forall i | 0 <= i < |r| :: r[i].name != k';
    case Some(j) =>
      assert r[j] == fs[j];
      IndexOfIs(r, k', j);
  }

  /** Deletion: the key is gone, every other key keeps its value, and the
      remaining keys keep their order. */
  lemma DeleteSpec(fs: Fields, k: string)
    requires Distinct(fs)
    ensures Distinct(Delete(fs, k))
    ensures !Has(Delete(fs, k), k)
    ensures forall k' | k' != k :: Get(Delete(fs, k), k') == Get(fs, k')
    ensures Names(Delete(fs, k)) == Without(Names(fs), k)
    ensures |Delete(fs, k)| == if Has(fs, k) then |fs| - 1 else |fs|
  {
    var r := Delete(fs, k);
    var ns := Names(fs);
    match IndexOf(fs, k)
    case None =>
      WithoutAbsent(ns, k);
    case Some(i) =>
      assert r == fs[..i] + fs[i + 1..];
      DeleteAt(fs, i, r);
      DeleteNames(fs, k, i);
      forall k' | k' != k ensures Get(r, k') == Get(fs, k') {
        DeleteOther(fs, k, i, k');
      }
  }

  lemma DeleteNames(fs: Fields, k: string, i: nat)
    requires Distinct(fs) && IndexOf(fs, k) == Some(i)
    ensures Names(Delete(fs, k)) == Without(Names(fs), k)
  {
    var ns := Names(fs);
    assert Delete(fs, k) == fs[..i] + fs[i + 1..];
    NamesAppend(fs[..i], fs[i + 1..]);
    NamesSlice(fs, 0, i);
    NamesSlice(fs, i + 1, |fs|);
    assert fs[..i] == fs[0..i] && fs[i + 1..] == fs[i + 1..|fs|];
    assert Names(Delete(fs, k)) == ns[..i] + ns[i + 1..];
    WithoutOne(ns, k, i);
  }

  /** Filtering out a key that occurs once, at `i`, removes position `i`. */
  lemma WithoutOne(ns: seq<string>, k: string, i: nat)
    requires i < |ns| && ns[i] == k
    requires forall j | 0 <= j < |ns| && j != i :: ns[j] != k
    ensures Without(ns, k) == ns[..i] + ns[i + 1..]
  {
    assert ns == ns[..i] + [k] + ns[i + 1..];
    WithoutAppend(ns[..i] + [k], ns[i + 1..], k);
    WithoutAppend(ns[..i], [k], k);
    assert Without([k], k) == [] + Without([], k);
    WithoutAbsent(ns[..i], k);
    WithoutAbsent(ns[i + 1..], k);
  }

  lemma DeleteOther(fs: Fields, k: string, i: nat, k': string)
    requires IndexOf(fs, k) == Some(i) && k' != k
    ensures Get(Delete(fs, k), k') == Get(fs, k')
  {
    var r := fs[..i] + fs[i + 1..];
    assert Delete(fs, k) == r;
    match IndexOf(fs, k')
    case None =>
      AbsentAfterRemoval(fs, i, k');
    case Some(j) =>
      assert fs[j].name == k' && fs[i].name == k;
      if j < i {
        IndexBeforeRemoval(fs, i, j, k');
        assert r[j] == fs[j];
      } else {
        IndexAfterRemoval(fs, i, j, k');
        assert r[j - 1] == fs[j];
      }
  }

  lemma AbsentAfterRemoval(fs: Fields, i: nat, k': string)
    requires i < |fs| && forall l | 0 <= l < |fs| :: fs[l].name != k'
    ensures IndexOf(fs[..i] + fs[i + 1..], k').None?
  {
    var r := fs[..i] + fs[i + 1..];
    forall l | 0 <= l < |r| ensures r[l].name != k' {
      if l < i { assert r[l] == fs[l]; } else { assert r[l] == fs[l + 1]; }
    }
  }

  /** A key found before the removed position keeps its position. */
  lemma IndexBeforeRemoval(fs: Fields, i: nat, j: nat, k': string)
    requires j < i < |fs| && fs[j].name == k'
    requires forall l | 0 <= l < j :: fs[l].name != k'
    ensures IndexOf(fs[..i] + fs[i + 1..], k') == Some(j)
  {
    var r := fs[..i] + fs[i + 1..];
    assert r[j] == fs[j];
    forall l | 0 <= l < j ensures r[l].name != k' {
      assert r[l] == fs[l];
    }
    IndexOfIs(r, k', j);
  }

  /** A key found after the removed position moves down by one. */
  lemma IndexAfterRemoval(fs: Fields, i: nat, j: nat, k': string)
    requires i < j < |fs| && fs[j].name == k' && fs[i].name != k'
    requires forall l | 0 <= l < j :: fs[l].name != k'
    ensures IndexOf(fs[..i] + fs[i + 1..], k') == Some(j - 1)
  {
    var r := fs[..i] + fs[i + 1..];
    assert r[j - 1] == fs[j];
    forall l | 0 <= l < j - 1 ensures r[l].name != k' {
      if l < i { assert r[l] == fs[l]; } else { assert r[l] == fs[l + 1]; }
    }
    IndexOfIs(r, k', j - 1);
  }

  lemma DeleteAt(fs: Fields, i: nat, r: Fields)
    requires Distinct(fs) && i < |fs| && r == fs[..i] + fs[i + 1..]
    ensures Distinct(r)
    ensures forall j | 0 <= j < |r| :: r[j].name != fs[i].name
  {
    RemoveAt(fs, i);
    forall j | 0 <= j < |r| ensures r[j].name != fs[i].name {
      if j < i { assert r[j] == fs[j]; } else { assert r[j] == fs[j + 1]; }
    }
    forall a, b | 0 <= a < b < |r| ensures r[a].name != r[b].name {
      var a', b' := if a < i then a else a + 1, if b < i then b else b + 1;
      assert r[a] == fs[a'] && r[b] == fs[b'] && a' < b';
    }
  }

  /** The list with position `i` removed: the elements after it move down by one. */
  lemma RemoveAt(fs: Fields, i: nat)
    requires i < |fs|
    ensures |fs[..i] + fs[i + 1..]| == |fs| - 1
    ensures forall j | 0 <= j < |fs| - 1 :: (fs[..i] + fs[i + 1..])[j] == if j < i then fs[j] else fs[j + 1]
  {
  }
}
