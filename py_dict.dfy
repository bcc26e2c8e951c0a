/** A Python `dict`: keys remembered in insertion order, a later assignment
    to a present key overwriting its value but not moving the key.  Dict
    comprehensions `{k: v for ...}` are `FromItems` over the generated pairs. */
module PyDict {

  datatype Dict<K, V> = Dict(keys: seq<K>, items: map<K, V>)

  /** The keys are distinct and are exactly the keys of the mapping. */
  ghost predicate Valid<K(!new), V>(d: Dict<K, V>)
  {
    && (forall i, j :: 0 <= i < j < |d.keys| ==> d.keys[i] != d.keys[j])
    && (forall k :: k in d.items <==> k in d.keys)
  }

  /** `d[k] = v`. */
  function Insert<K(==,!new), V>(d: Dict<K, V>, k: K, v: V): Dict<K, V>
  {
    if k in d.items then Dict(d.keys, d.items[k := v])
    else Dict(d.keys + [k], d.items[k := v])
  }

  /** The key of every pair, in order. */
  function Firsts<K(==,!new), V>(pairs: seq<(K, V)>): (r: seq<K>)
  {
    seq(|pairs|, i requires 0 <= i < |pairs| => pairs[i].0)
  }

  /** `{k: v for (k, v) in pairs}`, evaluated left to right. */
  function FromItems<K(==,!new), V>(pairs: seq<(K, V)>): (d: Dict<K, V>)
    ensures Valid(d)
    ensures forall k :: k in d.items <==> k in Firsts(pairs)
  {
    if pairs == [] then Dict([], map[])
    else
      var n := |pairs| - 1;
      assert Firsts(pairs) == Firsts(pairs[..n]) + [pairs[n].0];
      Insert(FromItems(pairs[..n]), pairs[n].0, pairs[n].1)
  }

  /** `list(d.values())`. */
  function Values<K(==,!new), V>(d: Dict<K, V>): (r: seq<V>)
    requires Valid(d)
    ensures |r| == |d.keys|
  {
    seq(|d.keys|, i requires 0 <= i < |d.keys| => d.items[d.keys[i]])
  }

  /** The elements of `s` without repetition, each where it first occurs. */
  function FirstOccurrences<K(==,!new)>(s: seq<K>): (r: seq<K>)
    ensures forall i, j :: 0 <= i < j < |r| ==> r[i] != r[j]
    ensures forall x :: x in r <==> x in s
  {
    if s == [] then []
    else
      var p := FirstOccurrences(s[..|s| - 1]);
      assert s == s[..|s| - 1] + [s[|s| - 1]];
      if s[|s| - 1] in p then p else p + [s[|s| - 1]]
  }

  /** `s.index(x)`: the position of the first occurrence of `x`. */
  function IndexOf<K(==)>(s: seq<K>, x: K): (i: nat)
    requires x in s
    ensures i < |s| && s[i] == x
    ensures forall j :: 0 <= j < i ==> s[j] != x
  {
    if s[0] == x then 0 else 1 + IndexOf(s[1..], x)
  }

  /** The distinct elements come in the order of their first occurrences;
      with distinctness and membership this fixes the list. */
  lemma {:induction false} FirstOccurrencesInOrder<K(!new)>(s: seq<K>)
    ensures forall i, j :: 0 <= i < j < |FirstOccurrences(s)| ==>
      IndexOf(s, FirstOccurrences(s)[i]) < IndexOf(s, FirstOccurrences(s)[j])
  {
    if s != [] {
      var n := |s| - 1;
      var t := s[..n];
      FirstOccurrencesInOrder(t);
      var p := FirstOccurrences(t);
      var r := FirstOccurrences(s);
      assert r == p || (s[n] !in p && r == p + [s[n]]);
      forall i, j | 0 <= i < j < |r| ensures IndexOf(s, r[i]) < IndexOf(s, r[j]) {
        assert r[i] == p[i] && p[i] in t;
        IndexOfPrefix(s, n, p[i]);
        if j < |p| {
          assert r[j] == p[j] && p[j] in t;
          IndexOfPrefix(s, n, p[j]);
          assert IndexOf(t, p[i]) < IndexOf(t, p[j]);
        } else {
          assert r[j] == s[n] && s[n] !in t;
          assert forall k :: 0 <= k < n ==> s[k] == t[k];
          assert IndexOf(s, s[n]) == n;
        }
      }
    }
  }

  /** An element of a prefix is first met within that prefix. */
  lemma IndexOfPrefix<K>(s: seq<K>, n: nat, x: K)
    requires n <= |s| && x in s[..n]
    ensures IndexOf(s, x) == IndexOf(s[..n], x)
  {
    var k := IndexOf(s[..n], x);
    assert s[k] == x;
    assert forall j :: 0 <= j < k ==> s[j] == s[..n][j];
  }

  /** The keys of a comprehension are the generated keys, first occurrences
      kept, in the order they were first generated. */
  lemma {:induction false} FromItemsKeys<K(!new), V>(pairs: seq<(K, V)>)
    ensures FromItems(pairs).keys == FirstOccurrences(Firsts(pairs))
  {
    if pairs != [] {
      var n := |pairs| - 1;
      FromItemsKeys(pairs[..n]);
      assert Firsts(pairs)[..n] == Firsts(pairs[..n]);
    }
  }

  /** The value of a key is the one of the LAST pair that generated it. */
  lemma {:induction false} FromItemsLastWins<K(!new), V>(pairs: seq<(K, V)>, i: nat)
    requires i < |pairs|
    requires forall j :: i < j < |pairs| ==> pairs[j].0 != pairs[i].0
    ensures pairs[i].0 in FromItems(pairs).items
    ensures FromItems(pairs).items[pairs[i].0] == pairs[i].1
  {
    var n := |pairs| - 1;
    if i < n {
      FromItemsLastWins(pairs[..n], i);
    }
  }

  /** The index of the last pair with key `k`, or -1 when there is none. */
  function LastIndex<K(==), V>(pairs: seq<(K, V)>, k: K): (i: int)
    ensures -1 <= i < |pairs|
    ensures i >= 0 ==> pairs[i].0 == k
    ensures forall j :: i < j < |pairs| ==> pairs[j].0 != k
  {
    if pairs == [] then -1
    else if pairs[|pairs| - 1].0 == k then |pairs| - 1
    else LastIndex(pairs[..|pairs| - 1], k)
  }

  /** Every entry of a comprehension comes from the last pair that
      generated its key. */
  lemma FromItemsValueSource<K(!new), V>(pairs: seq<(K, V)>, k: K)
    requires k in FromItems(pairs).items
    ensures 0 <= LastIndex(pairs, k)
    ensures pairs[LastIndex(pairs, k)] == (k, FromItems(pairs).items[k])
  {
    var i := LastIndex(pairs, k);
    assert k in Firsts(pairs);
    var j :| 0 <= j < |pairs| && Firsts(pairs)[j] == k;
    assert pairs[j].0 == k;
    FromItemsLastWins(pairs, i);
  }

  /** When every value is a function of its key, the values of the
      comprehension are that function applied to the distinct keys in
      order of first generation. */
  lemma {:induction false} FromItemsValuesOfKeys<K(!new), V>(pairs: seq<(K, V)>, f: K -> V)
    requires forall i :: 0 <= i < |pairs| ==> pairs[i].1 == f(pairs[i].0)
    ensures var ks := FirstOccurrences(Firsts(pairs));
      Values(FromItems(pairs)) == seq(|ks|, i requires 0 <= i < |ks| => f(ks[i]))
  {
    FromItemsKeys(pairs);
    FromItemsValuesAreImages(pairs, f);
  }

  /** `{k: f(k) for k in ks}`: one entry per distinct key, in order of first
      occurrence, mapped to its image. */
  lemma FromItemsOfImages<K(!new), V>(ks: seq<K>, pairs: seq<(K, V)>, f: K -> V)
    requires |pairs| == |ks|
    requires forall i :: 0 <= i < |pairs| ==> pairs[i] == (ks[i], f(ks[i]))
    ensures FromItems(pairs).keys == FirstOccurrences(ks)
    ensures FromItems(pairs).items == (map k | k in ks :: f(k))
  {
    assert Firsts(pairs) == ks;
    FromItemsKeys(pairs);
    FromItemsValuesAreImages(pairs, f);
  }

  lemma {:induction false} FromItemsValuesAreImages<K(!new), V>(pairs: seq<(K, V)>, f: K -> V)
    requires forall i :: 0 <= i < |pairs| ==> pairs[i].1 == f(pairs[i].0)
    ensures forall k :: k in FromItems(pairs).items ==> FromItems(pairs).items[k] == f(k)
  {
    if pairs != [] {
      FromItemsValuesAreImages(pairs[..|pairs| - 1], f);
    }
  }
}
