/** Vocabulary shared by the whole model: options, duplicate-free enumerations, and sums. */
module Base {

  datatype Option<+T> = None | Some(value: T)

  /** The larger of two integers. */
  function Max(a: int, b: int): int { if a < b then b else a }

  /** No element occurs twice. */
  ghost predicate NoDup<T>(s: seq<T>) {
    forall i, j :: 0 <= i < j < |s| ==> s[i] != s[j]
  }

  /** The elements of a sequence, as a set. */
  function Elements<T>(s: seq<T>): set<T> {
    set x | x in s
  }

  /** `order` lists each element of `keys` exactly once: one possible outcome of ranging over a Go map. */
  ghost predicate Enumerates<T>(order: seq<T>, keys: set<T>) {
    NoDup(order) && Elements(order) == keys
  }

  /** `s` without the element at position `i`, the rest in the same order. */
  function Without<T>(s: seq<T>, i: nat): seq<T>
    requires i < |s|
  {
    s[..i] + s[i + 1..]
  }

  /** A duplicate-free sequence has as many positions as elements. */
  lemma {:induction false} NoDupSize<T>(s: seq<T>)
    ensures |Elements(s)| <= |s|
    ensures NoDup(s) ==> |Elements(s)| == |s|
  {
    if s != [] {
      var n := |s| - 1;
      NoDupSize(s[..n]);
      assert Elements(s) == Elements(s[..n]) + {s[n]};
    }
  }

  /** A subset has no more elements than the set that contains it. */
  lemma {:induction false} SubsetSize<T>(a: set<T>, b: set<T>)
    requires a <= b
    ensures |a| <= |b|
  {
    if a != {} {
      var x :| x in a;
      SubsetSize(a - {x}, b - {x});
    }
  }

  lemma NoDupSnoc<T>(s: seq<T>, x: T)
    requires NoDup(s) && x !in Elements(s)
    ensures NoDup(s + [x]) && Elements(s + [x]) == Elements(s) + {x}
  {
  }

  /** A range over a map in progress: `order` lists the keys visited so far, `values` what they map to. */
  ghost predicate Ranged<K, V>(m: map<K, V>, todo: set<K>, order: seq<K>, values: seq<V>) {
    && todo <= m.Keys && Enumerates(order, m.Keys - todo) && |values| == |order|
    && forall i :: 0 <= i < |order| ==> order[i] in m && values[i] == m[order[i]]
  }

  lemma RangedNext<K, V>(m: map<K, V>, todo: set<K>, order: seq<K>, values: seq<V>, k: K)
    requires Ranged(m, todo, order, values) && k in todo
    ensures Ranged(m, todo - {k}, order + [k], values + [m[k]])
  {
    NoDupSnoc(order, k);
  }

  /** At the end every key has been visited once, so the values are all values of the map. */
  lemma RangedAll<K, V>(m: map<K, V>, order: seq<K>, values: seq<V>)
    requires Ranged(m, {}, order, values)
    ensures Enumerates(order, m.Keys) && |values| == |m| && forall k :: k in m ==> m[k] in values
  {
    NoDupSize(order);
    assert |m| == |m.Keys|;
    forall k | k in m ensures m[k] in values {
      assert k in Elements(order);
      var i :| 0 <= i < |order| && order[i] == k;
      assert values[i] == m[k];
    }
  }

  /** Sum of a sequence of integers. */
  function Sum(s: seq<int>): int {
    if s == [] then 0 else Sum(s[..|s| - 1]) + s[|s| - 1]
  }

  /** Sum of a sequence of reals. */
  function SumR(s: seq<real>): real {
    if s == [] then 0.0 else SumR(s[..|s| - 1]) + s[|s| - 1]
  }

  lemma SumSnoc(s: seq<int>, x: int)
    ensures Sum(s + [x]) == Sum(s) + x
  {
    assert (s + [x])[..|s|] == s;
  }

  lemma SumRSnoc(s: seq<real>, x: real)
    ensures SumR(s + [x]) == SumR(s) + x
  {
    assert (s + [x])[..|s|] == s;
  }

  /** Replacing one summand changes the sum by the difference. */
  lemma {:induction false} SumUpdate(s: seq<int>, i: nat, x: int)
    requires i < |s|
    ensures Sum(s[i := x]) == Sum(s) - s[i] + x
  {
    var n := |s| - 1;
    if i == n {
      assert s[i := x][..n] == s[..n];
    } else {
      assert s[i := x][..n] == s[..n][i := x];
      SumUpdate(s[..n], i, x);
    }
  }

  /** A sum over a concatenation splits. */
  lemma {:induction false} SumRConcat(a: seq<real>, b: seq<real>)
    ensures SumR(a + b) == SumR(a) + SumR(b)
  {
    if b == [] {
      assert a + b == a;
    } else {
      var n := |b| - 1;
      assert a + b == (a + b[..n]) + [b[n]];
      SumRSnoc(a + b[..n], b[n]);
      SumRConcat(a, b[..n]);
    }
  }
}
