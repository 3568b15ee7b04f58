/** Insertion-ordered maps: what an OrderedDict stands for. */
module OrderedMap {
  import opened Text

  /** An interface{} value: nil, or something compared by identity. */
  datatype Value = Nil | Obj(id: nat)

  datatype Pair = Pair(key: Value, value: Value)

  type Pairs = seq<Pair>

  ghost predicate Distinct(s: Pairs) {
    forall i, j :: 0 <= i < j < |s| ==> s[i].key != s[j].key
  }

  function Keys(s: Pairs): (r: seq<Value>)
    ensures |r| == |s| && forall i :: 0 <= i < |s| ==> r[i] == s[i].key
  {
    seq(|s|, i requires 0 <= i < |s| => s[i].key)
  }

  function Values(s: Pairs): (r: seq<Value>)
    ensures |r| == |s| && forall i :: 0 <= i < |s| ==> r[i] == s[i].value
  {
    seq(|s|, i requires 0 <= i < |s| => s[i].value)
  }

  /** Where k stands, or the end. */
  function Find(s: Pairs, k: Value): (i: nat)
    ensures i <= |s| && (i < |s| ==> s[i].key == k)
    ensures forall j :: 0 <= j < i ==> s[j].key != k
  {
    if s == [] || s[0].key == k then 0 else 1 + Find(s[1..], k)
  }

  function Lookup(s: Pairs, k: Value): Option<Value> {
    if Find(s, k) < |s| then Some(s[Find(s, k)].value) else None
  }

  function Put(s: Pairs, k: Value, v: Value): Pairs {
    if Find(s, k) < |s| then s[Find(s, k) := Pair(k, v)] else s + [Pair(k, v)]
  }

  function PutDefault(s: Pairs, k: Value, v: Value): Pairs {
    if Find(s, k) < |s| then s else s + [Pair(k, v)]
  }

  function Drop(s: Pairs, k: Value): Pairs {
    if Find(s, k) < |s| then s[..Find(s, k)] + s[Find(s, k) + 1..] else s
  }

  function Init(s: Pairs): Pairs {
    if s == [] then s else s[..|s| - 1]
  }

  function Reversed(s: Pairs): (r: Pairs)
    ensures |r| == |s| && forall i :: 0 <= i < |s| ==> r[i] == s[|s| - 1 - i]
  {
    seq(|s|, i requires 0 <= i < |s| => s[|s| - 1 - i])
  }

  lemma FindIs(s: Pairs, i: nat)
    requires Distinct(s) && i < |s|
    ensures Find(s, s[i].key) == i
  {
    var j := Find(s, s[i].key);
    assert !(j < i) && !(i < j);
  }

  lemma {:induction false} FindAppend(s: Pairs, k: Value, v: Value, q: Value)
    ensures Find(s + [Pair(k, v)], q) == if Find(s, q) < |s| then Find(s, q) else if q == k then |s| else |s| + 1
  {
    if s != [] {
      assert (s + [Pair(k, v)])[1..] == s[1..] + [Pair(k, v)];
      FindAppend(s[1..], k, v, q);
    }
  }

  /** Find is right as soon as the pair is. */
  lemma Found(s: Pairs, i: nat, k: Value)
    requires i < |s| && s[i].key == k
    ensures Find(s, k) <= i
  {
  }

  lemma DistinctWithout(s: Pairs, i: nat)
    requires Distinct(s) && i < |s|
    ensures Distinct(s[..i] + s[i + 1..])
  {
    var t := s[..i] + s[i + 1..];
    assert forall j :: 0 <= j < |t| ==> t[j] == s[if j < i then j else j + 1];
  }

  /** Put and the keys: a known key keeps its place, a new one goes last. */
  lemma PutKeys(s: Pairs, k: Value, v: Value)
    requires Distinct(s)
    ensures Distinct(Put(s, k, v))
    ensures Keys(Put(s, k, v)) == if k in Keys(s) then Keys(s) else Keys(s) + [k]
  {
    var i := Find(s, k);
    if i < |s| { assert Keys(s)[i] == k; }
    else { assert forall j :: 0 <= j < |s| ==> Keys(s)[j] == s[j].key; }
  }

  /** Put and Lookup. */
  lemma PutLookup(s: Pairs, k: Value, v: Value, q: Value)
    requires Distinct(s)
    ensures Lookup(Put(s, k, v), q) == if q == k then Some(v) else Lookup(s, q)
  {
    PutKeys(s, k, v);
    var t := Put(s, k, v);
    var i := if q == k then Find(s, k) else Find(s, q);
    if q == k {
      assert t[i].key == k;
      FindIs(t, i);
    } else if i < |s| {
      assert t[i] == s[i];
      FindIs(t, i);
    } else {
      assert forall j :: 0 <= j < |t| ==> t[j].key == (if j < |s| then s[j].key else k) && t[j].key != q;
    }
  }

  /** Drop removes k and nothing else. */
  lemma DropLookup(s: Pairs, k: Value, q: Value)
    requires Distinct(s)
    ensures Distinct(Drop(s, k))
    ensures Lookup(Drop(s, k), q) == if q == k then None else Lookup(s, q)
  {
    var i, t := Find(s, k), Drop(s, k);
    if i < |s| {
      assert forall j :: 0 <= j < |t| ==> t[j] == s[if j < i then j else j + 1];
      var j := Find(s, q);
      if q != k && j < |s| {
        var m := if j < i then j else j - 1;
        assert t[m] == s[j];
        FindIs(t, m);
      } else {
        assert forall m :: 0 <= m < |t| ==> t[m].key != q;
      }
    }
  }

  /** A put of a new key is undone by taking the last pair off. */
  lemma InitPut(s: Pairs, k: Value, v: Value)
    requires Lookup(s, k).None?
    ensures Init(Put(s, k, v)) == s
  {
  }

  /** Reversal keeps every value under its key. */
  lemma ReversedLookup(s: Pairs, q: Value)
    requires Distinct(s)
    ensures Distinct(Reversed(s)) && Lookup(Reversed(s), q) == Lookup(s, q)
  {
    var r, i := Reversed(s), Find(s, q);
    if i < |s| {
      assert r[|s| - 1 - i] == s[i];
      FindIs(r, |s| - 1 - i);
    } else {
      assert forall j :: 0 <= j < |r| ==> r[j] == s[|s| - 1 - j] && r[j].key != q;
    }
  }

  // ---------------------------------------------------------------- sorting

  function Swap<T>(s: seq<T>, i: nat, j: nat): seq<T>
    requires i < |s| && j < |s|
  {
    s[i := s[j]][j := s[i]]
  }

  predicate InRange(swaps: seq<(nat, nat)>, n: nat) {
    forall k :: 0 <= k < |swaps| ==> swaps[k].0 < n && swaps[k].1 < n
  }

  /** No value comes after one it is less than. */
  predicate Ordered(s: seq<Value>, less: (Value, Value) -> bool) {
    forall i, j :: 0 <= i < j < |s| ==> !less(s[j], s[i])
  }

  /** The Swap calls sort.Sort makes, in order. */
  function Swapped<T>(s: seq<T>, swaps: seq<(nat, nat)>): (r: seq<T>)
    requires InRange(swaps, |s|)
    ensures |r| == |s|
  {
    if swaps == [] then s
    else
      var n := |swaps| - 1;
      Swap(Swapped(s, swaps[..n]), swaps[n].0, swaps[n].1)
  }

  lemma SwapMultiset<T>(s: seq<T>, i: nat, j: nat)
    requires i < |s| && j < |s|
    ensures multiset(Swap(s, i, j)) == multiset(s)
  {
  }

  lemma SwapKeeps(t: Pairs, i: nat, j: nat, q: Value)
    requires Distinct(t) && i < |t| && j < |t|
    ensures Distinct(Swap(t, i, j)) && Lookup(Swap(t, i, j), q) == Lookup(t, q)
  {
    var u, f := Swap(t, i, j), Find(t, q);
    assert forall m :: 0 <= m < |u| ==> u[m] == t[if m == i then j else if m == j then i else m];
    if f < |t| {
      var g := if f == i then j else if f == j then i else f;
      assert u[g] == t[f];
      FindIs(u, g);
    } else {
      assert forall m :: 0 <= m < |t| ==> t[m].key != q;
    }
  }

  /** Sorting only reorders, keeps the keys distinct, and keeps every value under its key. */
  lemma {:induction false} SwappedKeeps(s: Pairs, swaps: seq<(nat, nat)>, q: Value)
    requires Distinct(s) && InRange(swaps, |s|)
    ensures multiset(Swapped(s, swaps)) == multiset(s)
    ensures Distinct(Swapped(s, swaps)) && Lookup(Swapped(s, swaps), q) == Lookup(s, q)
  {
    if swaps != [] {
      var n := |swaps| - 1;
      var t := Swapped(s, swaps[..n]);
      SwappedKeeps(s, swaps[..n], q);
      hide Distinct, Lookup;
      SwapMultiset(t, swaps[n].0, swaps[n].1);
      SwapKeeps(t, swaps[n].0, swaps[n].1, q);
    }
  }

  /** Swapping keys and values side by side is swapping the pairs. */
  lemma {:induction false} SwappedSides(s: Pairs, swaps: seq<(nat, nat)>)
    requires InRange(swaps, |s|)
    ensures Keys(Swapped(s, swaps)) == Swapped(Keys(s), swaps)
    ensures Values(Swapped(s, swaps)) == Swapped(Values(s), swaps)
  {
    if swaps != [] { SwappedSides(s, swaps[..|swaps| - 1]); }
  }
}
