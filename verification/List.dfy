/** List (util/collection/list.go): a sequence kept in a buffer that grows. */
module List {
  import OrderedMap

  type Value = OrderedMap.Value

  const NIL: Value := OrderedMap.Nil

  const COMFORT: nat := 10

  // ---------------------------------------------------------------- what the operations mean

  /** The least position of v, or -1. */
  function First(s: seq<Value>, v: Value): int {
    if s == [] then -1 else if s[0] == v then 0 else var k := First(s[1..], v); if k < 0 then -1 else k + 1
  }

  lemma {:induction false} FirstIs(s: seq<Value>, v: Value)
    ensures -1 <= First(s, v) < |s|
    ensures First(s, v) == -1 <==> v !in s
    ensures First(s, v) >= 0 ==> s[First(s, v)] == v && v !in s[..First(s, v)]
  {
    if s != [] && s[0] != v {
      FirstIs(s[1..], v);
      var k := First(s[1..], v);
      if k >= 0 { assert s[..k + 1] == [s[0]] + s[1..][..k]; }
    }
  }

  /** First is the only position a scan from the left can stop at. */
  lemma {:induction false} FirstAt(s: seq<Value>, v: Value, k: nat)
    requires k < |s| && s[k] == v && v !in s[..k]
    ensures First(s, v) == k
  {
    if k > 0 {
      assert s[..k] == [s[0]] + s[1..][..k - 1];
      FirstAt(s[1..], v, k - 1);
    }
  }

  function Without(s: seq<Value>, k: int): seq<Value> {
    if 0 <= k < |s| then s[..k] + s[k + 1..] else s
  }

  /** s with v at position k, filled up with nil as far as needed. */
  function With(s: seq<Value>, k: nat, v: Value): seq<Value> {
    (if k < |s| then s else s + Nils(k + 1 - |s|))[k := v]
  }

  function Nils(n: nat): (s: seq<Value>)
    ensures |s| == n && forall k :: 0 <= k < n ==> s[k] == NIL
  {
    seq(n, _ => NIL)
  }

  function Mirrored(s: seq<Value>): (r: seq<Value>)
    ensures |r| == |s| && forall k :: 0 <= k < |s| ==> r[k] == s[|s| - 1 - k]
  {
    seq(|s|, k requires 0 <= k < |s| => s[|s| - 1 - k])
  }

  /** The first and last i of `was` have changed places in s. */
  ghost predicate HalfMirrored(s: seq<Value>, was: seq<Value>, i: nat) {
    && |s| == |was|
    && forall k :: 0 <= k < |s| ==> s[k] == was[if i <= k < |s| - i then k else |s| - 1 - k]
  }

  lemma HalfStarts(was: seq<Value>)
    ensures HalfMirrored(was, was, 0)
  {
  }

  lemma HalfTurn(s: seq<Value>, was: seq<Value>, i: nat)
    requires i < |s| / 2 && HalfMirrored(s, was, i)
    ensures HalfMirrored(s[i := s[|s| - 1 - i]][|s| - 1 - i := s[i]], was, i + 1)
  {
  }

  lemma HalfIsAll(s: seq<Value>, was: seq<Value>)
    requires HalfMirrored(s, was, |s| / 2)
    ensures s == Mirrored(was)
  {
  }

  /** What a transaction may do to its clone. */
  datatype Op =
    | AppendOp(v: Value)
    | ExtendOp(vs: seq<Value>)
    | SetOp(i: nat, v: Value)
    | RemoveAtOp(k: int)
    | RemoveOp(v: Value)
    | ReverseOp
    | ClearOp

  function RunOp(s: seq<Value>, op: Op): seq<Value> {
    match op
    case AppendOp(v) => s + [v]
    case ExtendOp(vs) => s + vs
    case SetOp(i, v) => With(s, i, v)
    case RemoveAtOp(k) => Without(s, k)
    case RemoveOp(v) => Without(s, First(s, v))
    case ReverseOp => Mirrored(s)
    case ClearOp => []
  }

  function RunOps(s: seq<Value>, ops: seq<Op>): seq<Value> {
    if ops == [] then s else RunOp(RunOps(s, ops[..|ops| - 1]), ops[|ops| - 1])
  }

  // ---------------------------------------------------------------- the cost of growing

  /** The counters of a list, the number of elements growing has copied so far, and the length at the
      last growth. */
  datatype Growth = Growth(len: nat, cap: nat, ex: nat, copied: nat, base: nat)

  const EMPTY: Growth := Growth(0, COMFORT, COMFORT, 0, 0)

  /** expand (list.go:78-89) */
  function Expanded(g: Growth, length: nat): Growth {
    if g.len < length then
      var cap := length + g.ex;
      Growth(g.len, cap, if cap / 10 > g.ex then cap / 10 else g.ex, g.copied + g.len, g.len)
    else g
  }

  /** append (list.go:69-76) */
  function Appended(g: Growth): Growth {
    var h := if g.cap == g.len then Expanded(g, g.len + 1) else g;
    h.(len := h.len + 1)
  }

  function AppendedTimes(g: Growth, n: nat): Growth {
    if n == 0 then g else Appended(AppendedTimes(g, n - 1))
  }

  /** The buffer has grown by a tenth since it last grew, which pays for what was copied. */
  ghost predicate Frugal(g: Growth) {
    && g.len <= g.cap && g.ex >= g.cap / 10
    && g.copied <= 11 * g.base && g.base <= g.len && g.base <= 10 * (g.cap - g.base)
  }

  lemma AppendKeepsFrugal(g: Growth)
    requires Frugal(g)
    ensures Frugal(Appended(g)) && Appended(g).len == g.len + 1
  {
  }

  /** From an empty list, n appends copy at most 11n elements in total, although a single one may copy
      them all. */
  lemma {:induction false} AppendsCopyLittle(n: nat)
    ensures Frugal(AppendedTimes(EMPTY, n))
    ensures AppendedTimes(EMPTY, n).len == n && AppendedTimes(EMPTY, n).copied <= 11 * n
  {
    if n > 0 {
      AppendsCopyLittle(n - 1);
      AppendKeepsFrugal(AppendedTimes(EMPTY, n - 1));
    }
  }

  // ---------------------------------------------------------------- the list

  class List {
    var list: array<Value>
    var lenlist: nat
    var caplist: nat
    var exlen: nat
    ghost var copied: nat
    ghost var base: nat

    /** The slots past the end are nil, and exlen is at least a tenth of the capacity. */
    ghost predicate Valid()
      reads this, list
    {
      && caplist == list.Length && lenlist <= caplist && exlen >= caplist / 10
      && (forall k :: lenlist <= k < caplist ==> list[k] == NIL)
    }

    ghost function Contents(): seq<Value>
      reads this, list
      requires lenlist <= list.Length
    {
      list[..lenlist]
    }

    ghost function Counters(): Growth
      reads this
    {
      Growth(lenlist, caplist, exlen, copied, base)
    }

    /** NewList (list.go:23-34) */
    constructor (data: seq<Value>)
      ensures Valid() && Contents() == data && fresh(list)
      ensures data == [] ==> Counters() == EMPTY
    {
      list := new Value[COMFORT](_ => NIL);
      lenlist, caplist, exlen, copied, base := 0, COMFORT, COMFORT, 0, 0;
      new;
      Extend(data);
    }

    /** getvalue (list.go:36-45) */
    method Get(index: nat) returns (v: Value, ok: bool)
      requires Valid()
      ensures ok <==> index < |Contents()|
      ensures v == if ok then Contents()[index] else NIL
    {
      if lenlist > index {
        return list[index], true;
      }
      return NIL, false;
    }

    /** expand (list.go:78-89) */
    method Expand(length: nat)
      requires Valid()
      modifies this
      ensures Valid() && Contents() == old(Contents())
      ensures if old(lenlist) < length then fresh(list) else list == old(list)
      ensures Counters() == Expanded(old(Counters()), length)
    {
      if lenlist < length {
        caplist := length + exlen;
        if caplist / 10 > exlen {
          exlen := caplist / 10;
        }
        var tmplist := new Value[caplist](_ => NIL);
        forall k | 0 <= k < lenlist { tmplist[k] := list[k]; }
        copied, base := copied + lenlist, lenlist;
        list := tmplist;
      }
    }

    /** append (list.go:69-76) */
    method Append(value: Value)
      requires Valid()
      modifies this, list
      ensures Valid() && Contents() == old(Contents()) + [value] && (list == old(list) || fresh(list))
      ensures Counters() == Appended(old(Counters()))
    {
      if caplist == lenlist {
        Expand(lenlist + 1);
      }
      list[lenlist] := value;
      lenlist := lenlist + 1;
    }

    /** prepareSize (list.go:112-121).  What it takes for the room left is never positive, so it grows
        the buffer for any positive size, even if there is room. */
    method PrepareSize(size: nat) returns (finlen: nat)
      requires Valid() && size > 0
      modifies this
      ensures Valid() && Contents() == old(Contents()) && fresh(list)
      ensures finlen == lenlist + size <= caplist && Counters() == Expanded(old(Counters()), finlen)
    {
      var avalen := lenlist - caplist;
      finlen := lenlist + size;
      if avalen < size {
        Expand(finlen);
      }
    }

    /** extend (list.go:101-110) */
    method Extend(values: seq<Value>)
      requires Valid()
      modifies this, list
      ensures Valid() && Contents() == old(Contents()) + values && (list == old(list) || fresh(list))
      ensures values == [] ==> Counters() == old(Counters())
    {
      var vallen := |values|;
      if vallen > 0 {
        var finlen := PrepareSize(vallen);
        ghost var before := Contents();
        forall k | 0 <= k < vallen { list[lenlist + k] := values[k]; }
        lenlist := finlen;
        assert Contents() == before + values;
      }
    }

    /** ExtendArray (list.go:123-135), over what the array's iterator yields */
    method ExtendArray(arr: seq<Value>)
      requires Valid()
      modifies this, list
      ensures Valid() && Contents() == old(Contents()) + arr && (list == old(list) || fresh(list))
    {
      if |arr| > 0 {
        var _ := PrepareSize(|arr|);
        assert arr[..0] == [];
        for k := 0 to |arr|
          invariant Valid() && Contents() == old(Contents()) + arr[..k] && (list == old(list) || fresh(list))
        {
          assert arr[..k + 1] == arr[..k] + [arr[k]];
          Append(arr[k]);
        }
        assert arr[..|arr|] == arr;
      }
    }

    /** index (list.go:184-192).  It looks at the whole buffer, so it is right for every value but a
        nil that the list does not hold, which it finds just past the end if there is room. */
    method Index(value: Value) returns (r: int)
      requires Valid()
      ensures r ==
        if value == NIL && NIL !in Contents() && lenlist < caplist then lenlist else First(Contents(), value)
    {
      FirstIs(Contents(), value);
      assert lenlist < caplist ==> list[lenlist] == NIL;
      for i := 0 to list.Length
        invariant forall j :: 0 <= j < i ==> list[j] != value
      {
        if list[i] == value {
          assert i <= lenlist;
          if i < lenlist { FirstAt(Contents(), value, i); }
          return i;
        }
      }
      return -1;
    }

    /** LastIndex (list.go:171-182) */
    method LastIndex(value: Value) returns (r: int)
      requires Valid()
      ensures -1 <= r < lenlist && value !in Contents()[r + 1..]
      ensures r >= 0 ==> Contents()[r] == value
    {
      var i := lenlist - 1;
      while i >= 0
        invariant -1 <= i < lenlist && value !in Contents()[i + 1..]
      {
        if list[i] == value { return i; }
        assert Contents()[i..] == [Contents()[i]] + Contents()[i + 1..];
        i := i - 1;
      }
      return -1;
    }

    /** Contains (list.go:194-201): with the same exception as Index. */
    method Contains(values: seq<Value>) returns (r: bool)
      requires Valid()
      ensures r <==> forall v :: v in values ==> v in Contents() || (v == NIL && lenlist < caplist)
    {
      for i := 0 to |values|
        invariant forall v :: v in values[..i] ==> v in Contents() || (v == NIL && lenlist < caplist)
      {
        var k := Index(values[i]);
        FirstIs(Contents(), values[i]);
        if k == -1 { return false; }
      }
      return true;
    }

    /** set (list.go:210-219) */
    method Set(index: nat, value: Value)
      requires Valid()
      modifies this, list
      ensures Valid() && Contents() == With(old(Contents()), index, value) && (list == old(list) || fresh(list))
    {
      ghost var before := Contents();
      if index >= caplist {
        Expand(index + 1);
        lenlist := index + 1;
      } else if index >= lenlist {
        lenlist := index + 1;
      }
      assert index < |before| ==> Contents() == before;
      assert index >= |before| ==> Contents() == before + Nils(index + 1 - |before|);
      ghost var padded := Contents();
      list[index] := value;
      assert Contents() == padded[index := value];
    }

    /** removeat (list.go:259-271) */
    method RemoveAt(index: int) returns (val: Value)
      requires Valid()
      modifies this
      ensures Valid() && Contents() == Without(old(Contents()), index) && (list == old(list) || fresh(list))
      ensures val == if 0 <= index < |old(Contents())| then old(Contents())[index] else NIL
    {
      val := NIL;
      if index >= 0 && lenlist > index {
        val := list[index];
        ghost var was := Contents();
        var newlist := new Value[caplist](_ => NIL);
        forall k | 0 <= k < index { newlist[k] := list[k]; }
        if lenlist > index + 1 {
          forall k | index <= k < lenlist - 1 { newlist[k] := list[k + 1]; }
        }
        assert newlist[..lenlist - 1] == Without(was, index);
        list := newlist;
        lenlist := lenlist - 1;
      }
    }

    /** Remove (list.go:273-278).  Right for every value: a nil that Index finds past the end is not
        there to be removed. */
    method Remove(value: Value)
      requires Valid()
      modifies this
      ensures Valid() && Contents() == Without(old(Contents()), First(old(Contents()), value))
      ensures list == old(list) || fresh(list)
    {
      var k := Index(value);
      FirstIs(Contents(), value);
      var _ := RemoveAt(k);
    }

    /** clear (list.go:286-291) */
    method Clear()
      modifies this
      ensures Valid() && Contents() == [] && fresh(list)
      ensures Counters() == EMPTY
    {
      lenlist, caplist, exlen := 0, COMFORT, COMFORT;
      list := new Value[caplist](_ => NIL);
      copied, base := 0, 0;
    }

    /** clone (list.go:360-371) */
    method Clone() returns (l: List)
      requires Valid()
      ensures fresh(l) && fresh(l.list) && l.Valid() && l.Contents() == Contents()
      ensures l.lenlist == lenlist && l.caplist == caplist && l.exlen == exlen
    {
      l := new List([]);
      var clone := new Value[list.Length](_ => NIL);
      forall k | 0 <= k < lenlist { clone[k] := list[k]; }
      l.list, l.lenlist, l.caplist, l.exlen := clone, lenlist, caplist, exlen;
      assert l.Contents() == Contents();
    }

    /** What Transaction does once the function has agreed (list.go:388-396): the clone's contents are
        taken over.  What the old buffer held past the new end stays there, unless the
        capacity changed; the list is as it should be exactly if that is all nil. */
    method Commit(clone: List)
      requires Valid() && clone.Valid() && clone != this && clone.list != list
      modifies this, list
      ensures lenlist <= list.Length == caplist && Contents() == old(clone.Contents())
      ensures caplist == clone.caplist && lenlist == clone.lenlist && unchanged(clone) && unchanged(clone.list)
      ensures Valid() <==>
        (clone.caplist == old(caplist) ==> forall k :: clone.lenlist <= k < old(lenlist) ==> old(list[k]) == NIL)
    {
      ghost var before, was := list[..], lenlist;
      if clone.caplist != caplist {
        caplist := clone.caplist;
        list := new Value[clone.caplist](_ => NIL);
      }
      lenlist := clone.lenlist;
      exlen := clone.exlen;
      forall k | 0 <= k < clone.lenlist { list[k] := clone.list[k]; }
      assert forall k :: lenlist <= k < caplist ==> list[k] == if clone.caplist != |before| then NIL else before[k];
      assert forall k :: was <= k < |before| ==> before[k] == NIL;
    }

    /** Transaction (list.go:381-398): the function runs on a clone, and only if it agrees is the outcome
        taken over; otherwise nothing has changed.  A list that keeps its capacity is as it should be
        afterwards exactly if the slots it gives up were nil. */
    method Transaction(ops: seq<Op>, agree: bool)
      requires Valid()
      modifies this, list
      ensures lenlist <= list.Length == caplist
      ensures !agree ==> unchanged(this) && unchanged(list) && Valid()
      ensures agree ==> Contents() == RunOps(old(Contents()), ops)
      ensures agree ==>
        (Valid() <==> (caplist == old(caplist) ==> forall k :: lenlist <= k < old(lenlist) ==> old(list[k]) == NIL))
    {
      hide RunOps;
      var clone := Clone();
      clone.Perform(ops);
      if agree { Commit(clone); }
    }

    method Perform(ops: seq<Op>)
      requires Valid()
      modifies this, list
      ensures Valid() && Contents() == RunOps(old(Contents()), ops) && (list == old(list) || fresh(list))
    {
      hide RunOp, First, With, Without;
      for i := 0 to |ops|
        invariant Valid() && Contents() == RunOps(old(Contents()), ops[..i]) && (list == old(list) || fresh(list))
      {
        assert ops[..i + 1][..i] == ops[..i];
        Step(ops[i]);
      }
      assert ops[..|ops|] == ops;
    }

    method Step(op: Op)
      requires Valid()
      modifies this, list
      ensures Valid() && Contents() == RunOp(old(Contents()), op) && (list == old(list) || fresh(list))
    {
      hide First, With, Without;
      match op
      case AppendOp(v) => Append(v);
      case ExtendOp(vs) => Extend(vs);
      case SetOp(i, v) => Set(i, v);
      case RemoveAtOp(k) => var _ := RemoveAt(k);
      case RemoveOp(v) => Remove(v);
      case ReverseOp => Reverse();
      case ClearOp => Clear();
    }

    /** swap (list.go:299-301) */
    method Swap(x: nat, y: nat)
      requires Valid() && x < caplist && y < caplist
      modifies list
      ensures list[..] == old(list[..])[x := old(list[y])][y := old(list[x])]
      ensures x < lenlist && y < lenlist ==>
        Valid() && Contents() == old(Contents())[x := old(Contents()[y])][y := old(Contents()[x])]
    {
      list[x], list[y] := list[y], list[x];
    }

    /** Reverse (list.go:303-312) */
    method Reverse()
      requires Valid()
      modifies list
      ensures Valid() && Contents() == Mirrored(old(Contents()))
    {
      hide Mirrored, HalfMirrored;
      ghost var was := Contents();
      HalfStarts(was);
      var backindex := lenlist - 1;
      for i := 0 to lenlist / 2
        invariant Valid() && backindex == lenlist - 1 - i && HalfMirrored(Contents(), was, i)
      {
        HalfTurn(Contents(), was, i);
        Swap(i, backindex);
        backindex := backindex - 1;
      }
      HalfIsAll(Contents(), was);
    }
  }

  /** Appending a whole sequence to a new list copies at most eleven times its length. */
  method Collect(values: seq<Value>) returns (l: List)
    ensures fresh(l) && l.Valid() && l.Contents() == values && l.copied <= 11 * |values|
  {
    l := new List([]);
    for k := 0 to |values|
      invariant fresh(l) && fresh(l.list) && l.Valid() && l.Contents() == values[..k]
      invariant l.Counters() == AppendedTimes(EMPTY, k)
    {
      l.Append(values[k]);
    }
    AppendsCopyLittle(|values|);
  }
}
