/** OrderedDict (util/collection/ordereddictionary.go): a singly linked chain behind a sentinel, and an
    index from each key to the node before its own. */
module OrderedDict {
  import opened Text
  import opened OrderedMap

  /** Operations that keep a dict valid. */
  datatype Op =
    | SetOp(k: Value, v: Value)
    | DefaultOp(k: Value, v: Value)
    | PopOp
    | ClearOp
    | SortOp(swaps: seq<(nat, nat)>)
    | SortByKeyOp(swaps: seq<(nat, nat)>)

  /** The pairs, and whether the tail of an empty dict is the sentinel. */
  datatype State = State(s: Pairs, stale: bool)

  /** None is a panic. */
  function RunOp(st: State, op: Op): Option<State> {
    match op
    case SetOp(k, v) => Some(State(Put(st.s, k, v), false))
    case DefaultOp(k, v) => Some(State(PutDefault(st.s, k, v), false))
    case ClearOp => Some(State([], false))
    case PopOp => if st.stale then None else Some(State(Init(st.s), false))
    case SortOp(swaps) => RunSwaps(st, swaps)
    case SortByKeyOp(swaps) => RunSwaps(st, swaps)
  }

  function RunSwaps(st: State, swaps: seq<(nat, nat)>): Option<State> {
    if InRange(swaps, |st.s|) then Some(State(Swapped(st.s, swaps), st.s == [])) else None
  }

  function RunOps(st: State, ops: seq<Op>): Option<State> {
    if ops == [] then Some(st)
    else
      var before := RunOps(st, ops[..|ops| - 1]);
      if before.None? then None else RunOp(before.value, ops[|ops| - 1])
  }

  lemma {:induction false} RunOpsStops(st: State, ops: seq<Op>, i: nat)
    requires i <= |ops| && RunOps(st, ops[..i]).None?
    ensures RunOps(st, ops).None?
    decreases |ops| - i
  {
    if i < |ops| {
      assert ops[..i + 1][..i] == ops[..i];
      RunOpsStops(st, ops, i + 1);
    } else {
      assert ops[..i] == ops;
    }
  }

  lemma PutSome(s: Pairs, k: Value, v: Value)
    ensures Put(s, k, v) != [] && PutDefault(s, k, v) != []
  {
  }

  class Node {
    var next: Node?
    var key: Value
    var value: Value

    constructor (key: Value, value: Value)
      ensures next == null && this.key == key && this.value == value
    {
      next, this.key, this.value := null, key, value;
    }

    constructor Sentinel()
      ensures next == null && key == Nil && value == Nil
    {
      next := null;
      key, value := Nil, Nil;
    }
  }

  class OrderedDict {
    var prevchain: map<Value, Node>
    var headchain: Node
    var tailchain: Node?

    /** The sentinel and the live nodes in order, and the pairs they hold. */
    ghost var chain: seq<Node>
    ghost var contents: Pairs

    /** All nodes ever linked. */
    ghost var repr: set<Node>

    /** The index agrees with a count-bounded walk from the sentinel.  All readers need only this. */
    ghost predicate Walkable()
      reads this, repr
    {
      Links(repr, contents, chain) && chain[0] == headchain && Indexes(prevchain, contents, chain)
    }

    /** The chain ends where the tail pointer says, and nothing hangs on it.  An empty dict has no
        tail, or (after Clone or Sort of an empty one) the sentinel. */
    ghost predicate Valid()
      reads this, repr
    {
      && Walkable()
      && chain[|contents|].next == null
      && (tailchain == chain[|contents|] || (contents == [] && tailchain == null))
    }

    ghost predicate StaleTail()
      reads this
    {
      contents == [] && tailchain == headchain
    }

    constructor ()
      ensures Valid() && contents == [] && fresh(repr) && tailchain == null
    {
      var head := new Node.Sentinel();
      prevchain, headchain, tailchain := map[], head, null;
      chain, contents, repr := [head], [], {head};
    }

    /** getvalue (ordereddictionary.go:49-59) */
    method Get(key: Value) returns (r: Option<Value>)
      requires Walkable()
      ensures r == Lookup(contents, key)
    {
      KeyIndex(key);
      if key in prevchain { r := Some(prevchain[key].next.value); } else { r := None; }
    }

    lemma KeyIndex(key: Value)
      requires Walkable()
      ensures var i := Find(contents, key);
        && (key in prevchain <==> i < |contents|)
        && (i < |contents| ==> contents[i].key == key && prevchain[key] == chain[i] && chain[i].next == chain[i + 1])
    {
      var i := Find(contents, key);
      assert i < |contents| ==> contents[i].key == key;
    }

    /** Pairs (ordereddictionary.go:173-187) */
    method Pairs() returns (pairs: Pairs)
      requires Walkable()
      ensures pairs == contents
    {
      pairs := [];
      var seek := headchain.next;
      for i := 0 to |prevchain|
        invariant |pairs| == i && forall j :: 0 <= j < i ==> pairs[j] == contents[j]
        invariant i < |prevchain| ==> seek == chain[i + 1]
      {
        assert contents[i] == Pair(seek.key, seek.value);
        pairs := pairs + [Pair(seek.key, seek.value)];
        seek := seek.next;
      }
    }

    /** keysValues (ordereddictionary.go:158-171); keys() and values() walk the same way. */
    method KeysValues() returns (keys: seq<Value>, values: seq<Value>)
      requires Walkable()
      ensures keys == OrderedMap.Keys(contents) && values == OrderedMap.Values(contents)
    {
      keys, values := [], [];
      var seek := headchain.next;
      for i := 0 to |prevchain|
        invariant |keys| == |values| == i && forall j :: 0 <= j < i ==> contents[j] == Pair(keys[j], values[j])
        invariant i < |prevchain| ==> seek == chain[i + 1]
      {
        assert contents[i] == Pair(seek.key, seek.value);
        keys, values := keys + [seek.key], values + [seek.value];
        seek := seek.next;
      }
    }

    /** appendItem (ordereddictionary.go:83-101) */
    method AppendItem(key: Value, value: Value)
      requires Valid() && key !in prevchain
      modifies this, repr
      ensures Valid() && !StaleTail() && contents == old(contents) + [Pair(key, value)]
      ensures repr >= old(repr) && fresh(repr - old(repr))
      ensures headchain == old(headchain)
    {
      hide Indexes, Links, Walkable, Valid;
      Parts();
      ghost var s, c := contents, chain;
      InRepr(|contents|);
      var dchain := new Node(key, value);
      var prev;
      if tailchain == null {
        tailchain := dchain;
        headchain.next := dchain;
        prev := headchain;
      } else {
        tailchain.next := dchain;
        prev := tailchain;
        tailchain := dchain;
      }
      prevchain := prevchain[key := prev];
      chain, contents, repr := c + [dchain], s + [Pair(key, value)], repr + {dchain};
      IndexesAppend(old(prevchain), s, c, key, value, dchain);
      LinksAppend(old(repr), s, c, dchain);
      Assemble();
    }

    lemma InRepr(i: nat)
      requires Links(repr, contents, chain) && i < |chain|
      ensures chain[i] in repr
    {
    }

    /** set (ordereddictionary.go:75-81) */
    method Set(key: Value, value: Value)
      requires Valid()
      modifies this, repr
      ensures Valid() && contents == Put(old(contents), key, value) && headchain == old(headchain)
      ensures repr >= old(repr) && fresh(repr - old(repr))
    {
      hide Indexes, Links, Walkable, Valid;
      Parts();
      KeyIndex(key);
      if key in prevchain {
        ghost var i := Find(contents, key);
        InRepr(i + 1);
        prevchain[key].next.value := value;
        contents := contents[i := Pair(key, value)];
        IndexesPut(prevchain, old(contents), chain, i, value);
        LinksPut(repr, old(contents), chain, i);
        Assemble();
      } else {
        AppendItem(key, value);
      }
    }

    /** SetDefault (ordereddictionary.go:103-110) */
    method SetDefault(key: Value, value: Value)
      requires Valid()
      modifies this, repr
      ensures Valid() && contents == PutDefault(old(contents), key, value) && headchain == old(headchain)
      ensures repr >= old(repr) && fresh(repr - old(repr))
    {
      KeyIndex(key);
      if key !in prevchain { AppendItem(key, value); }
    }

    /** Pop (ordereddictionary.go:289-306).  With a stale tail it looks up the sentinel's key, finds
        nothing and dereferences nil. */
    method Pop() returns (panic: bool, popped: Option<Pair>)
      requires Valid()
      modifies this, repr
      ensures panic <==> old(StaleTail())
      ensures Valid() && contents == Init(old(contents)) && headchain == old(headchain)
      ensures panic ==> unchanged(this)
      ensures !panic ==> !StaleTail()
      ensures !panic ==> popped == if old(contents) == [] then None else Some(old(contents)[|old(contents)| - 1])
      ensures repr == old(repr)
    {
      panic, popped := false, None;
      if tailchain != null {
        LastIndex();
        var key, value := tailchain.key, tailchain.value;
        if key in prevchain {
          popped := Some(Pair(key, value));
          Unlink(key);
        } else {
          panic := true;
        }
      }
    }

    /** The part of Pop that rewires the last two nodes. */
    method Unlink(key: Value)
      requires Valid() && contents != [] && contents[|contents| - 1].key == key
      modifies this, repr
      ensures Valid() && contents == Init(old(contents)) && headchain == old(headchain)
      ensures repr == old(repr)
      ensures !StaleTail()
    {
      hide Indexes, Links, Find, Valid, Walkable;
      Parts();
      LastIndex();
      ghost var s, c, n := contents, chain, |contents|;
      InRepr(n - 1);
      var prev := prevchain[key];
      prev.next := null;
      prevchain := prevchain - {key};
      if prev != headchain { tailchain := prev; } else { tailchain := null; }
      contents, chain := s[..n - 1], c[..n];
      IndexesInit(old(prevchain), s, c);
      LinksInit(repr, s, c);
      Assemble();
    }

    lemma Parts()
      requires Valid()
      ensures |chain| == |contents| + 1 && chain[0] == headchain && |prevchain| == |contents|
      ensures Links(repr, contents, chain) && Indexes(prevchain, contents, chain) && Walkable()
      ensures chain[|contents|].next == null
      ensures tailchain == chain[|contents|] || (contents == [] && tailchain == null)
    {
    }

    lemma AssembleNew()
      requires Links(repr, contents, chain) && Indexes(prevchain, contents, chain) && |chain| == |contents| + 1
      requires chain[0] == headchain && tailchain == chain[|contents|] && tailchain.next == null
      ensures Valid()
    {
    }

    lemma Assemble()
      requires |chain| == |contents| + 1 && chain[0] == headchain
      requires Links(repr, contents, chain) && Indexes(prevchain, contents, chain)
      ensures Walkable()
      ensures chain[|contents|].next != null ==> !Valid()
      ensures
        && chain[|contents|].next == null
        && (tailchain == chain[|contents|] || (contents == [] && tailchain == null))
        ==> Valid()
      ensures contents != [] && tailchain == null ==> !Valid()
    {
    }

    lemma LastIndex()
      requires Valid() && tailchain != null
      ensures contents != [] ==> var n := |contents|;
        tailchain == chain[n] && Pair(tailchain.key, tailchain.value) == contents[n - 1] && tailchain.key in prevchain
        && prevchain[tailchain.key] == chain[n - 1] && (chain[n - 1] == headchain <==> n == 1)
      ensures contents == [] ==> StaleTail() && prevchain == map[]
    {
      var n := |contents|;
      if n > 0 { assert contents[n - 1] == Pair(chain[n].key, chain[n].value); }
    }

    /** Clear (ordereddictionary.go:428-434) */
    method Clear()
      requires Walkable()
      modifies this, repr
      ensures Valid() && contents == [] && tailchain == null && headchain == old(headchain) && repr == old(repr)
    {
      prevchain := map[];
      headchain.next := null;
      tailchain := null;
      chain, contents := [headchain], [];
    }

    /** removeAt (ordereddictionary.go:264-277).  The dict stays valid except when the key is the last
        one: then the tail pointer is lost and the removed node stays on the chain, though a
        count-bounded walk no longer reaches it. */
    method RemoveAt(key: Value) returns (value: Option<Value>)
      requires Valid()
      modifies this, repr
      ensures value == Lookup(old(contents), key)
      ensures Walkable() && contents == Drop(old(contents), key) && repr == old(repr)
      ensures Valid() <==> !(old(contents) != [] && old(contents)[|old(contents)| - 1].key == key)
    {
      value := None;
      KeyIndex(key);
      if key in prevchain {
        value := Cut(key);
      } else {
        assert contents != [] ==> contents[|contents| - 1].key in prevchain;
      }
    }

    /** The part of removeAt that rewires the chain. */
    method Cut(key: Value) returns (value: Option<Value>)
      requires Valid() && key in prevchain
      modifies this, repr
      ensures value == Lookup(old(contents), key)
      ensures Walkable() && contents == Drop(old(contents), key) && repr == old(repr)
      ensures Valid() <==> old(contents)[|old(contents)| - 1].key != key
    {
      hide Indexes, Links, Find, Drop, Lookup, Walkable, Valid;
      Parts();
      KeyIndex(key);
      ghost var s, c, i := contents, chain, Find(contents, key);
      InRepr(i);
      KeyNodes(i);
      var prev := prevchain[key];
      prevchain := prevchain - {key};
      value := Some(prev.next.value);
      if prev.next.next == null {
        tailchain := null;
      } else {
        prevchain := prevchain[prev.next.next.key := prev];
        prev.next := prev.next.next;
      }
      contents, chain := s[..i] + s[i + 1..], c[..i + 1] + c[i + 2..];
      IndexesDrop(old(prevchain), s, c, i);
      LinksDrop(repr, s, c, i);
      assert prevchain == Reindexed(old(prevchain), s, c, i);
      EndOfDrop(s, c, i);
      Assemble();
    }

    /** Around the node of key i. */
    lemma KeyNodes(i: nat)
      requires Valid() && i < |contents|
      ensures var s, c := contents, chain;
        && |c| == |s| + 1 && c[0] == headchain
        && Lookup(s, s[i].key) == Some(s[i].value) && Drop(s, s[i].key) == s[..i] + s[i + 1..]
        && prevchain[s[i].key] == c[i] && c[i].next == c[i + 1] && c[i + 1].value == s[i].value
        && (c[i + 1].next == null <==> i + 1 == |s|)
        && (i + 1 < |s| ==>
              && c[i + 1].next == c[i + 2] && c[i + 2].key == s[i + 1].key
              && tailchain == c[|s|] && c[|s|].next == null && c[i] != c[|s|])
        && (i + 1 < |s| ==> s[|s| - 1].key != s[i].key)
    {
      FindIs(contents, i);
      assert contents[i] == contents[i] && (i + 1 < |contents| ==> contents[i + 1] == contents[i + 1]);
    }

    /** Update (ordereddictionary.go:308-314): the map is visited in some order. */
    method Update(m: map<Value, Value>)
      requires Valid()
      modifies this, repr
      ensures Valid() && repr >= old(repr) && fresh(repr - old(repr))
      ensures Distinct(contents) && Keys(old(contents)) <= Keys(contents)
      ensures forall k :: Lookup(contents, k) == if k in m then Some(m[k]) else Lookup(old(contents), k)
    {
      hide Indexes, Links, Walkable, Valid, Lookup, Put, Distinct;
      AreDistinct();
      var left := m.Keys;
      while left != {}
        invariant Valid() && repr >= old(repr) && fresh(repr - old(repr)) && left <= m.Keys && Distinct(contents)
        invariant Keys(old(contents)) <= Keys(contents)
        invariant forall k ::
          Lookup(contents, k) == if k in m && k !in left then Some(m[k]) else Lookup(old(contents), k)
        decreases left
      {
        var k :| k in left;
        left := left - {k};
        ghost var s := contents;
        Set(k, m[k]);
        PutKeys(s, k, m[k]);
        forall q ensures Lookup(contents, q) == if q == k then Some(m[k]) else Lookup(s, q) {
          PutLookup(s, k, m[k], q);
        }
      }
    }

    lemma AreDistinct()
      requires Valid()
      ensures Distinct(contents)
    {
    }

    /** The operations f performs on the clone it is given, in order; false if one of them panics. */
    method Perform(ops: seq<Op>) returns (ok: bool)
      requires Valid()
      modifies this, repr
      ensures Valid() && fresh(repr - old(repr))
      ensures ok <==> RunOps(State(old(contents), old(StaleTail())), ops).Some?
      ensures ok ==> RunOps(State(old(contents), old(StaleTail())), ops) == Some(State(contents, StaleTail()))
    {
      hide Links, Indexes, Walkable, Valid, RunOp, Find;
      ghost var st := State(contents, StaleTail());
      for i := 0 to |ops|
        invariant Valid() && fresh(repr - old(repr))
        invariant RunOps(st, ops[..i]) == Some(State(contents, StaleTail()))
      {
        assert ops[..i + 1][..i] == ops[..i];
        var panic := Step(ops[i]);
        if panic {
          RunOpsStops(st, ops, i + 1);
          return false;
        }
      }
      assert ops[..|ops|] == ops;
      return true;
    }

    method Step(op: Op) returns (panic: bool)
      requires Valid()
      modifies this, repr
      ensures Valid() && fresh(repr - old(repr))
      ensures panic <==> RunOp(State(old(contents), old(StaleTail())), op).None?
      ensures !panic ==> RunOp(State(old(contents), old(StaleTail())), op) == Some(State(contents, StaleTail()))
    {
      hide Links, Indexes, Find, Walkable, Swapped;
      panic := false;
      match op
      case SetOp(k, v) => Set(k, v); PutSome(old(contents), k, v);
      case DefaultOp(k, v) => SetDefault(k, v); PutSome(old(contents), k, v);
      case ClearOp => Clear();
      case PopOp =>
        var popped;
        panic, popped := Pop();
      case SortOp(swaps) =>
        panic := !InRange(swaps, Len());
        if !panic { Sort(swaps, (_, _) => false); }
      case SortByKeyOp(swaps) =>
        panic := !InRange(swaps, Len());
        if !panic { SortByKey(swaps, (_, _) => false); }
    }

    /** Len (ordereddictionary.go:43-47) */
    function Len(): (n: nat)
      reads this, repr
      requires Valid()
      ensures n == |contents|
    {
      |prevchain|
    }

    /** Transaction (ordereddictionary.go:436-447): f works on a clone, and only if it returns true does
        the dict take the clone's chain over.  Otherwise, or if f panics, nothing has changed: the
        clone shares no node with the dict. */
    method Transaction(ops: seq<Op>, commit: bool) returns (done: bool)
      requires Valid()
      modifies this
      ensures Valid()
      ensures done <==> commit && RunOps(State(old(contents), old(contents) == []), ops).Some?
      ensures done ==> RunOps(State(old(contents), old(contents) == []), ops) == Some(State(contents, StaleTail()))
      ensures !done ==> unchanged(this)
    {
      hide Links, Indexes, Walkable, Valid;
      var clone := Clone();
      var ok := clone.Perform(ops);
      done := ok && commit;
      if done { Adopt(clone); }
    }

    /** Clone (ordereddictionary.go:364-393).  A clone of an empty dict has the sentinel for its tail. */
    method Clone() returns (d: OrderedDict)
      requires Valid()
      ensures fresh(d) && fresh(d.repr) && d.Valid() && d.contents == contents
      ensures d.StaleTail() <==> contents == []
    {
      var pairs := Pairs();
      d := new OrderedDict.Of(pairs);
    }

    /** The loop that clone, Sort and SortByKey share: a new chain for these pairs, with the last node,
        or else the sentinel, for tail. */
    constructor Of(pairs: Pairs)
      requires Distinct(pairs)
      ensures Valid() && fresh(repr) && contents == pairs && (StaleTail() <==> pairs == [])
    {
      var m, head, tail;
      ghost var c, r;
      m, head, tail, c, r := Rebuild(pairs);
      prevchain, headchain, tailchain, chain, contents, repr := m, head, tail, c, pairs, r;
    }

    /** Takes over the chain of a clone (ordereddictionary.go:442-446). */
    method Adopt(d: OrderedDict)
      requires d.Valid()
      modifies this
      ensures Valid() && contents == d.contents && repr == d.repr
      ensures StaleTail() <==> d.StaleTail()
    {
      hide Links, Indexes, Valid, Walkable;
      d.Parts();
      prevchain, headchain, tailchain := d.prevchain, d.headchain, d.tailchain;
      chain, contents, repr := d.chain, d.contents, d.repr;
      Assemble();
    }

    /** Sort (ordereddictionary.go:514-548).  sort.Sort reaches the data only through Swap, which moves
        a key and its value together; `swaps` are the calls it makes.  If they put the values in order,
        the dict has them in order. */
    method Sort(swaps: seq<(nat, nat)>, ghost less: (Value, Value) -> bool)
      requires Valid() && InRange(swaps, |contents|)
      modifies this
      ensures Valid() && contents == Swapped(old(contents), swaps) && fresh(repr)
      ensures StaleTail() <==> contents == []
      ensures Ordered(Swapped(OrderedMap.Values(old(contents)), swaps), less) ==>
        Ordered(OrderedMap.Values(contents), less)
    {
      hide Links, Indexes, Walkable, Find;
      AreDistinct();
      var keys, values := KeysValues();
      ghost var s := contents;
      for i := 0 to |swaps|
        invariant |keys| == |values| == |s|
        invariant keys == Swapped(OrderedMap.Keys(s), swaps[..i]) && values == Swapped(OrderedMap.Values(s), swaps[..i])
      {
        assert swaps[..i + 1][..i] == swaps[..i];
        var (x, y) := swaps[i];
        keys, values := Swap(keys, x, y), Swap(values, x, y);
      }
      assert swaps[..|swaps|] == swaps;
      SwappedSides(s, swaps);
      if s != [] { SwappedKeeps(s, swaps, s[0].key); }
      var pairs := seq(|keys|, i requires 0 <= i < |keys| => Pair(keys[i], values[i]));
      assert pairs == Swapped(s, swaps);
      Replace(pairs);
    }

    /** SortByKey (ordereddictionary.go:550-584): only the keys are sorted, each value is then fetched
        through the index.  If the swaps put the keys in order, the dict has them in order. */
    method SortByKey(swaps: seq<(nat, nat)>, ghost less: (Value, Value) -> bool)
      requires Valid() && InRange(swaps, |contents|)
      modifies this
      ensures Valid() && contents == Swapped(old(contents), swaps) && fresh(repr)
      ensures StaleTail() <==> contents == []
      ensures Ordered(Swapped(OrderedMap.Keys(old(contents)), swaps), less) ==> Ordered(OrderedMap.Keys(contents), less)
    {
      var keys, _ := KeysValues();
      ghost var s := contents;
      ghost var t := Swapped(s, swaps);
      for i := 0 to |swaps|
        invariant |keys| == |s| && keys == Swapped(OrderedMap.Keys(s), swaps[..i])
      {
        assert swaps[..i + 1][..i] == swaps[..i];
        keys := Swap(keys, swaps[i].0, swaps[i].1);
      }
      assert swaps[..|swaps|] == swaps;
      SwappedSides(s, swaps);
      if s != [] { SwappedKeeps(s, swaps, s[0].key); }
      forall i | 0 <= i < |keys| ensures Lookup(s, keys[i]) == Some(t[i].value) {
        SwappedKeeps(s, swaps, keys[i]);
        FindIs(t, i);
      }
      var pairs := Fetch(keys);
      assert pairs == t;
      Replace(pairs);
    }

    /** Looks every key up through the index. */
    method Fetch(keys: seq<Value>) returns (pairs: Pairs)
      requires Walkable() && forall i :: 0 <= i < |keys| ==> Lookup(contents, keys[i]).Some?
      ensures |pairs| == |keys|
      ensures forall i :: 0 <= i < |keys| ==>
        Lookup(contents, keys[i]) == Some(pairs[i].value) && pairs[i].key == keys[i]
    {
      hide Walkable, Links, Indexes, Lookup;
      pairs := [];
      for i := 0 to |keys|
        invariant |pairs| == i
        invariant forall j :: 0 <= j < i ==>
          Lookup(contents, keys[j]) == Some(pairs[j].value) && pairs[j].key == keys[j]
      {
        var v := Get(keys[i]);
        pairs := pairs + [Pair(keys[i], v.value)];
      }
    }

    /** Reverse (ordereddictionary.go:495-512).  Afterwards the readers see the pairs backwards, and the
        index agrees; but the last node's link and the tail pointer are stale, so a dict of two or more
        keys is no longer fit for Set or Pop. */
    method Reverse()
      requires Valid()
      modifies this, repr
      ensures Walkable() && contents == Reversed(old(contents)) && repr == old(repr)
      ensures Valid() <==> |old(contents)| <= 1
    {
      hide HalfLinked, HalfIndexed, Links, Indexes, Carries, Backwards, Valid, Walkable, Reversed;
      Parts();
      var n := |prevchain|;
      if n <= 1 {
        ReversedShort(contents);
        return;
      }
      ghost var s, c, r := contents, chain, Backwards(chain);
      StartReverse();
      Rewire(s, c, r);
      chain, contents := r, Reversed(s);
      EndReverse(prevchain, s, c, r);
      HalfIsAll(repr, s, c, r);
      Assemble();
    }

    /** The loop of Reverse. */
    method Rewire(ghost s: Pairs, ghost c: seq<Node>, ghost r: seq<Node>)
      requires |s| == |prevchain| > 1 && |r| == |c| == |s| + 1 && r[0] == c[0] == headchain && tailchain == c[|s|]
      requires headchain in repr && HalfLinked(repr, s, c, r, 0) && HalfIndexed(prevchain, s, c, r, 0)
      modifies this`prevchain, repr
      ensures HalfLinked(repr, s, c, r, |s|) && HalfIndexed(prevchain, s, c, r, |s|) && |prevchain| == |s|
    {
      hide HalfLinked, HalfIndexed, Carries;
      var cur, prev := tailchain, headchain;
      var n := |prevchain|;
      for i := 0 to n
        invariant |prevchain| == n && prev == r[i] && cur == c[n - i] && prev in repr
        invariant HalfLinked(repr, s, c, r, i) && HalfIndexed(prevchain, s, c, r, i)
      {
        TurnReverse(prevchain, s, c, r, i);
        NodeAt(repr, s, c, r, i);
        label Turn:
        var thiskey := cur.key;
        prev.next := cur;
        prevchain, cur := prevchain[thiskey := prev], prevchain[thiskey];
        prev := prev.next;
        TurnLinks@Turn(repr, s, c, r, i);
      }
    }

    lemma StartReverse()
      requires Valid() && |contents| > 1
      ensures var s, c, r := contents, chain, Backwards(chain);
        && |r| == |c| == |s| + 1 && r[0] == c[0] == headchain && tailchain == c[|s|] && headchain in repr
        && HalfLinked(repr, s, c, r, 0) && HalfIndexed(prevchain, s, c, r, 0)
    {
      hide Carries, Links, Indexes, HalfLinked, HalfIndexed;
      StartLinked(repr, contents, chain);
      StartIndexed(prevchain, contents, chain);
    }

    method Replace(pairs: Pairs)
      requires Distinct(pairs)
      modifies this
      ensures Valid() && contents == pairs && fresh(repr) && (StaleTail() <==> pairs == [])
    {
      hide Links, Indexes, Distinct, Valid, Walkable;
      prevchain, headchain, tailchain, chain, repr := Rebuild(pairs);
      contents := pairs;
      AssembleNew();
    }
  }

  /** The sentinel and then the nodes from last to first. */
  function Backwards<T>(c: seq<T>): (r: seq<T>)
    requires c != []
    ensures |r| == |c| && r[0] == c[0] && forall j :: 1 <= j < |c| ==> r[j] == c[|c| - j]
  {
    seq(|c|, j requires 0 <= j < |c| => if j == 0 then c[0] else c[|c| - j])
  }

  /** The nodes after i turns: the first i links of the reversed chain are in place. */
  ghost predicate HalfLinked(repr: set<Node>, s: Pairs, c: seq<Node>,
                                         r: seq<Node>, i: nat)
    requires |c| == |r| == |s| + 1 && i <= |s|
    reads repr
  {
    && c != [] && r == Backwards(c) && NoRepeats(r)
    && (forall j {:trigger r[j]} :: 0 <= j < |r| ==> r[j] in repr)
    && Carries(repr, s, c)
    && (forall j {:trigger r[j].next} :: 0 <= j < i ==> r[j].next == r[j + 1])
    && r[|s|].next != null
  }

  /** The nodes behind the sentinel hold the pairs. */
  ghost predicate Carries(repr: set<Node>, s: Pairs, c: seq<Node>)
    requires |c| == |s| + 1
    reads repr
  {
    forall m {:trigger c[m]} :: 1 <= m < |c| ==>
      c[m] in repr && c[m].key == s[m - 1].key && c[m].value == s[m - 1].value
  }

  lemma StartLinked(repr: set<Node>, s: Pairs, c: seq<Node>)
    requires |s| > 1 && Links(repr, s, c)
    ensures |c| == |s| + 1 && c[0] in repr && HalfLinked(repr, s, c, Backwards(c), 0)
  {
    hide Carries;
    LinksCarry(repr, s, c);
    var r := Backwards(c);
    assert r[|s|] == c[1] && c[1].next == c[2];
    forall j {:trigger r[j]} | 0 <= j < |r| ensures r[j] in repr {
      assert r[j] == c[if j == 0 then 0 else |c| - j];
    }
    forall i, j | 0 <= i < j < |r| ensures r[i] != r[j] {
      assert r[i] == c[if i == 0 then 0 else |c| - i] && r[j] == c[|c| - j];
    }
  }

  lemma StartIndexed(index: map<Value, Node>, s: Pairs, c: seq<Node>)
    requires Indexes(index, s, c)
    ensures |c| == |s| + 1 && HalfIndexed(index, s, c, Backwards(c), 0)
  {
    KeysAre(index, s, c);
  }

  lemma LinksCarry(repr: set<Node>, s: Pairs, c: seq<Node>)
    requires Links(repr, s, c)
    ensures Carries(repr, s, c)
  {
    forall m {:trigger c[m]} | 1 <= m < |c|
      ensures c[m] in repr && c[m].key == s[m - 1].key && c[m].value == s[m - 1].value
    {
      var p := s[m - 1];
    }
  }

  twostate lemma CarriesStill(new repr: set<Node>, new s: Pairs, new c: seq<Node>, new node: Node)
    requires old(allocated(s)) && old(allocated(c)) && old(allocated(repr)) && old(allocated(node))
    requires |c| == |s| + 1 && old(Carries(repr, s, c)) && Relinked(repr, node)
    ensures Carries(repr, s, c)
  {
    forall m {:trigger c[m]} | 1 <= m < |c|
      ensures c[m] in repr && c[m].key == s[m - 1].key && c[m].value == s[m - 1].value
    {
      assert old(c[m].key) == s[m - 1].key && old(c[m].value) == s[m - 1].value;
      assert c[m] != node ==> unchanged(c[m]);
    }
  }

  lemma NodeAt(repr: set<Node>, s: Pairs, c: seq<Node>, r: seq<Node>, i: nat)
    requires |c| == |r| == |s| + 1 && i < |s| && HalfLinked(repr, s, c, r, i)
    ensures r[i] in repr && r[i + 1] in repr && c[|s| - i].key == s[|s| - 1 - i].key
  {
    assert s[|s| - 1 - i] == s[|s| - 1 - i];
  }

  twostate lemma TurnLinks(new repr: set<Node>, new s: Pairs, new c: seq<Node>,
                                       new r: seq<Node>, new i: nat)
    requires old(allocated(s)) && old(allocated(c)) && old(allocated(r)) && old(allocated(repr))
    requires |c| == |r| == |s| + 1 && i < |s| && old(HalfLinked(repr, s, c, r, i))
    requires Relinked(repr, r[i]) && r[i].next == r[i + 1]
    ensures HalfLinked(repr, s, c, r, i + 1)
  {
    hide Carries, Backwards;
    CarriesStill(repr, s, c, r[i]);
    forall j {:trigger r[j].next} | 0 <= j < i + 1 ensures r[j].next == r[j + 1] {
      if j < i {
        assert r[j] in repr && r[j] != r[i] && old(r[j].next) == r[j + 1];
        assert unchanged(r[j]);
      }
    }
    assert r[|s|] in repr && r[|s|] != r[i] && old(r[|s|].next) != null;
    assert unchanged(r[|s|]);
  }

  lemma HalfIsAll(repr: set<Node>, s: Pairs, c: seq<Node>, r: seq<Node>)
    requires |c| == |r| == |s| + 1 && HalfLinked(repr, s, c, r, |s|)
    ensures Links(repr, Reversed(s), r) && r[|s|].next != null
  {
    var t := Reversed(s);
    forall m {:trigger t[m]} | 0 <= m < |s| ensures r[m + 1].key == t[m].key && r[m + 1].value == t[m].value {
      assert t[m] == s[|s| - 1 - m] && r[m + 1] == c[|c| - m - 1];
    }
  }

  lemma ReversedShort(s: Pairs)
    requires |s| <= 1
    ensures Reversed(s) == s
  {
  }

  ghost predicate NoRepeats<T>(r: seq<T>) {
    forall i, j :: 0 <= i < j < |r| ==> r[i] != r[j]
  }

  lemma KeysAre(index: map<Value, Node>, s: Pairs, chain: seq<Node>)
    requires Indexes(index, s, chain)
    ensures index.Keys == (set p | p in s :: p.key)
  {
    forall k ensures k in index <==> exists p :: p in s && p.key == k {
      if k in index { assert s[Find(s, k)] in s; }
    }
  }

  /** One turn: the node reached is the next one of the reversed chain, its old entry leads on. */
  lemma TurnReverse(index: map<Value, Node>, s: Pairs, c: seq<Node>,
                                r: seq<Node>, i: nat)
    requires |c| == |r| == |s| + 1 && i < |s| && HalfIndexed(index, s, c, r, i)
    ensures var n, key := |s|, s[|s| - 1 - i].key;
      && r[i + 1] == c[n - i] && key in index && index[key] == c[n - 1 - i]
      && HalfIndexed(index[key := r[i]], s, c, r, i + 1)
  {
    var n, key := |s|, s[|s| - 1 - i].key;
    var index' := index[key := r[i]];
    assert index'.Keys == index.Keys;
    forall m {:trigger s[m]} | 0 <= m < n
      ensures s[m].key in index' && index'[s[m].key] == if m < n - i - 1 then c[m] else r[n - 1 - m]
    {
      assert m != n - 1 - i ==> s[m].key != key;
    }
  }

  /** After the last turn the index is that of the reversed pairs. */
  lemma EndReverse(index: map<Value, Node>, s: Pairs, c: seq<Node>, r: seq<Node>)
    requires |c| == |r| == |s| + 1 && HalfIndexed(index, s, c, r, |s|) && |index| == |s|
    ensures Indexes(index, Reversed(s), r)
  {
    hide HalfIndexed, Distinct, Find;
    TurnedEntries(index, s, c, r);
    ReversedDistinct(s);
    TurnedKeys(index, s, c, r);
  }

  lemma ReversedDistinct(s: Pairs)
    requires Distinct(s)
    ensures Distinct(Reversed(s))
  {
    var t, n := Reversed(s), |s|;
    forall i, j | 0 <= i < j < n ensures t[i].key != t[j].key {
      assert t[i] == s[n - 1 - i] && t[j] == s[n - 1 - j];
    }
  }

  lemma TurnedEntries(index: map<Value, Node>, s: Pairs, c: seq<Node>, r: seq<Node>)
    requires |c| == |r| == |s| + 1 && HalfIndexed(index, s, c, r, |s|)
    ensures Distinct(s)
    ensures var t := Reversed(s);
      forall i {:trigger t[i]} :: 0 <= i < |s| ==> t[i].key in index && index[t[i].key] == r[i]
  {
    hide Distinct, Backwards;
    var t, n := Reversed(s), |s|;
    forall i {:trigger t[i]} | 0 <= i < n ensures t[i].key in index && index[t[i].key] == r[i] {
      assert t[i] == s[n - 1 - i];
    }
  }

  lemma TurnedKeys(index: map<Value, Node>, s: Pairs, c: seq<Node>, r: seq<Node>)
    requires |c| == |r| == |s| + 1 && HalfIndexed(index, s, c, r, |s|)
    ensures forall k :: k in index ==> Find(Reversed(s), k) < |s|
  {
    hide Distinct, Backwards, Find;
    var t, n := Reversed(s), |s|;
    forall k | k in index ensures Find(t, k) < n {
      assert k in index.Keys;
      var p :| p in s && p.key == k;
      var m :| 0 <= m < n && s[m] == p;
      assert t[n - 1 - m] == p;
      Found(t, n - 1 - m, k);
    }
  }

  /** The index after i turns of the loop of Reverse: the last i keys already point the other way. */
  ghost predicate HalfIndexed(index: map<Value, Node>, s: Pairs, c: seq<Node>,
                                          r: seq<Node>, i: nat)
    requires |c| == |r| == |s| + 1 && i <= |s|
  {
    && Distinct(s) && r == Backwards(c) && index.Keys == (set p | p in s :: p.key)
    && forall m {:trigger s[m]} :: 0 <= m < |s| ==>
         s[m].key in index && index[s[m].key] == if m < |s| - i then c[m] else r[|s| - 1 - m]
  }

  method Rebuild(pairs: Pairs)
    returns (m: map<Value, Node>, head: Node, tail: Node,
             ghost c: seq<Node>, ghost r: set<Node>)
    requires Distinct(pairs)
    ensures |c| == |pairs| + 1 && fresh(r) && Links(r, pairs, c) && c[0] == head && Indexes(m, pairs, c)
    ensures tail == c[|pairs|] && tail.next == null
  {
    hide Links, Indexes, Distinct;
    head := new Node.Sentinel();
    m, tail, c, r := map[], head, [head], {head};
    EmptyChain(m, c, r);
    assert pairs[..0] == [];
    for i := 0 to |pairs|
      invariant |c| == i + 1 && fresh(r) && Links(r, pairs[..i], c) && c[0] == head && Indexes(m, pairs[..i], c)
      invariant tail == c[i] && tail in r && tail.next == null
    {
      assert pairs[..i + 1] == pairs[..i] + [pairs[i]];
      NewKey(pairs, m, c, i);
      m, tail, c, r := Append(pairs[..i], m, tail, pairs[i].key, pairs[i].value, c, r);
    }
    assert pairs[..|pairs|] == pairs;
  }

  /** One turn of that loop. */
  method Append(ghost s: Pairs, m: map<Value, Node>, prev: Node, key: Value, value: Value,
                               ghost c: seq<Node>, ghost r: set<Node>)
    returns (m': map<Value, Node>, tail: Node, ghost c': seq<Node>, ghost r': set<Node>)
    requires |c| == |s| + 1 && Links(r, s, c) && Indexes(m, s, c) && key !in m && prev == c[|s|] && prev in r
    modifies prev`next
    ensures c' == c + [tail] && r' == r + {tail} && fresh(tail) && tail.next == null
    ensures Links(r', s + [Pair(key, value)], c') && Indexes(m', s + [Pair(key, value)], c')
  {
    hide Links, Indexes;
    tail := new Node(key, value);
    prev.next := tail;
    m', c', r' := m[key := prev], c + [tail], r + {tail};
    IndexesAppend(m, s, c, key, value, tail);
    LinksAppend(r, s, c, tail);
  }

  lemma EmptyChain(m: map<Value, Node>, c: seq<Node>, r: set<Node>)
    requires m == map[] && |c| == 1 && c[0] in r
    ensures Links(r, [], c) && Indexes(m, [], c)
  {
  }

  lemma NewKey(pairs: Pairs, m: map<Value, Node>, c: seq<Node>, i: nat)
    requires Distinct(pairs) && i < |pairs| && Indexes(m, pairs[..i], c)
    ensures pairs[i].key !in m
  {
    assert forall j :: 0 <= j < i ==> pairs[..i][j].key != pairs[i].key;
  }

  lemma EndOfDrop<T, U>(s: seq<U>, c: seq<T>, i: nat)
    requires i < |s| && |c| == |s| + 1
    ensures var s', c' := s[..i] + s[i + 1..], c[..i + 1] + c[i + 2..];
      |s'| == |s| - 1 && |c'| == |s| && c'[0] == c[0] && c'[|s'|] == if i + 1 < |s| then c[|s|] else c[i]
  {
  }

  /** The nodes are linked in order behind a sentinel and hold the pairs. */
  ghost predicate Links(repr: set<Node>, s: Pairs, chain: seq<Node>)
    reads repr
  {
    && |chain| == |s| + 1 && (forall i :: 0 <= i < |chain| ==> chain[i] in repr)
    && (forall i, j :: 0 <= i < j < |chain| ==> chain[i] != chain[j])
    && (forall i {:trigger chain[i].next} :: 0 <= i < |s| ==> chain[i].next == chain[i + 1])
    && (forall i {:trigger s[i]} :: 0 <= i < |s| ==> chain[i + 1].key == s[i].key && chain[i + 1].value == s[i].value)
  }

  /** Only this node's link has changed. */
  twostate predicate Relinked(new repr: set<Node>, new node: Node)
    requires old(allocated(repr)) && old(allocated(node))
    reads repr, node
  {
    && (forall n :: n in repr && n != node ==> unchanged(n))
    && node.key == old(node.key) && node.value == old(node.value)
  }

  twostate lemma LinksAppend(new repr: set<Node>, new s: Pairs, new chain: seq<Node>,
                                         new node: Node)
    requires old(allocated(s)) && old(allocated(chain)) && old(allocated(repr)) && !old(allocated(node))
    requires old(Links(repr, s, chain)) && Relinked(repr, chain[|s|]) && chain[|s|].next == node
    ensures Links(repr + {node}, s + [Pair(node.key, node.value)], chain + [node])
  {
  }

  twostate lemma LinksPut(new repr: set<Node>, new s: Pairs, new chain: seq<Node>, new i: nat)
    requires old(allocated(s)) && old(allocated(chain)) && old(allocated(repr))
    requires old(Links(repr, s, chain)) && i < |s|
    requires forall n :: n in repr && n != chain[i + 1] ==> unchanged(n)
    requires chain[i + 1].next == old(chain[i + 1].next) && chain[i + 1].key == s[i].key
    ensures Links(repr, s[i := Pair(s[i].key, chain[i + 1].value)], chain)
  {
  }

  twostate lemma LinksInit(new repr: set<Node>, new s: Pairs, new chain: seq<Node>)
    requires old(allocated(s)) && old(allocated(chain)) && old(allocated(repr))
    requires old(Links(repr, s, chain)) && s != [] && Relinked(repr, chain[|s| - 1])
    ensures Links(repr, s[..|s| - 1], chain[..|s|])
  {
  }

  twostate lemma LinksDrop(new repr: set<Node>, new s: Pairs, new chain: seq<Node>, new i: nat)
    requires old(allocated(s)) && old(allocated(chain)) && old(allocated(repr))
    requires old(Links(repr, s, chain)) && i < |s| && Relinked(repr, chain[i])
    requires i + 1 < |s| ==> chain[i].next == chain[i + 2]
    ensures Links(repr, s[..i] + s[i + 1..], chain[..i + 1] + chain[i + 2..])
  {
    var c := chain[..i + 1] + chain[i + 2..];
    assert forall j :: 0 <= j < |c| ==> c[j] == chain[if j <= i then j else j + 1];
  }

  /** Each key's entry is the node before its own. */
  ghost predicate Indexes(index: map<Value, Node>, s: Pairs, chain: seq<Node>) {
    && Distinct(s) && |chain| == |s| + 1
    && (forall i {:trigger s[i]} :: 0 <= i < |s| ==> s[i].key in index && index[s[i].key] == chain[i])
    && (forall k :: k in index ==> Find(s, k) < |s|)
    && |index| == |s|
  }

  lemma IndexesAppend(index: map<Value, Node>, s: Pairs, chain: seq<Node>,
                                  key: Value, value: Value, node: Node)
    requires Indexes(index, s, chain) && key !in index
    ensures Indexes(index[key := chain[|s|]], s + [Pair(key, value)], chain + [node])
  {
    hide Distinct, Find;
    var index', s' := index[key := chain[|s|]], s + [Pair(key, value)];
    assert forall i :: 0 <= i < |s| ==> s[i].key != key;
    DistinctAppend(s, key, value);
    forall k | k in index' ensures Find(s', k) < |s'| { FindAppend(s, key, value, k); }
  }

  lemma DistinctAppend(s: Pairs, key: Value, value: Value)
    requires Distinct(s) && forall i :: 0 <= i < |s| ==> s[i].key != key
    ensures Distinct(s + [Pair(key, value)]) && Find(s, key) == |s|
  {
  }

  lemma IndexesPut(index: map<Value, Node>, s: Pairs, chain: seq<Node>, i: nat, value: Value)
    requires Indexes(index, s, chain) && i < |s|
    ensures Indexes(index, s[i := Pair(s[i].key, value)], chain)
  {
    var s' := s[i := Pair(s[i].key, value)];
    forall k | k in index ensures Find(s', k) < |s'| { assert s'[Find(s, k)].key == k; }
  }

  lemma IndexesInit(index: map<Value, Node>, s: Pairs, chain: seq<Node>)
    requires Indexes(index, s, chain) && s != []
    ensures Indexes(index - {s[|s| - 1].key}, s[..|s| - 1], chain[..|s|])
  {
    var n := |s| - 1;
    FindIs(s, n);
    IndexesDrop(index, s, chain, n);
    assert s[..n] + s[n + 1..] == s[..n];
    assert chain[..n + 1] + chain[n + 2..] == chain[..|s|];
  }

  lemma Without<T>(s: seq<T>, i: nat, j: nat)
    requires i < |s| && j < |s| - 1
    ensures (s[..i] + s[i + 1..])[j] == s[if j < i then j else j + 1]
  {
  }

  /** The index after one key has gone and its successor, if any, has moved up. */
  function Reindexed(index: map<Value, Node>, s: Pairs, chain: seq<Node>, i: nat): map<Value, Node>
    requires i < |s| && |chain| == |s| + 1
  {
    if i + 1 == |s| then index - {s[i].key} else (index - {s[i].key})[s[i + 1].key := chain[i]]
  }

  lemma ReindexedKeys(index: map<Value, Node>, s: Pairs, chain: seq<Node>, i: nat)
    requires Indexes(index, s, chain) && i < |s|
    ensures Reindexed(index, s, chain, i).Keys == index.Keys - {s[i].key} && |Reindexed(index, s, chain, i)| == |s| - 1
    ensures forall j :: 0 <= j < |s| && j != i ==>
      s[j].key != s[i].key && Reindexed(index, s, chain, i)[s[j].key] == chain[if j == i + 1 then i else j]
  {
    hide Distinct, Find, Reindexed;
    KeysDiffer(index, s, chain, i);
    ReindexedSize(index, s, chain, i);
    forall j | 0 <= j < |s| && j != i
      ensures Reindexed(index, s, chain, i)[s[j].key] == chain[if j == i + 1 then i else j]
    {
      ReindexedAt(index, s, chain, i, j);
    }
  }

  lemma KeysDiffer(index: map<Value, Node>, s: Pairs, chain: seq<Node>, i: nat)
    requires Indexes(index, s, chain) && i < |s|
    ensures forall j :: 0 <= j < |s| ==> s[j].key in index && (j != i ==> s[j].key != s[i].key)
  {
    hide Find;
  }

  lemma ReindexedSize(index: map<Value, Node>, s: Pairs, chain: seq<Node>, i: nat)
    requires i < |s| && |chain| == |s| + 1 && |index| == |s|
    requires forall j :: 0 <= j < |s| ==> s[j].key in index && (j != i ==> s[j].key != s[i].key)
    ensures Reindexed(index, s, chain, i).Keys == index.Keys - {s[i].key} && |Reindexed(index, s, chain, i)| == |s| - 1
  {
    var index' := index - {s[i].key};
    assert index.Keys == index'.Keys + {s[i].key};
    var r := Reindexed(index, s, chain, i);
    assert r.Keys == index'.Keys && |r| == |r.Keys|;
  }

  lemma ReindexedAt(index: map<Value, Node>, s: Pairs, chain: seq<Node>, i: nat, j: nat)
    requires Indexes(index, s, chain) && i < |s| && j < |s| && j != i && s[j].key != s[i].key
    requires forall j :: 0 <= j < |s| ==> s[j].key in index && (j != i ==> s[j].key != s[i].key)
    requires Reindexed(index, s, chain, i).Keys == index.Keys - {s[i].key}
    ensures Reindexed(index, s, chain, i)[s[j].key] == chain[if j == i + 1 then i else j]
  {
    hide Find;
    assert index[s[j].key] == chain[j];
    if i + 1 < |s| && j != i + 1 { assert s[j].key != s[i + 1].key; }
  }

  lemma IndexDistinct(index: map<Value, Node>, s: Pairs, chain: seq<Node>)
    requires Indexes(index, s, chain)
    ensures Distinct(s)
  {
  }

  lemma IndexesDrop(index: map<Value, Node>, s: Pairs, chain: seq<Node>, i: nat)
    requires Indexes(index, s, chain) && i < |s|
    ensures Find(s, s[i].key) == i
    ensures Indexes(Reindexed(index, s, chain, i), s[..i] + s[i + 1..], chain[..i + 1] + chain[i + 2..])
  {
    hide Distinct, Reindexed, Find;
    IndexDistinct(index, s, chain);
    FindIs(s, i);
    ReindexedKeys(index, s, chain, i);
    DistinctWithout(s, i);
    var s', c', r := s[..i] + s[i + 1..], chain[..i + 1] + chain[i + 2..], Reindexed(index, s, chain, i);
    forall k | k in r ensures Find(s', k) < |s'| {
      KeyStays(s, i, k);
    }
    forall j {:trigger s'[j]} | 0 <= j < |s'| ensures s'[j].key in r && r[s'[j].key] == c'[j] {
      Without(s, i, j);
      Without(chain, i + 1, j);
    }
  }

  lemma KeyStays(s: Pairs, i: nat, k: Value)
    requires i < |s| && Find(s, k) < |s| && k != s[i].key
    ensures Find(s[..i] + s[i + 1..], k) < |s| - 1
  {
    hide Find;
    var s', j := s[..i] + s[i + 1..], Find(s, k);
    assert s[j].key == k && j != i;
    var m := if j < i then j else j - 1;
    Without(s, i, m);
    Found(s', m, k);
  }
}
