/** What configurations mean: trees of values, dotted paths into them, and deep merging. */
module ConfigTree {
  import opened Text

  datatype Kind =
    | Int | Int8 | Int16 | Int32 | Int64
    | Uint | Uint8 | Uint16 | Uint32 | Uint64
    | Float32 | Float64

  /** A value that is not a map: a string, a number with its Go type, or anything else. */
  datatype Atom = Str(s: string) | Num(kind: Kind, value: real) | Other(id: nat)

  /** nil, another value, or a map: a Configuration, or a raw map[string]interface{}. */
  datatype Tree = Nil | Leaf(a: Atom) | Node(raw: bool, kids: map<string, Tree>)

  type Path = seq<string>

  const EMPTY: Tree := Node(false, map[])

  /** toBigType (config/config.go:1218-1238); uint8 stays. */
  function BigKind(k: Kind): Kind {
    match k
    case Int | Int8 | Int16 | Int32 | Int64 => Int64
    case Uint | Uint16 | Uint32 | Uint64 => Uint64
    case Uint8 => Uint8
    case Float32 | Float64 => Float64
  }

  function BigAtom(a: Atom): Atom {
    if a.Num? then Num(BigKind(a.kind), a.value) else a
  }

  function Big(t: Tree): Tree {
    if t.Leaf? then Leaf(BigAtom(t.a)) else t
  }

  // ---------------------------------------------------------------- paths

  function At(t: Tree, p: Path): Option<Tree>
    decreases |p|
  {
    if p == [] then Some(t)
    else if t.Node? && p[0] in t.kids then At(t.kids[p[0]], p[1..])
    else None
  }

  /** The children of t, or none. */
  function Kids(t: Tree): map<string, Tree> {
    if t.Node? then t.kids else map[]
  }

  function Kid(t: Tree, k: string): Tree {
    if k in Kids(t) then Kids(t)[k] else Nil
  }

  function Raw(t: Tree): bool {
    t.Node? && t.raw
  }

  /** t with v at p; whatever is in the way becomes a branch. */
  function Put(t: Tree, p: Path, v: Tree): Tree
    decreases |p|
  {
    if p == [] then v else Node(Raw(t), Kids(t)[p[0] := Put(Kid(t, p[0]), p[1..], v)])
  }

  /** t with a branch at p. */
  function Made(t: Tree, p: Path): Tree
    decreases |p|
  {
    if p == [] then (if t.Node? then t else EMPTY)
    else Node(Raw(t), Kids(t)[p[0] := Made(Kid(t, p[0]), p[1..])])
  }

  /** What was put is there, and paths that do not run along p are as they were. */
  lemma {:induction false} PutAt(t: Tree, p: Path, v: Tree, q: Path)
    ensures At(Put(t, p, v), p) == Some(v)
    ensures !(p <= q) && !(q <= p) ==> At(Put(t, p, v), q) == At(t, q)
    decreases |p|
  {
    if p != [] {
      var sub := Kid(t, p[0]);
      PutAt(sub, p[1..], v, if q == [] then [] else q[1..]);
      if q != [] && q[0] == p[0] && !(p <= q) && !(q <= p) {
        PrefixTail(p, q);
        PrefixTail(q, p);
        assert At(Put(t, p, v), q) == At(Put(sub, p[1..], v), q[1..]);
        assert At(Nil, q[1..]) == None;
      }
    }
  }

  lemma PrefixTail(p: Path, q: Path)
    requires p != [] && q != [] && p[0] == q[0]
    ensures p <= q <==> p[1..] <= q[1..]
  {
    assert p == [p[0]] + p[1..] && q == [q[0]] + q[1..];
  }

  /** Adding a child to the branch at p is putting it at the longer path. */
  lemma {:induction false} PutInto(t: Tree, p: Path, k: string, v: Tree)
    requires At(t, p).Some? && At(t, p).value.Node?
    ensures Put(t, p + [k], v) == Put(t, p, Node(At(t, p).value.raw, At(t, p).value.kids[k := v]))
    decreases |p|
  {
    if p == [] {
      assert (p + [k])[1..] == [];
    } else {
      assert (p + [k])[1..] == p[1..] + [k];
      PutInto(t.kids[p[0]], p[1..], k, v);
    }
  }

  lemma {:induction false} MadeAt(t: Tree, p: Path)
    ensures At(Made(t, p), p).Some? && At(Made(t, p), p).value.Node?
    ensures At(t, p).Some? && At(t, p).value.Node? ==> Made(t, p) == t
    decreases |p|
  {
    if p != [] {
      MadeAt(Kid(t, p[0]), p[1..]);
      if t.Node? && p[0] in t.kids { assert t.kids[p[0] := t.kids[p[0]]] == t.kids; }
    }
  }

  /** Making a branch and then one below it is making the longer one. */
  lemma {:induction false} MadeStep(t: Tree, p: Path, k: string)
    ensures Made(t, p + [k]) == Made(Made(t, p), p + [k])
    decreases |p|
  {
    if p == [] {
      assert (p + [k])[1..] == [];
    } else {
      assert (p + [k])[1..] == p[1..] + [k];
      MadeStep(Kid(t, p[0]), p[1..], k);
    }
  }

  /** Below an existing branch, making another is putting an empty one, unless it is there. */
  lemma {:induction false} MadeBelow(t: Tree, p: Path, k: string)
    requires At(t, p).Some? && At(t, p).value.Node?
    ensures var sub := At(t, p).value;
      Made(t, p + [k]) == if Kid(sub, k).Node? then t else Put(t, p + [k], EMPTY)
    decreases |p|
  {
    if p == [] {
      assert (p + [k])[1..] == [];
      if Kid(t, k).Node? { assert t.kids[k := t.kids[k]] == t.kids; }
    } else {
      assert (p + [k])[1..] == p[1..] + [k];
      MadeBelow(t.kids[p[0]], p[1..], k);
      assert t.kids[p[0] := t.kids[p[0]]] == t.kids;
    }
  }

  lemma {:induction false} PutMade(t: Tree, p: Path, k: string, v: Tree)
    ensures Put(Made(t, p), p + [k], v) == Put(t, p + [k], v)
    decreases |p|
  {
    if p == [] {
      assert (p + [k])[1..] == [];
    } else {
      assert (p + [k])[1..] == p[1..] + [k];
      PutMade(Kid(t, p[0]), p[1..], k, v);
    }
  }

  // ---------------------------------------------------------------- merging

  /** y over x: branches are merged, anything else of y replaces what x has.  A branch of y that
      meets a value is taken over as it is; otherwise numbers are widened. */
  function Merge(x: Tree, y: Tree): Tree
    decreases y
  {
    if !y.Node? then Big(y)
    else if x.Leaf? then y
    else
      Node(Raw(x), map k | k in Kids(x).Keys + y.kids.Keys ::
        if k !in y.kids then Kids(x)[k] else Merge(Kid(x, k), y.kids[k]))
  }

  lemma MergeKids(x: Tree, y: Tree, k: string)
    requires y.Node? && !x.Leaf?
    ensures k in Kids(Merge(x, y)) <==> k in Kids(x) || k in y.kids
    ensures k in y.kids ==> Kid(Merge(x, y), k) == Merge(Kid(x, k), y.kids[k])
    ensures k !in y.kids ==> Kid(Merge(x, y), k) == Kid(x, k)
  {
  }

  /** The path ends in y, or runs into a value of y. */
  predicate Touches(y: Tree, p: Path)
    decreases |p|
  {
    !y.Node? || p == [] || (p[0] in y.kids && Touches(y.kids[p[0]], p[1..]))
  }

  /** Every path after a merge: y's values read back (widened or not), y's branches are branches,
      what lies below a value of y is gone, and paths that y does not touch are as x had them. */
  lemma {:induction false} MergeAt(x: Tree, y: Tree, p: Path)
    ensures var r := At(Merge(x, y), p);
      && (At(y, p).Some? && !At(y, p).value.Node? ==> r.Some? && Big(r.value) == Big(At(y, p).value))
      && (At(y, p).Some? && At(y, p).value.Node? ==> r.Some? && r.value.Node?)
      && (At(y, p).None? && Touches(y, p) ==> r.None?)
      && (!Touches(y, p) ==> r == At(x, p))
    decreases |p|
  {
    if y.Node? && p != [] {
      if x.Leaf? {
        if !Touches(y, p) { UntouchedIsAbsent(y, p); }
      } else {
        MergeKids(x, y, p[0]);
        if p[0] in y.kids {
          MergeAt(Kid(x, p[0]), y.kids[p[0]], p[1..]);
          if p[0] !in Kids(x) && !Touches(y, p) { assert p[1..] != [] && At(Nil, p[1..]) == None; }
        }
      }
    }
  }

  lemma {:induction false} UntouchedIsAbsent(y: Tree, p: Path)
    requires !Touches(y, p)
    ensures At(y, p).None?
    decreases |p|
  {
    if p[0] in y.kids { UntouchedIsAbsent(y.kids[p[0]], p[1..]); }
  }

  /** All numbers widened. */
  function Normal(t: Tree): Tree
    decreases t
  {
    if t.Node? then Node(t.raw, map k | k in t.kids :: Normal(t.kids[k])) else Big(t)
  }

  /** No branch of y meets a value of x. */
  predicate NoClash(x: Tree, y: Tree)
    decreases y
  {
    y.Node? ==> !x.Leaf? && forall k :: k in y.kids ==> NoClash(Kid(x, k), y.kids[k])
  }

  lemma {:induction false} MergeSelf(y: Tree)
    ensures Normal(Merge(y, y)) == Normal(y)
    decreases y
  {
    if y.Node? {
      var m := Merge(y, y);
      forall k | k in y.kids ensures Normal(m.kids[k]) == Normal(y.kids[k]) { MergeSelf(y.kids[k]); }
      assert Normal(m).kids == Normal(y).kids;
    }
  }

  /** Merging the same again changes nothing but, where a branch had replaced a value, the width of
      numbers. */
  lemma {:induction false} MergeAgain(x: Tree, y: Tree)
    ensures Normal(Merge(Merge(x, y), y)) == Normal(Merge(x, y))
    ensures NoClash(x, y) ==> Merge(Merge(x, y), y) == Merge(x, y) && NoClash(Merge(x, y), y)
    decreases y
  {
    var m := Merge(x, y);
    var mm := Merge(m, y);
    if y.Node? {
      if x.Leaf? {
        MergeSelf(y);
      } else {
        forall k | k in y.kids
          ensures Normal(mm.kids[k]) == Normal(m.kids[k])
          ensures NoClash(x, y) ==> mm.kids[k] == m.kids[k] && NoClash(m.kids[k], y.kids[k])
        {
          MergeAgain(Kid(x, k), y.kids[k]);
        }
        assert Normal(mm).kids == Normal(m).kids;
        if NoClash(x, y) { assert mm.kids == m.kids; }
      }
    }
  }
}
