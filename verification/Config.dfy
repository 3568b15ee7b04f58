/** Configuration (config/config.go): nested maps, changed in place. */
module Config {
  import opened Text
  import opened ConfigTree
  import opened ConfigSwitch
  import opened ConfigKeys
  import SplitLastN

  datatype Error = BranchKeyExists | ValueIsBranch

  /** An interface{}: nil, a value that is no map, a Configuration, or a raw map.  The map itself is the
      same kind of object in the last two. */
  datatype Value = Null | Atomic(a: Atom) | Conf(c: Configuration) | RawMap(c: Configuration)
  {
    predicate IsBranch() { Conf? || RawMap? }
  }

  /** toBigType (config.go:1218-1238) */
  function ToBigType(v: Value): Value {
    if v.Atomic? then Atomic(BigAtom(v.a)) else v
  }

  ghost function ReprOf(v: Value): set<Configuration>
    reads if v.IsBranch() then {v.c} else {}
  {
    if v.IsBranch() then v.c.repr else {}
  }

  ghost predicate SoundValue(v: Value)
    reads if v.IsBranch() then {v.c} + v.c.repr else {}
  {
    v.IsBranch() ==> v.c.Sound({})
  }

  ghost function TreeOf(v: Value): Tree
    reads if v.IsBranch() then {v.c} + v.c.repr else {}
    requires SoundValue(v)
  {
    match v
    case Null => Nil
    case Atomic(a) => Leaf(a)
    case Conf(c) => c.Tree({})
    case RawMap(c) => Node(true, c.Tree({}).kids)
  }

  twostate lemma Untouched(new v: Value)
    requires v.IsBranch() && old(allocated(v)) && old(allocated(v.c)) && old(v.c.Sound({}))
    requires unchanged(v.c) && forall o :: o in old(v.c.repr) ==> unchanged(o)
    ensures v.c.Sound({}) && SoundValue(v) && TreeOf(v) == old(TreeOf(v))
  {
  }

  function StringsIn(m: map<string, Value>): map<string, string> {
    map k | k in m && m[k].Atomic? && m[k].a.Str? :: m[k].a.s
  }

  /** w is what storing v leaves: v itself, widened, or a map that is v's or has absorbed it. */
  ghost predicate Takes(w: Value, v: Value)
    requires SoundValue(w) && SoundValue(v)
    reads if w.IsBranch() then {w.c} + w.c.repr else {}, if v.IsBranch() then {v.c} + v.c.repr else {}
  {
    if v.IsBranch() then w.IsBranch() && (w.c == v.c || w.c.Absorbs(v.c)) else w == ToBigType(v)
  }

  twostate lemma TakesStill(new w: Value, new v: Value)
    requires old(allocated(w)) && old(allocated(v))
    requires old(SoundValue(w)) && old(SoundValue(v)) && old(Takes(w, v))
    requires w.IsBranch() ==> old(allocated(w.c)) && unchanged(w.c) && forall o :: o in old(w.c.repr) ==> unchanged(o)
    requires v.IsBranch() ==> old(allocated(v.c)) && unchanged(v.c) && forall o :: o in old(v.c.repr) ==> unchanged(o)
    ensures SoundValue(w) && SoundValue(v) && Takes(w, v)
  {
  }

  lemma OwnRepr(v: Value)
    requires SoundValue(v)
    ensures v.IsBranch() ==> v.c in v.c.repr
  {
  }

  class Configuration {
    var m: map<string, Value>
    ghost var repr: set<Configuration>

    /** The maps below this one form a tree; `repr` holds at least those.  Keys in `skip` are not
        looked at. */
    ghost predicate Sound(skip: set<string>)
      reads this, repr
      decreases repr, 0
    {
      && this in repr
      && (forall k :: k in m && k !in skip && m[k].IsBranch() ==>
            && m[k].c in repr && m[k].c.repr <= repr && this !in m[k].c.repr
            && m[k].c.Sound({}))
      && (forall j, k ::
            j in m && k in m && j !in skip && k !in skip && j != k && m[j].IsBranch() && m[k].IsBranch() ==>
            m[j].c.repr !! m[k].c.repr)
    }

    ghost function Tree(skip: set<string>): (t: Tree)
      reads this, repr
      requires Sound(skip)
      ensures t.Node? && !t.raw
      decreases repr, 0
    {
      Node(false, map k | k in m && k !in skip ::
        match m[k]
        case Null => Nil
        case Atomic(a) => Leaf(a)
        case Conf(c) => c.Tree({})
        case RawMap(c) => Node(true, c.Tree({}).kids))
    }

    lemma TreeIs(skip: set<string>)
      requires Sound(skip)
      ensures Tree(skip).kids.Keys == m.Keys - skip
      ensures forall k :: k in m && k !in skip ==> SoundValue(m[k]) && Tree(skip).kids[k] == TreeOf(m[k])
    {
    }

    /** The trees of the keys, put together. */
    lemma Assemble(skip: set<string>, t: map<string, Tree>)
      requires this in repr && t.Keys == m.Keys - skip
      requires forall k :: k in m && k !in skip && m[k].IsBranch() ==>
        m[k].c in repr && m[k].c.repr <= repr && this !in m[k].c.repr && m[k].c.Sound({})
      requires forall j, k ::
        j in m && k in m && j !in skip && k !in skip && j != k && m[j].IsBranch() && m[k].IsBranch() ==>
        m[j].c.repr !! m[k].c.repr
      requires forall k :: k in t ==> t[k] == TreeOf(m[k])
      ensures Sound(skip) && Tree(skip) == Node(false, t)
    {
      assert Sound(skip);
      TreeIs(skip);
      assert Tree(skip).kids == t;
    }

    constructor ()
      ensures m == map[] && repr == {this} && Sound({}) && Tree({}) == EMPTY
    {
      m := map[];
      repr := {this};
    }

    // ---------------------------------------------------------------- reading

    /** The map a path leads to. */
    ghost function Find(p: Path): (r: Configuration?)
      reads this, repr
      requires Sound({})
      ensures r != null ==> r in repr && r.repr <= repr && r.Sound({})
      decreases |p|
    {
      if p == [] then this
      else if p[0] in m && m[p[0]].IsBranch() then m[p[0]].c.Find(p[1..])
      else null
    }

    lemma {:induction false} FindAt(p: Path)
      requires Sound({})
      ensures Find(p) != null <==> At(Tree({}), p).Some? && At(Tree({}), p).value.Node?
      ensures Find(p) != null ==> At(Tree({}), p).value.kids == Find(p).Tree({}).kids
      decreases |p|
    {
      hide Tree;
      TreeIs({});
      if p != [] && p[0] in m && m[p[0]].IsBranch() {
        m[p[0]].c.FindAt(p[1..]);
        AtTag(m[p[0]].c.Tree({}).kids, p[1..]);
      }
    }

    /** What stands under a key of the map a path leads to. */
    lemma FindKey(p: Path, k: string)
      requires Sound({}) && Find(p) != null
      ensures At(Tree({}), p + [k]) == if k in Find(p).m then Some(TreeOf(Find(p).m[k])) else None
      ensures k in Find(p).m ==> SoundValue(Find(p).m[k])
    {
      hide Tree;
      FindAt(p);
      AtMore(Tree({}), p, [k]);
      Find(p).TreeIs({});
      assert [k][1..] == [];
    }

    lemma {:induction false} FindMore(p: Path, k: string)
      requires Sound({})
      ensures Find(p + [k]) ==
        if Find(p) != null && k in Find(p).m && Find(p).m[k].IsBranch() then Find(p).m[k].c else null
      decreases |p|
    {
      if p == [] {
        assert (p + [k])[1..] == [];
      } else {
        assert (p + [k])[1..] == p[1..] + [k] && (p + [k])[0] == p[0];
        if p[0] in m && m[p[0]].IsBranch() { m[p[0]].c.FindMore(p[1..], k); }
      }
    }

    /** Branch (config.go:232-260) */
    function Branch(name: string): (r: Configuration?)
      reads this, repr
      requires Sound({})
      decreases |name|
    {
      var i := IndexOf(name, '.');
      if i < |name| then
        var head, rest := name[..i], name[i + 1..];
        if head in m && m[head].IsBranch() then m[head].c.Branch(rest) else null
      else if name == "" then this
      else if name in m && m[name].IsBranch() then m[name].c
      else null
    }

    /** Branch follows the path of its name. */
    lemma {:induction false} BranchFinds(name: string)
      requires Sound({}) && Solid(PathOf(name))
      ensures Branch(name) == Find(PathOf(name))
      decreases |name|
    {
      var i := IndexOf(name, '.');
      var p := PathOf(name);
      if i < |name| {
        var rest := name[i + 1..];
        assert p == [name[..i]] + PathOf(rest) && p[1..] == PathOf(rest);
        SolidParts(p, 1);
        if p[0] in m && m[p[0]].IsBranch() { m[p[0]].c.BranchFinds(rest); }
      } else {
        assert p == [name] && p[1..] == [];
      }
    }

    /** splitBranchKey (config.go:1108-1124) */
    function SplitBranchKey(key: string): (r: (Configuration?, string))
      reads this, repr
      requires '.' in key ==> Sound({})
    {
      if '.' in key then
        var keysplit := SplitLastN.SplitLast(key, ".", 2);
        var cfg := Branch(keysplit[0]);
        if cfg == null || |keysplit| < 2 then (null, "") else (cfg, keysplit[1])
      else (this, key)
    }

    /** Interface with a nil default (config.go:279-295) */
    function Interface(key: string): Value
      reads this, repr, SplitBranchKey(key).0
      requires '.' in key ==> Sound({})
    {
      var (cfg, k) := SplitBranchKey(key);
      if cfg != null && k in cfg.m then cfg.m[k] else Null
    }

    /** A dotted key reads what its path leads to, or nil. */
    lemma InterfaceAt(key: string)
      requires Sound({}) && GoodKey(key)
      ensures SoundValue(Interface(key))
      ensures Interface(key).IsBranch() ==> Interface(key).c == Find(PathOf(key))
      ensures TreeOf(Interface(key)) == var r := At(Tree({}), PathOf(key)); if r.Some? then r.value else Nil
    {
      hide Tree, At, SplitLastN.SplitLast;
      var p := PathOf(key);
      var init, last := p[..|p| - 1], p[|p| - 1];
      PlainPath(key);
      assert init + [last] == p;
      if '.' in key {
        LastDot(key);
        SolidParts(p, |p| - 1);
        BranchFinds(SplitLastN.SplitLast(key, ".", 2)[0]);
      }
      assert SplitBranchKey(key) == (Find(init), last) || (Find(init) == null && SplitBranchKey(key).0 == null);
      FindMore(init, last);
      if Find(init) != null {
        FindKey(init, last);
      } else {
        FindAt(init);
        AtMore(Tree({}), init, [last]);
        AtNone(At(Tree({}), init), last);
      }
    }

    /** v can be put under k: nothing of it is below this map already, but under k itself. */
    ghost predicate Room(skip: set<string>, k: string, v: Value)
      reads this, repr, if v.IsBranch() then {v.c} + v.c.repr else {}
      requires Sound(skip)
    {
      && SoundValue(v) && this !in ReprOf(v)
      && (forall j :: j in m && j !in skip && j != k && m[j].IsBranch() ==> m[j].c.repr !! ReprOf(v))
    }

    /** Set under a key without a dot (config.go:192). */
    method SetKey(k: string, v: Value, ghost skip: set<string>)
      requires Sound(skip) && k !in skip && Room(skip, k, v)
      modifies this`m, this`repr
      ensures m == old(m)[k := ToBigType(v)] && repr == old(repr) + ReprOf(v)
      ensures Sound(skip) && Tree(skip) == Node(false, old(Tree(skip)).kids[k := Big(old(TreeOf(v)))])
    {
      hide Tree;
      TreeIs(skip);
      ghost var t := Tree(skip).kids[k := Big(TreeOf(v))];
      m := m[k := ToBigType(v)];
      repr := repr + ReprOf(v);
      Assemble(skip, t);
    }

    /** The map under k has changed, and nothing else but what it now reaches. */
    twostate lemma Refitted(new skip: set<string>, new k: string)
      requires old(allocated(this)) && old(Sound(skip)) && m == old(m) && k in m && k !in skip && m[k].IsBranch()
      requires repr == old(repr) + m[k].c.repr && m[k].c.Sound({}) && this !in m[k].c.repr
      requires forall o :: o in old(repr) && o != this && o !in old(m[k].c.repr) ==> unchanged(o)
      requires forall j :: j in m && j !in skip && j != k && m[j].IsBranch() ==> old(m[j].c.repr) !! m[k].c.repr
      ensures Sound(skip) && Tree(skip) == Node(false, old(Tree(skip)).kids[k := TreeOf(m[k])])
    {
      hide Merge, PlainKeys, Touches;
      TreeWas(skip);
      ghost var t := old(Tree(skip)).kids[k := TreeOf(m[k])];
      forall j | j in m && j !in skip && j != k && m[j].IsBranch()
        ensures m[j].c in repr && m[j].c.repr == old(m[j].c.repr) && m[j].c.Sound({})
        ensures t[j] == TreeOf(m[j])
      {
        Untouched(m[j]);
      }
      Assemble(skip, t);
    }

    twostate lemma TreeWas(new skip: set<string>)
      requires old(allocated(this)) && old(Sound(skip))
      ensures old(Tree(skip)).kids.Keys == old(m).Keys - skip
      ensures forall k :: k in old(m) && k !in skip ==>
        old(SoundValue(m[k])) && old(Tree(skip)).kids[k] == old(TreeOf(m[k]))
    {
    }

    // ---------------------------------------------------------------- writing below the top

    ghost method ReserveHere(extra: set<Configuration>)
      requires Sound({})
      modifies this
      ensures Sound({}) && Tree({}) == old(Tree({})) && repr == old(repr) + extra && m == old(m)
    {
      hide Tree;
      TreeIs({});
      ghost var t := Tree({}).kids;
      repr := repr + extra;
      Assemble({}, t);
    }

    /** Reserve, from the map below. */
    ghost method ReserveBelow(p: Path, extra: set<Configuration>)
      requires Sound({}) && p != [] && Find(p) != null && extra !! repr
      modifies repr
      ensures Sound({}) && repr == old(repr) + extra && m == old(m)
      ensures p[0] in m && m[p[0]].IsBranch() && m[p[0]].c.Sound({})
      ensures Tree({}) == Node(false, old(Tree({})).kids[p[0] := old(TreeOf(m[p[0]]))])
      ensures forall o :: o in old(repr) ==> o.m == old(o.m)
      ensures var x, d := old(Find(p)), m[p[0]].c;
        && d.Find(p[1..]) == x && x.repr == old(x.repr) + extra && x.Tree({}) == old(x.Tree({}))
      ensures forall k :: k in old(Find(p)).m && old(Find(p)).m[k].IsBranch() ==>
        old(Find(p)).m[k].c.repr == old(Find(p).m[k].c.repr)
      decreases |p|, 0
    {
      hide Tree;
      TreeIs({});
      m[p[0]].c.Reserve(p[1..], extra);
      repr := repr + extra;
      Refitted({}, p[0]);
    }

    /** Lets every map on the way to p account for `extra`. */
    ghost method Reserve(p: Path, extra: set<Configuration>)
      requires Sound({}) && Find(p) != null && extra !! repr
      modifies repr
      ensures Sound({}) && Tree({}) == old(Tree({})) && repr == old(repr) + extra
      ensures forall o :: o in old(repr) ==> o.m == old(o.m)
      ensures Find(p) == old(Find(p)) && Find(p).repr == old(Find(p).repr) + extra
      ensures Find(p).Tree({}) == old(Find(p).Tree({}))
      ensures forall k :: k in Find(p).m && Find(p).m[k].IsBranch() ==> Find(p).m[k].c.repr == old(Find(p).m[k].c.repr)
      decreases |p|, 1
    {
      hide Tree;
      TreeIs({});
      ghost var t := Tree({}).kids;
      if p == [] {
        ReserveHere(extra);
      } else {
        ReserveBelow(p, extra);
        assert t[p[0] := t[p[0]]] == t;
      }
    }

    /** Only the map at p has changed. */
    twostate lemma {:induction false} Attached(new p: Path, new x: Configuration)
      requires old(allocated(this)) && old(allocated(p)) && old(Sound({})) && old(Find(p)) == x
      requires forall o :: o in old(repr) && o != x ==> unchanged(o)
      requires x.repr == old(x.repr) && x.Sound({})
      ensures Sound({}) && repr == old(repr) && Find(p) == x
      ensures At(old(Tree({})), p).Some? && Tree({}) == Regrown(old(Tree({})), p, x.Tree({}).kids)
      decreases |p|
    {
      hide Tree, Regrown;
      if p == [] {
        RegrownTop(old(Tree({})), Tree({}).kids);
      } else {
        var d := m[p[0]].c;
        FoundInside(p);
        d.Attached(p[1..], x);
        Refitted({}, p[0]);
        TreeWas({});
        RegrownKid(old(Tree({})), p, x.Tree({}).kids);
        RegrownTag(old(d.Tree({})), p[1..], x.Tree({}).kids);
      }
    }

    twostate lemma FoundInside(new p: Path)
      requires old(allocated(this)) && old(allocated(p)) && old(Sound({})) && old(Find(p)) != null && p != []
      ensures p[0] in old(m) && old(m)[p[0]].IsBranch()
      ensures old(Find(p)) != this && old(Find(p)) in old(m[p[0]].c.repr) && old(m[p[0]].c.Find(p[1..])) == old(Find(p))
    {
    }

    /** cfg.Set(k, v), for the map cfg at p and a key without a dot. */
    method SetBelow(cfg: Configuration, k: string, v: Value, ghost p: Path)
      requires Sound({}) && Find(p) == cfg && SoundValue(v) && ReprOf(v) !! repr
      modifies repr
      ensures Sound({}) && repr == old(repr) + ReprOf(v) && Find(p) == cfg
      ensures cfg.m == old(cfg.m)[k := ToBigType(v)]
      ensures Tree({}) == Put(old(Tree({})), p + [k], Big(old(TreeOf(v))))
    {
      hide Tree, Regrown, Put, At;
      FindAt(p);
      PutInto(Tree({}), p, k, Big(TreeOf(v)));
      Reserve(p, ReprOf(v));
      FindAt(p);
      label Before:
      cfg.SetKey(k, v, {});
      assert cfg.repr == old@Before(cfg.repr);
      Attached@Before(p, cfg);
      RegrownIs(old(Tree({})), p, cfg.Tree({}).kids);
    }

    /** The walk of MakeBranch along a path (config.go:211-223). */
    method Walk(splitname: seq<string>) returns (cfg: Configuration)
      requires Sound({}) && Solid(splitname) && forall j :: 0 <= j < |splitname| ==> '.' !in splitname[j]
      modifies repr
      ensures Sound({}) && fresh(repr - old(repr))
      ensures cfg == Find(splitname) && Tree({}) == Made(old(Tree({})), splitname)
    {
      hide Tree, Put, At, Made, Find;
      ghost var t := Tree({});
      cfg := this;
      MadeTop(t, splitname[..0]);
      FindTop(splitname[..0]);
      for j := 0 to |splitname|
        invariant Sound({}) && cfg == Find(splitname[..j]) && Tree({}) == Made(t, splitname[..j])
        invariant fresh(repr - old(repr))
      {
        var k := splitname[j];
        ghost var p := splitname[..j];
        assert splitname[..j + 1] == p + [k];
        FindMore(p, k);
        FindAt(p);
        FindKey(p, k);
        MadeStep(t, p, k);
        MadeBelow(Tree({}), p, k);
        cfg.TreeIs({});
        var tmpcfg := cfg.Branch(k);
        if tmpcfg == null {
          tmpcfg := new Configuration();
          SetBelow(cfg, k, Conf(tmpcfg), p);
          FindMore(p, k);
        }
        cfg := tmpcfg;
      }
      assert splitname[..|splitname|] == splitname;
    }

    lemma FindTop(p: Path)
      requires Sound({}) && p == []
      ensures Find(p) == this
    {
    }

    /** MakeBranch (config.go:198-230).  It fails exactly if a value stands at the path itself, and
        then changes nothing; values further up give way to branches. */
    method MakeBranch(name: string) returns (cfg: Configuration?, err: Option<Error>)
      requires Sound({}) && GoodKey(name)
      modifies repr
      ensures Sound({}) && fresh(repr - old(repr))
      ensures var was := At(old(Tree({})), PathOf(name));
        if was.Some? && was.value.Leaf?
        then cfg == null && err == Some(BranchKeyExists) && Tree({}) == old(Tree({}))
        else err == None && cfg != null && cfg == Find(PathOf(name)) && Tree({}) == Made(old(Tree({})), PathOf(name))
    {
      hide Tree, Put, At, Made, PathOf, Interface;
      ghost var t, path := Tree({}), PathOf(name);
      var i := Interface(name);
      InterfaceAt(name);
      PlainPath(name);
      FindAt(path);
      MadeAt(t, path);
      if i != Null {
        if i.IsBranch() {
          cfg, err := i.c, None;
        } else {
          cfg, err := null, Some(BranchKeyExists);
        }
      } else if '.' in name {
        var splitname := Split(name, '.');
        assert splitname == path by { PathIs(name); }
        SolidPath(name);
        cfg := Walk(splitname);
        err := None;
      } else {
        cfg := new Configuration();
        err := None;
        assert [] + [name] == path;
        FindMore([], name);
        FindKey([], name);
        AtTop(t);
        MadeBelow(t, [], name);
        TreeIs({});
        SetBelow(this, name, Conf(cfg), []);
        FindMore([], name);
      }
    }

    /** Set (config.go:175-196).  It either puts the value at the key's path, after which the key
        reads back, or fails and changes nothing; paths that do not run along the key's are as they
        were in any case. */
    method Set(name: string, value: Value) returns (err: Option<Error>)
      requires Sound({}) && GoodKey(name) && SoundValue(value) && ReprOf(value) !! repr
      modifies repr
      ensures Sound({}) && fresh(repr - old(repr) - ReprOf(value))
      ensures err == SetFails(old(Tree({})), PathOf(name))
      ensures err == None ==> Interface(name) == ToBigType(value)
      ensures err == None ==> Tree({}) == Put(old(Tree({})), PathOf(name), Big(old(TreeOf(value))))
      ensures err != None ==> Tree({}) == old(Tree({}))
      ensures forall q: Path :: !(q <= PathOf(name)) && !(PathOf(name) <= q) ==> At(Tree({}), q) == At(old(Tree({})), q)
    {
      hide Sound, Tree, Put, At, Made, PathOf, Find, Interface, SplitBranchKey, SetFails;
      OwnRepr(value);
      ghost var t, path, v := Tree({}), PathOf(name), Big(TreeOf(value));
      PlainPath(name);
      if '.' in name {
        err := SetDotted(name, value);
      } else {
        err := None;
        FindTop([]);
        AtTop(t);
        assert [] + [name] == path && path[..0] == [];
        SetOutcome(t, [], name);
        SetBelow(this, name, value, []);
        ReadsBack(name, [], name);
      }
      PutElsewhere(t, path, v);
    }

    /** The branch for a dotted key (config.go:177-190). */
    method SetDotted(name: string, value: Value) returns (err: Option<Error>)
      requires Sound({}) && '.' in name && GoodKey(name) && SoundValue(value) && ReprOf(value) !! repr
      modifies repr
      ensures Sound({}) && fresh(repr - old(repr) - ReprOf(value))
      ensures err == SetFails(old(Tree({})), PathOf(name))
      ensures err == None ==> Interface(name) == ToBigType(value)
      ensures err == None ==> Tree({}) == Put(old(Tree({})), PathOf(name), Big(old(TreeOf(value))))
      ensures err != None ==> Tree({}) == old(Tree({}))
    {
      hide Sound, Tree, Put, At, Made, PathOf, Find, Interface, SplitBranchKey, SplitLastN.SplitLast, SetFails;
      OwnRepr(value);
      ghost var t, path, v := Tree({}), PathOf(name), Big(TreeOf(value));
      ghost var init, last := path[..|path| - 1], path[|path| - 1];
      PlainPath(name);
      assert init + [last] == path;
      SetOutcome(t, init, last);
      LastDot(name);
      SolidParts(path, |path| - 1);
      var splitname := SplitLastN.StringSplitLastN(name, ".", 2);
      assert PathOf(splitname[0]) == init && splitname[1] == last;
      var cfg;
      cfg, err := MakeBranch(splitname[0]);
      if err == None {
        FindKey(init, last);
        PutMade(t, init, last, v);
        err := SetLast(cfg, splitname[1], value, init);
        if err == None { ReadsBack(name, init, last); }
      }
    }

    /** The last segment of a dotted key (config.go:180-190), in the map at `init`. */
    method SetLast(cfg: Configuration, last: string, value: Value, ghost init: Path) returns (err: Option<Error>)
      requires Sound({}) && Find(init) == cfg && '.' !in last && SoundValue(value) && ReprOf(value) !! repr
      modifies repr
      ensures Sound({}) && Find(init) == cfg
      ensures err == if last in old(cfg.m) && old(cfg.m)[last].RawMap? then Some(ValueIsBranch) else None
      ensures err == None ==> repr == old(repr) + ReprOf(value) && cfg.m == old(cfg.m)[last := ToBigType(value)]
      ensures err == None ==> Tree({}) == Put(old(Tree({})), init + [last], Big(old(TreeOf(value))))
      ensures err != None ==> repr == old(repr) && Tree({}) == old(Tree({}))
    {
      hide Tree, Put, At, Find, Interface;
      InPlace(init);
      KeyOfMap(cfg, last);
      var preval := cfg.Interface(last);
      if preval.RawMap? {
        err := Some(ValueIsBranch);
      } else {
        err := None;
        SetBelow(cfg, last, ToBigType(value), init);
      }
    }

    lemma InPlace(p: Path)
      requires Sound({}) && Find(p) != null
      ensures Find(p) in repr && Find(p).Sound({})
    {
    }

    lemma ReadsBack(name: string, init: Path, last: string)
      requires Sound({}) && GoodKey(name) && PathOf(name) == init + [last] && Find(init) != null
      ensures Interface(name) == if last in Find(init).m then Find(init).m[last] else Null
    {
      hide Tree, At, SplitLastN.SplitLast;
      PlainPath(name);
      assert (init + [last])[..|init|] == init;
      if '.' in name {
        LastDot(name);
        SolidParts(PathOf(name), |init|);
        BranchFinds(SplitLastN.SplitLast(name, ".", 2)[0]);
      } else {
        assert init == [];
      }
    }

    lemma KeyOfMap(cfg: Configuration, k: string)
      requires cfg.Sound({}) && '.' !in k
      ensures cfg.Interface(k) == if k in cfg.m then cfg.m[k] else Null
    {
    }

    /** Everything in cc is here: each value, widened, and for each branch the same map or one that has
        absorbed it. */
    ghost predicate Absorbs(cc: Configuration)
      requires Sound({}) && cc.Sound({})
      reads this, repr, cc, cc.repr
      decreases cc.repr
    {
      forall k :: k in cc.m ==>
        && k in m
        && if cc.m[k].IsBranch()
           then m[k].IsBranch() && (m[k].c == cc.m[k].c || m[k].c.Absorbs(cc.m[k].c))
           else m[k] == ToBigType(cc.m[k])
    }

    lemma AbsorbsKey(cc: Configuration, k: string)
      requires Sound({}) && cc.Sound({}) && Absorbs(cc) && k in cc.m
      ensures k in m && SoundValue(m[k]) && SoundValue(cc.m[k]) && Takes(m[k], cc.m[k])
    {
      hide Tree;
      SoundKid({}, k);
      cc.SoundKid({}, k);
    }

    /** Merges cc into the map under k; `again` says that the map has absorbed it, or is it. */
    method UpdateChild(k: string, cc: Configuration, ghost skip: set<string>, ghost again: bool)
      requires Sound(skip) && k in m && k !in skip && m[k].IsBranch() && cc.Sound({}) && PlainKeys(cc.Tree({}))
      requires if again then skip == {} && (m[k].c == cc || m[k].c.Absorbs(cc))
        else Room(skip, k, Conf(cc)) && m[k].c.repr !! cc.repr
      modifies this, m[k].c.repr
      ensures again ==> forall o :: o in old(repr) ==> unchanged(o)
      ensures !again ==> Sound(skip) && m == old(m) && repr == old(repr) + m[k].c.repr
      ensures !again ==> Tree(skip) == Node(false, old(Tree(skip)).kids[k := TreeOf(m[k])])
      ensures !again ==> TreeOf(m[k]) == Merge(old(TreeOf(m[k])), old(cc.Tree({})))
      ensures !again ==> fresh(m[k].c.repr - old(m[k].c.repr) - cc.repr) && m[k].c.Absorbs(cc)
      ensures !again && NoClash(old(TreeOf(m[k])), old(cc.Tree({}))) ==> fresh(m[k].c.repr - old(m[k].c.repr))
      decreases cc.repr, 1
    {
      hide Merge, PlainKeys, Touches, Absorbs, NoClash;
      ClashTag(m[k].c.Tree({}), cc.Tree({}));
      var b := m[k].c;
      MergeTag(b.Tree({}), cc.Tree({}));
      SoundKid(skip, k);
      b.Update(cc, {}, again && b != cc);
      if again { assert repr + b.repr == repr; }
      repr := repr + b.repr;
      if !again { Refitted(skip, k); }
    }

    /** Merges cc into a new map under k. */
    method UpdateNew(k: string, cc: Configuration, ghost skip: set<string>)
      requires Sound(skip) && k !in skip && Room(skip, k, Conf(cc)) && PlainKeys(cc.Tree({}))
      modifies this
      ensures Sound(skip) && k in m && m == old(m)[k := m[k]] && repr == old(repr) + ReprOf(m[k])
      ensures Tree(skip) == Node(false, old(Tree(skip)).kids[k := Merge(EMPTY, old(cc.Tree({})))])
      ensures fresh(ReprOf(m[k]))
      ensures m[k].IsBranch() && m[k].c.Sound({}) && m[k].c.Absorbs(cc)
      decreases cc.repr, 2
    {
      hide Sound, Merge, PlainKeys, Touches, Tree, Absorbs, NoClash;
      SelfIn(skip);
      cc.SelfIn({});
      NothingClashes(EMPTY, cc.Tree({}));
      TreeIs(skip);
      ghost var t := Tree(skip).kids;
      var newb := new Configuration();
      SetKey(k, Conf(newb), skip);
      UpdateChild(k, cc, skip, false);
      SoundKid(skip, k);
      OwnRepr(m[k]);
      SetTwice(t, k, EMPTY, TreeOf(m[k]));
    }

    /** One turn of Update's loop (config.go:147-171), for a key without a dot.  A value that has been
        taken already changes nothing. */
    method UpdateKey(k: string, v: Value, ghost skip: set<string>, ghost again: bool)
      requires Sound(skip) && k !in skip && SoundValue(v) && PlainKey(k) && PlainKeys(TreeOf(v))
      requires if again then skip == {} && k in m && SoundValue(m[k]) && Takes(m[k], v)
        else Room(skip, k, v) && (k in m && m[k].IsBranch() ==> m[k].c.repr !! ReprOf(v))
      modifies this, if k in m && m[k].IsBranch() then m[k].c.repr else {}
      ensures again ==> forall o :: o in old(repr) ==> unchanged(o)
      ensures !again ==> Sound(skip) && k in m && m == old(m)[k := m[k]] && repr == old(repr) + ReprOf(m[k])
      ensures !again ==>
        Tree(skip) == Node(false, old(Tree(skip)).kids[k := Merge(Kid(old(Tree(skip)), k), old(TreeOf(v)))])
      ensures !again ==> fresh(ReprOf(m[k]) - (if k in old(m) then old(ReprOf(m[k])) else {}) - ReprOf(v))
      ensures !again && NoClash(Kid(old(Tree(skip)), k), old(TreeOf(v))) ==>
        fresh(ReprOf(m[k]) - (if k in old(m) then old(ReprOf(m[k])) else {}))
      ensures !again ==> SoundValue(m[k]) && SoundValue(v) && Takes(m[k], v)
      decreases ReprOf(v), 3
    {
      hide Merge, PlainKeys, Touches, Tree, Absorbs, NoClash;
      TreeIs(skip);
      ghost var t, x, y := Tree(skip).kids, Kid(Tree(skip), k), TreeOf(v);
      MergeTop(x, y);
      if v.IsBranch() {
        MergeValue(x, y, v.c.Tree({}));
        ClashValue(x, y, v.c.Tree({}));
        var b := if k in m && m[k].IsBranch() then m[k].c else null;
        if b == null {
          if k in m && m[k].Atomic? {
            SetKey(k, v, skip);
          } else {
            UpdateNew(k, v.c, skip);
          }
        } else {
          UpdateChild(k, v.c, skip, again);
        }
      } else {
        if again { assert m[k := ToBigType(v)] == m && repr + ReprOf(v) == repr; }
        SetKey(k, v, skip);
        assert again ==> unchanged(this);
      }
      assert !again ==> Tree(skip) == Node(false, t[k := Merge(x, y)]);
    }

    /** Where Update stands after some keys of cc: what is under the other keys is as it was and apart
        from cc; what is under those shares with cc no more than what cc has there. */
    ghost predicate Midway(cc: Configuration, skip: set<string>, was: set<Configuration>, done: set<string>)
      reads this, repr, cc, cc.repr
    {
      && Sound(skip) && cc.Sound({}) && was !! cc.repr && this in was && this !in cc.repr
      && done <= cc.m.Keys && cc.m.Keys !! skip
      && (forall k :: k in m && k !in skip && k !in done && m[k].IsBranch() ==> m[k].c.repr <= was)
      && (forall k :: k in m && k !in skip && k in done && m[k].IsBranch() ==> m[k].c.repr * cc.repr <= ReprOf(cc.m[k]))
    }

    /** And it has absorbed what is under those. */
    ghost predicate Taken(cc: Configuration, done: set<string>)
      reads this, repr, cc, cc.repr
    {
      forall k :: k in done ==>
        && k in m && k in cc.m
        && (m[k].IsBranch() ==> m[k].c in repr && m[k].c.repr <= repr)
        && (cc.m[k].IsBranch() ==> cc.m[k].c in cc.repr && cc.m[k].c.repr <= cc.repr)
        && SoundValue(m[k]) && SoundValue(cc.m[k]) && Takes(m[k], cc.m[k])
    }

    lemma MidwayRoom(cc: Configuration, skip: set<string>, was: set<Configuration>, done: set<string>, k: string)
      requires Midway(cc, skip, was, done) && k in cc.m && k !in done
      ensures k !in skip && Room(skip, k, cc.m[k]) && ReprOf(cc.m[k]) <= cc.repr && ReprOf(cc.m[k]) < cc.repr
      ensures this !in cc.repr && was !! cc.repr
      ensures k in m && m[k].IsBranch() ==> m[k].c.repr !! ReprOf(cc.m[k]) && m[k].c.repr <= was
    {
      hide Tree;
      cc.SoundKid({}, k);
      forall j | j in m && j !in skip && j != k && m[j].IsBranch() ensures m[j].c.repr !! ReprOf(cc.m[k]) {
        if j in done { cc.SoundKids(j, k); }
      }
    }

    lemma SoundKid(skip: set<string>, k: string)
      requires Sound(skip) && k in m && k !in skip
      ensures SoundValue(m[k]) && ReprOf(m[k]) < repr && this !in ReprOf(m[k])
      ensures m[k].IsBranch() ==> m[k].c in repr
    {
    }

    lemma SoundKids(j: string, k: string)
      requires Sound({}) && j in m && k in m && j != k
      ensures ReprOf(m[j]) !! ReprOf(m[k])
    {
    }

    twostate lemma MidwayNext(new cc: Configuration, new skip: set<string>, new was: set<Configuration>,
                              new done: set<string>, new k: string)
      requires old(allocated(this)) && old(allocated(cc)) && old(allocated(was)) && old(Midway(cc, skip, was, done))
      requires k in old(cc.m) && k !in done
      requires Sound(skip) && k in m && m == old(m)[k := m[k]]
      requires forall o :: o in old(repr) && o != this && !(k in old(m) && o in old(ReprOf(m[k]))) ==> unchanged(o)
      requires forall o :: o in old(cc.repr) ==> unchanged(o)
      requires forall o :: o in ReprOf(m[k]) ==>
        (k in old(m) && o in old(ReprOf(m[k]))) || o in ReprOf(cc.m[k]) || !old(allocated(o))
      ensures Midway(cc, skip, was, done + {k})
    {
      hide Tree;
      assert unchanged(cc) && cc.Sound({});
      forall j | j in m && j !in skip && j != k && m[j].IsBranch() ensures m[j].c.repr == old(m[j].c.repr) {
        SiblingWas(skip, j, k);
        assert unchanged(m[j].c);
      }
      NextReprs(cc, was, k);
    }

    twostate lemma TakenNext(new cc: Configuration, new skip: set<string>, new was: set<Configuration>,
                             new done: set<string>, new k: string)
      requires old(allocated(this)) && old(allocated(cc)) && old(allocated(was)) && old(Midway(cc, skip, was, done))
      requires k in old(cc.m) && k !in done && old(Taken(cc, done))
      requires Sound(skip) && cc.Sound({}) && k in m && m == old(m)[k := m[k]] && repr == old(repr) + ReprOf(m[k])
      requires forall o :: o in old(repr) && o != this && !(k in old(m) && o in old(ReprOf(m[k]))) ==> unchanged(o)
      requires unchanged(cc) && forall o :: o in old(cc.repr) ==> unchanged(o)
      requires SoundValue(m[k]) && SoundValue(cc.m[k]) && Takes(m[k], cc.m[k])
      ensures Taken(cc, done + {k})
    {
      hide Tree, Takes, Absorbs, Sound;
      cc.SoundKid({}, k);
      KeyOutside(cc, skip, was, done, k);
      SoundKid(skip, k);
      forall j | j in done
        ensures SoundValue(m[j]) && SoundValue(cc.m[j]) && Takes(m[j], cc.m[j])
        ensures m[j].IsBranch() ==> m[j].c in repr && m[j].c.repr <= repr
      {
        KeyOutside(cc, skip, was, done, j);
        if m[j].IsBranch() { SiblingWas(skip, j, k); }
        TakesStill(m[j], cc.m[j]);
      }
    }

    twostate lemma KeyOutside(new cc: Configuration, new skip: set<string>, new was: set<Configuration>,
                              new done: set<string>, new j: string)
      requires old(allocated(this)) && old(allocated(cc)) && old(allocated(was)) && old(Midway(cc, skip, was, done))
      requires j in old(cc.m)
      ensures old(Sound(skip)) && old(cc.Sound({})) && j !in skip
    {
    }

    twostate lemma SiblingWas(new skip: set<string>, new j: string, new k: string)
      requires old(allocated(this)) && old(Sound(skip)) && j in old(m) && j !in skip && j != k && k !in skip
      requires old(m)[j].IsBranch()
      ensures old(m)[j].c in old(repr) && old(m)[j].c != this
      ensures k in old(m) ==> old(m)[j].c !in old(ReprOf(m[k]))
      ensures forall o :: o in old(m[j].c.repr) ==>
        o in old(repr) && o != this && !(k in old(m) && o in old(ReprOf(m[k])))
    {
    }

    /** What is under k now shares with cc only what cc has there. */
    twostate lemma NextReprs(new cc: Configuration, new was: set<Configuration>, new k: string)
      requires old(allocated(this)) && old(allocated(cc)) && old(allocated(was)) && k in m && k in cc.m
      requires cc.repr == old(cc.repr) && was !! cc.repr
      requires k in old(m) && old(m)[k].IsBranch() ==> old(m[k].c.repr) <= was
      requires forall o :: o in ReprOf(m[k]) ==>
        (k in old(m) && o in old(ReprOf(m[k]))) || o in ReprOf(cc.m[k]) || !old(allocated(o))
      ensures m[k].IsBranch() ==> m[k].c.repr * cc.repr <= ReprOf(cc.m[k])
    {
    }

    /** Update (config.go:141-173).  Whatever order the keys of cc are visited in, the outcome is the
        merge; cc, if it shares no map with this one, is left as it is, and is absorbed.  What has been
        absorbed (`again`), sharing or not, changes nothing, down to the last map. */
    method Update(cc: Configuration, ghost skip: set<string>, ghost again: bool)
      requires Sound(skip) && cc.Sound({}) && PlainKeys(cc.Tree({}))
      requires if again then skip == {} && Absorbs(cc) else cc == this || (cc.repr !! repr && cc.m.Keys !! skip)
      modifies repr
      ensures Sound(skip)
      ensures again || cc == this ==> forall o :: o in old(repr) ==> unchanged(o)
      ensures !again && cc != this ==> Tree(skip) == Merge(old(Tree(skip)), old(cc.Tree({})))
      ensures !again && cc != this ==> cc.Sound({}) && cc.Tree({}) == old(cc.Tree({}))
      ensures !again && cc != this && skip == {} ==> Absorbs(cc)
      ensures !again && cc != this && NoClash(old(Tree(skip)), old(cc.Tree({}))) ==> fresh(repr - old(repr))
      ensures fresh(repr - old(repr) - old(cc.repr))
      ensures forall k :: k in skip ==> (k in m <==> k in old(m)) && (k in m ==> m[k] == old(m)[k])
      decreases cc.repr, 0
    {
      hide Merge, Only, PlainKeys, Touches, Partly, Tree, Absorbs, NoClash;
      if cc == this { return; }
      ghost var x, y, all, was := Tree(skip), cc.Tree({}), cc.m.Keys, repr;
      var todo := cc.m.Keys;
      assert all - todo == {};
      if !again { StartPartly(cc, skip, x, y); }
      while todo != {}
        invariant todo <= all && cc.m.Keys == all && cc.Sound({}) && cc.Tree({}) == y && Sound(skip)
        invariant again ==> Absorbs(cc) && forall o :: o in was ==> unchanged(o)
        invariant again ==> repr == was
        invariant !again ==> Partly(cc, skip, was, x, y, all - todo)
        invariant fresh(repr - was - cc.repr) && (!again && NoClash(x, y) ==> fresh(repr - was))
        invariant forall k :: k in skip ==> (k in m <==> k in old(m)) && (k in m ==> m[k] == old(m)[k])
      {
        var k :| k in todo;
        assert all - todo + {k} == all - (todo - {k});
        if again {
          AbsorbsKey(cc, k);
          SoundKid({}, k);
        } else {
          PartlyKey(cc, skip, was, x, y, all - todo, k);
        }
        UpdateTurn(cc, k, skip, again, was, x, y, all - todo);
        todo := todo - {k};
      }
      assert all - todo == all;
      if !again { EndPartly(cc, skip, was, x, y, all - todo); }
    }

    /** Midway, with the tree so far. */
    ghost predicate Partly(cc: Configuration, skip: set<string>, was: set<Configuration>, x: Tree, y: Tree,
                           done: set<string>)
      reads this, repr, cc, cc.repr
    {
      && Midway(cc, skip, was, done) && Taken(cc, done)
      && x.Node? && !x.raw && y.Node? && Sound(skip) && Tree(skip) == Merge(x, Only(y, done))
    }

    method UpdateTurn(cc: Configuration, k: string, ghost skip: set<string>, ghost again: bool,
                      ghost was: set<Configuration>, ghost x: Tree, ghost y: Tree, ghost done: set<string>)
      requires Sound(skip) && cc.Sound({}) && PlainKeys(y) && k in cc.m && k !in done && cc.Tree({}) == y
      requires if again then skip == {} && Absorbs(cc) && repr == was else Partly(cc, skip, was, x, y, done)
      requires k !in skip && this in was && (k in m && m[k].IsBranch() ==> m[k].c.repr <= was)
      modifies this, if k in m && m[k].IsBranch() then m[k].c.repr else {}
      ensures Sound(skip) && cc.Sound({}) && cc.Tree({}) == y && cc.m == old(cc.m) && cc.repr == old(cc.repr)
      ensures again ==> Absorbs(cc) && forall o :: o in was ==> unchanged(o)
      ensures !again ==> Partly(cc, skip, was, x, y, done + {k})
      ensures k in m && m == old(m)[k := m[k]] && fresh(repr - old(repr) - cc.repr)
      ensures !again && NoClash(x, y) ==> fresh(repr - old(repr))
      decreases cc.repr, 0, 1
    {
      hide Merge, Only, PlainKeys, Touches, Midway, Taken, Room, Tree, Absorbs, Takes, NoClash;
      var v := cc.m[k];
      cc.TreeIs({});
      cc.SoundKid({}, k);
      PlainKid(y, k);
      if again {
        AbsorbsKey(cc, k);
      } else {
        MergeOneMore(x, y, done, k);
        ClashKid(x, y, k);
        MidwayRoom(cc, skip, was, done, k);
      }
      label Turn:
      UpdateKey(k, v, skip, again);
      if !again {
        MidwayNext@Turn(cc, skip, was, done, k);
        TakenNext@Turn(cc, skip, was, done, k);
      }
    }

    lemma PartlyKey(cc: Configuration, skip: set<string>, was: set<Configuration>, x: Tree, y: Tree,
                    done: set<string>, k: string)
      requires Partly(cc, skip, was, x, y, done) && k in cc.m && k !in done
      ensures k !in skip && this in was && (k in m && m[k].IsBranch() ==> m[k].c.repr <= was)
    {
      hide Merge, Only, Tree, Taken;
      MidwayRoom(cc, skip, was, done, k);
    }

    lemma StartPartly(cc: Configuration, skip: set<string>, x: Tree, y: Tree)
      requires Sound(skip) && cc.Sound({}) && cc.repr !! repr && cc.m.Keys !! skip
      requires x == Tree(skip) && y == cc.Tree({})
      ensures Partly(cc, skip, repr, x, y, {})
    {
      hide Merge, Only, Tree, Midway, Taken;
      StartMidway(cc, skip);
      MergeNone(x, y, {});
    }

    lemma EndPartly(cc: Configuration, skip: set<string>, was: set<Configuration>, x: Tree, y: Tree, done: set<string>)
      requires Partly(cc, skip, was, x, y, done) && cc.Sound({}) && cc.Tree({}) == y && done == cc.m.Keys
      ensures Tree(skip) == Merge(x, y) && (skip == {} ==> Absorbs(cc))
    {
      hide Merge, Only, Tree, Midway, Taken, Absorbs;
      cc.TreeIs({});
      OnlyAll(y, done);
      if skip == {} { EndTaken(cc, done); }
    }

    lemma EndTaken(cc: Configuration, done: set<string>)
      requires Sound({}) && cc.Sound({}) && Taken(cc, done) && cc.m.Keys <= done
      ensures Absorbs(cc)
    {
    }

    /** Repeating an update changes nothing, down to the last map, although the two share the maps that
        took the place of a value. */
    method UpdateTwice(cc: Configuration)
      requires Sound({}) && cc.Sound({}) && PlainKeys(cc.Tree({})) && cc.repr !! repr
      modifies repr, cc.repr
      ensures Sound({}) && Tree({}) == Merge(old(Tree({})), old(cc.Tree({})))
      ensures cc.Sound({}) && cc.Tree({}) == old(cc.Tree({})) && Absorbs(cc)
    {
      hide Merge, PlainKeys, Tree, Absorbs;
      Update(cc, {}, false);
      Update(cc, {}, true);
    }

    /** Repeating it with a copy of the argument changes nothing but, where a branch had replaced a value,
        the width of numbers. */
    method UpdateAgain(cc: Configuration, copy: Configuration)
      requires Sound({}) && cc.Sound({}) && PlainKeys(cc.Tree({})) && cc.repr !! repr
      requires copy.Sound({}) && copy.Tree({}) == cc.Tree({}) && copy.repr !! repr && copy.repr !! cc.repr
      modifies repr, cc.repr
      ensures Sound({}) && Normal(Tree({})) == Normal(Merge(old(Tree({})), old(cc.Tree({}))))
    {
      hide Merge, PlainKeys, Tree, Normal, Absorbs;
      MergeAgain(Tree({}), cc.Tree({}));
      Update(cc, {}, false);
      Update(copy, {}, false);
    }

    // ---------------------------------------------------------------- parsing

    /** One turn of parseInclude's loop (config.go:1012-1020). */
    method IncludeKey(k: string, v: Value)
      requires Sound({}) && Room({}, k, v) && PlainKey(k) && PlainKeys(TreeOf(v)) && k != INCLUDE
      requires v.RawMap? && k != SWITCH ==> IncludeFree(TreeOf(v))
      modifies this
      ensures Sound({}) && k in m && m == old(m)[k := m[k]] && repr == old(repr) + ReprOf(m[k])
      ensures Tree({}) == Node(false, old(Tree({})).kids[k := IncludedKey(old(TreeOf(v)), k)])
      ensures fresh(ReprOf(m[k]) - ReprOf(v))
      decreases ReprOf(v), 2
    {
      hide Sound, Room, Included, IncludeFree, PlainKeys, Merge, Tree;
      SelfIn({});
      if v.RawMap? && k != SWITCH {
        RoomSound(k, v);
        IncludedTag(EMPTY, v.c.Tree({}));
        MergeValue(Nil, TreeOf(v), v.c.Tree({}));
        var cfg := Copied(v.c);
        RoomLike(k, v, Conf(cfg));
        SetKey(k, Conf(cfg), {});
      } else if k != INCLUDE {
        SetKey(k, v, {});
      }
    }

    lemma RoomSound(k: string, v: Value)
      requires Sound({}) && Room({}, k, v)
      ensures SoundValue(v)
    {
    }

    lemma RoomLike(k: string, v: Value, w: Value)
      requires Sound({}) && Room({}, k, v) && SoundValue(w) && ReprOf(w) - ReprOf(v) !! repr
      ensures Room({}, k, w)
    {
    }

    /** A raw map as a Configuration of its own. */
    method Copied(src: Configuration) returns (cfg: Configuration)
      requires src.Sound({}) && PlainKeys(src.Tree({})) && IncludeFree(src.Tree({}))
      ensures fresh(cfg) && cfg.Sound({}) && cfg.Tree({}) == Included(EMPTY, src.Tree({}))
      ensures fresh(cfg.repr - src.repr)
      decreases src.repr, 1
    {
      hide Sound, Tree, Included, IncludeFree, PlainKeys;
      cfg := new Configuration();
      cfg.ParseInclude(src);
    }

    /** parseInclude (config.go:1011-1020), on a map without `__include__`.  Maps are copied into
        Configurations; a switch is taken over as it is. */
    method ParseInclude(src: Configuration)
      requires Sound({}) && src.Sound({}) && src.repr !! repr
      requires PlainKeys(src.Tree({})) && IncludeFree(src.Tree({}))
      modifies this
      ensures Sound({}) && Tree({}) == Included(old(Tree({})), old(src.Tree({})))
      ensures fresh(repr - old(repr) - src.repr)
      decreases src.repr, 0
    {
      hide Included, IncludedKey, Only, PlainKeys, IncludeFree, Midway, Room, Tree;
      ghost var x, y, all, was := Tree({}), src.Tree({}), src.m.Keys, repr;
      var todo := src.m.Keys;
      src.TreeIs({});
      IncludeNone(x, y, all - todo);
      StartMidway(src, {});
      assert all - todo == {};
      while todo != {}
        invariant todo <= all && src.m.Keys == all && src.Sound({}) && src.Tree({}) == y
        invariant Sound({}) && Midway(src, {}, was, all - todo)
        invariant Tree({}) == Included(x, Only(y, all - todo))
        invariant fresh(repr - was - src.repr)
      {
        var k :| k in todo;
        var v := src.m[k];
        src.TreeIs({});
        IncludeOneMore(x, y, all - todo, k);
        PlainKid(y, k);
        FreeKid(y, k);
        MidwayRoom(src, {}, was, all - todo, k);
        assert all - todo + {k} == all - (todo - {k});
        label Turn:
        IncludeKey(k, v);
        MidwayNext@Turn(src, {}, was, all - todo, k);
        todo := todo - {k};
      }
      OnlyAll(y, all - todo);
    }

    /** The string entries of this map. */
    function TopStrings(): map<string, string>
      reads this
    {
      StringsIn(m)
    }

    lemma TopStringsAre()
      requires Sound({})
      ensures TopStrings() == Strings(Tree({}))
    {
      TreeIs({});
    }

    /** String with an empty default (config.go:357-370) */
    method String(key: string) returns (res: string)
      requires '.' in key ==> Sound({}) && GoodKey(key)
      ensures '.' !in key ==> res == if key in TopStrings() then TopStrings()[key] else ""
      ensures '.' in key ==>
        res == match At(Tree({}), PathOf(key)) case Some(Leaf(Str(s))) => s case _ => ""
    {
      if '.' in key { InterfaceAt(key); }
      var val := Interface(key);
      res := if val.Atomic? && val.a.Str? then val.a.s else "";
    }

    /** The case of a switch (config.go:1074-1096), looked up in the strings of this map. */
    method SelectCase(m2: Configuration, ghost raw: bool) returns (cfg: Configuration?)
      requires m2.Sound({}) && TameSwitch(Node(raw, m2.Tree({}).kids))
      ensures var r := SelectedIn(TopStrings(), Node(raw, m2.Tree({}).kids));
        && (cfg == null <==> r.None?)
        && (cfg != null ==> cfg.repr <= m2.repr && cfg.Sound({}) && r.value.Node? && cfg.Tree({}).kids == r.value.kids)
    {
      hide Tree, Sound, TameSwitch, StringsIn, Strings, CaseName;
      m2.StringsAre(raw);
      TameKey(Node(raw, m2.Tree({}).kids));
      cfg := null;
      if KEY in m2.m && m2.m[KEY].Atomic? && m2.m[KEY].a.Str? {
        m2.StringAt(KEY);
        var selected := CaseOf(m2);
        m2.KidIs(selected);
        if selected in m2.m && m2.m[selected].IsBranch() {
          cfg := m2.m[selected].c;
        }
      } else {
        m2.StringAt(KEY);
      }
    }

    /** The name of the case (config.go:1080-1086). */
    method CaseOf(m2: Configuration) returns (selected: string)
      requires KEY in m2.TopStrings() && '.' !in m2.TopStrings()[KEY]
      ensures selected == CaseName(TopStrings(), m2.TopStrings())
    {
      m2.StringAt(KEY);
      m2.StringAt(DEFAULT);
      selected := String(m2.m[KEY].a.s);
      if selected == "" && DEFAULT in m2.m {
        selected := if m2.m[DEFAULT].Atomic? && m2.m[DEFAULT].a.Str? then m2.m[DEFAULT].a.s else "";
      }
    }

    lemma StringsAre(raw: bool)
      requires Sound({})
      ensures Strings(Node(raw, Tree({}).kids)) == TopStrings()
    {
      hide Tree;
      TreeIs({});
    }

    lemma StringAt(k: string)
      ensures k in TopStrings() <==> k in m && m[k].Atomic? && m[k].a.Str?
      ensures k in TopStrings() ==> TopStrings()[k] == m[k].a.s
    {
    }

    lemma KidIs(k: string)
      requires Sound({})
      ensures k in Tree({}).kids <==> k in m
      ensures k in m ==> SoundValue(m[k]) && Tree({}).kids[k] == TreeOf(m[k])
      ensures k in m && m[k].IsBranch() ==> m[k].c.repr <= repr
    {
      hide Tree;
      TreeIs({});
    }

    /** What is under the switch no longer counts as this map's. */
    ghost method HideSwitch()
      requires Sound({}) && SWITCH in m && m[SWITCH].IsBranch()
      modifies this
      ensures m == old(m) && repr == old(repr) - m[SWITCH].c.repr
      ensures Sound({SWITCH}) && Tree({SWITCH}) == Node(false, old(Tree({})).kids - {SWITCH})
    {
      hide Tree;
      TreeIs({});
      ghost var t := Tree({}).kids - {SWITCH};
      repr := repr - m[SWITCH].c.repr;
      Assemble({SWITCH}, t);
    }

    lemma SelfIn(skip: set<string>)
      requires Sound(skip)
      ensures this in repr
    {
    }

    lemma KidsInside()
      requires Sound({})
      ensures forall k :: k in m && m[k].IsBranch() ==> m[k].c.repr <= repr
    {
    }

    lemma SkipSwitch()
      requires Sound({})
      ensures Sound({SWITCH}) && Tree({SWITCH}) == Node(false, Tree({}).kids - {SWITCH})
    {
      hide Tree;
      TreeIs({});
      Assemble({SWITCH}, Tree({}).kids - {SWITCH});
    }

    /** delete(cc, "__switch__") */
    method DropSwitch()
      requires Sound({SWITCH})
      modifies this
      ensures Sound({}) && Tree({}) == old(Tree({SWITCH})) && repr == old(repr)
    {
      hide Tree;
      TreeIs({SWITCH});
      ghost var t := Tree({SWITCH}).kids;
      m := m - {SWITCH};
      Assemble({}, t);
    }

    /** Merges a case of this map's switch into the map around it. */
    method MergeCase(cfg: Configuration)
      requires Sound({}) && SWITCH in m && m[SWITCH].IsBranch() && cfg.repr <= m[SWITCH].c.repr
      requires cfg.Sound({}) && SWITCH !in cfg.m && PlainKeys(cfg.Tree({}))
      modifies repr
      ensures Sound({SWITCH}) && Tree({SWITCH}) == Merge(Node(false, old(Tree({})).kids - {SWITCH}), old(cfg.Tree({})))
      ensures fresh(repr - old(repr))
    {
      hide Tree, Merge, PlainKeys;
      SoundKid({}, SWITCH);
      HideSwitch();
      Update(cfg, {SWITCH}, false);
    }

    /** The first half of parseSwitch (config.go:1072-1099): cc's own switch gives way to its case. */
    method ReplaceSwitch(cc: Configuration)
      requires cc.Sound({}) && Tame(cc.Tree({}))
      modifies cc.repr
      ensures cc.Sound({}) && cc.Tree({}) == Step(old(TopStrings()), old(cc.Tree({})))
      ensures fresh(cc.repr - old(cc.repr))
    {
      hide Sound, Tree, Merge, Tame, PlainKeys, Strings, SelectedIn, Step, StringsIn, TameSwitch;
      cc.SelfIn({});
      ghost var t := cc.Tree({});
      cc.TreeIs({});
      TameTop(t);
      cc.SkipSwitch();
      if SWITCH in cc.m {
        var v := cc.m[SWITCH];
        if v.IsBranch() {
          cc.SoundKid({}, SWITCH);
          var cfg := SelectCase(v.c, v.RawMap?);
          if cfg != null {
            ghost var c := SelectedIn(TopStrings(), t.kids[SWITCH]).value;
            StepWithCase(TopStrings(), t, c);
            cfg.TreeIs({});
            cc.MergeCase(cfg);
          } else {
            StepWithout(TopStrings(), t);
          }
        } else {
          NoCases(TopStrings(), t.kids[SWITCH]);
          StepWithout(TopStrings(), t);
        }
        cc.DropSwitch();
      } else {
        NoCases(TopStrings(), Nil);
        StepWithout(TopStrings(), t);
      }
    }

    method ParseChild(cc: Configuration, k: string)
      requires cc.Sound({}) && k in cc.m && cc.m[k].Conf? && Tame(cc.m[k].c.Tree({}))
      requires cc == this || this !in cc.repr
      modifies cc, cc.m[k].c.repr
      ensures cc.Sound({}) && cc.m == old(cc.m) && fresh(cc.repr - old(cc.repr))
      ensures cc.Tree({}) ==
        Node(false, old(cc.Tree({})).kids[k := Resolve(old(TopStrings()), old(cc.m[k].c.Tree({})))])
      ensures forall j :: j in cc.m && j != k && cc.m[j].IsBranch() ==> cc.m[j].c.repr == old(cc.m[j].c.repr)
      decreases Size(cc.m[k].c.Tree({})), 3
    {
      hide Tree, Tame, Resolve, StringsIn;
      cc.TreeIs({});
      label Turn:
      ParseSwitch(cc.m[k].c);
      cc.repr := cc.repr + cc.m[k].c.repr;
      cc.Refitted@Turn({}, k);
    }

    /** The second half of parseSwitch (config.go:1101-1105): the Configurations in cc, in any order. */
    method ParseChildren(cc: Configuration)
      requires cc.Sound({}) && Tame(cc.Tree({})) && (cc == this || this !in cc.repr)
      modifies cc.repr
      ensures cc.Sound({}) && cc.m == old(cc.m)
      ensures cc.Tree({}) == Below(old(TopStrings()), old(cc.Tree({})))
      ensures fresh(cc.repr - old(cc.repr))
      decreases Size(cc.Tree({})), 1
    {
      hide Sound, Tree, Tame, Below, Resolve, StringsIn, Halfway;
      cc.SelfIn({});
      cc.KidsInside();
      ghost var s, top, all := cc.Tree({}), TopStrings(), cc.m.Keys;
      var todo := cc.m.Keys;
      cc.TreeIs({});
      HalfwayStart(top, s, all - todo);
      while todo != {}
        invariant todo <= all && cc.m == old(cc.m) && m == old(m)
        invariant cc.Sound({}) && cc.Tree({}) == Halfway(top, s, all - todo)
        invariant forall k :: k in todo && cc.m[k].IsBranch() ==> cc.m[k].c.repr <= old(cc.repr)
        invariant fresh(cc.repr - old(cc.repr))
      {
        var k :| k in todo;
        var v := cc.m[k];
        cc.TreeIs({});
        HalfwayNext(top, s, all - todo, k);
        TameKid(s, k);
        cc.SoundKid({}, k);
        assert all - todo + {k} == all - (todo - {k});
        if v.Conf? {
          KidSmaller(s, k);
          ParseChild(cc, k);
        }
        todo := todo - {k};
      }
      HalfwayEnd(top, s, all - todo);
    }

    /** parseSwitch (config.go:1067-1106): nil stands for this map itself. */
    method ParseSwitch(arg: Configuration?)
      requires arg == null ==> Sound({}) && Tame(Tree({}))
      requires arg != null ==> arg.Sound({}) && Tame(arg.Tree({})) && this !in arg.repr
      modifies if arg == null then repr else arg.repr
      ensures arg == null ==> Sound({}) && Tree({}) == ResolveRoot(old(Tree({}))) && fresh(repr - old(repr))
      ensures arg != null ==> arg.Sound({}) && arg.Tree({}) == Resolve(old(TopStrings()), old(arg.Tree({})))
      ensures arg != null ==> fresh(arg.repr - old(arg.repr))
      decreases Size(if arg == null then Tree({}) else arg.Tree({})), 2
    {
      hide Tree, Tame, Below, StringsIn, Step;
      var cc := if arg == null then this else arg;
      ghost var t, top := cc.Tree({}), TopStrings();
      TameStep(top, t);
      StepSize(top, t);
      ResolveIs(top, t);
      if arg == null { TopStringsAre(); }
      ReplaceSwitch(cc);
      if arg == null { TopStringsAre(); }
      ParseChildren(cc);
    }

    /** Parse (config.go:136-139), on a map without `__include__`.  It terminates, and what it makes of
        the map depends on nothing but the two trees, although every loop visits keys in any order. */
    method Parse(src: Configuration)
      requires Sound({}) && src.Sound({}) && src.repr !! repr
      requires Tame(Tree({})) && Tame(src.Tree({})) && IncludeFree(src.Tree({}))
      modifies repr, src.repr
      ensures Sound({}) && Tree({}) == Parsed(old(Tree({})), old(src.Tree({}))) && NoSwitch(Tree({}))
    {
      hide Tree, Tame, Included, IncludeFree, ResolveRoot;
      TamePlain(src.Tree({}));
      TameIncluded(Tree({}), src.Tree({}));
      ParsedHasNoSwitch(Tree({}), src.Tree({}));
      ParseInclude(src);
      ParseSwitch(null);
    }

    lemma StartMidway(cc: Configuration, skip: set<string>)
      requires Sound(skip) && cc.Sound({}) && cc.repr !! repr && cc.m.Keys !! skip
      ensures Midway(cc, skip, repr, {}) && Taken(cc, {})
    {
    }
  }

  // ---------------------------------------------------------------- about paths

  lemma AtTag(kids: map<string, Tree>, p: Path)
    ensures p != [] ==> At(Node(true, kids), p) == At(Node(false, kids), p)
    ensures p == [] ==> At(Node(true, kids), p) == Some(Node(true, kids))
  {
  }

  lemma {:induction false} AtMore(t: Tree, p: Path, q: Path)
    ensures At(t, p + q) == if At(t, p).Some? then At(At(t, p).value, q) else None
    decreases |p|
  {
    if p == [] {
      assert p + q == q;
    } else {
      assert (p + q)[1..] == p[1..] + q && (p + q)[0] == p[0];
      if t.Node? && p[0] in t.kids { AtMore(t.kids[p[0]], p[1..], q); }
    }
  }

  /** t with other children at p. */
  ghost function Regrown(t: Tree, p: Path, kids: map<string, Tree>): Tree
    requires At(t, p).Some?
  {
    Put(t, p, Node(Raw(At(t, p).value), kids))
  }

  lemma RegrownTop(t: Tree, kids: map<string, Tree>)
    requires t.Node?
    ensures Regrown(t, [], kids) == Node(t.raw, kids)
  {
  }

  lemma RegrownKid(t: Tree, p: Path, kids: map<string, Tree>)
    requires t.Node? && p != [] && p[0] in t.kids && At(t.kids[p[0]], p[1..]).Some?
    ensures At(t, p).Some?
    ensures Regrown(t, p, kids) == Node(t.raw, t.kids[p[0] := Regrown(t.kids[p[0]], p[1..], kids)])
  {
  }

  lemma RegrownTag(t: Tree, p: Path, kids: map<string, Tree>)
    requires t.Node? && At(t, p).Some?
    ensures At(Node(true, t.kids), p).Some? && Regrown(t, p, kids).Node?
    ensures Regrown(Node(true, t.kids), p, kids) == Node(true, Regrown(t, p, kids).kids)
  {
    AtTag(t.kids, p);
  }

  lemma AtTop(t: Tree)
    ensures At(t, []) == Some(t)
  {
  }

  lemma MadeTop(t: Tree, p: Path)
    requires t.Node? && p == []
    ensures Made(t, p) == t
  {
  }

  lemma PathIs(name: string)
    ensures PathOf(name) == Split(name, '.')
  {
  }

  lemma SolidPath(name: string)
    requires '.' in name && GoodKey(name)
    ensures Solid(PathOf(name)) && forall j :: 0 <= j < |PathOf(name)| ==> '.' !in PathOf(name)[j]
  {
  }

  lemma RegrownIs(t: Tree, p: Path, kids: map<string, Tree>)
    requires At(t, p).Some?
    ensures Regrown(t, p, kids) == Put(t, p, Node(Raw(At(t, p).value), kids))
  {
  }

  /** How Set fails: a value stands where a branch is needed, or a raw map where the value goes. */
  function SetFails(t: Tree, p: Path): Option<Error>
    requires p != []
  {
    var above, here := At(t, p[..|p| - 1]), At(t, p);
    if above.Some? && above.value.Leaf? then Some(BranchKeyExists)
    else if |p| > 1 && here.Some? && Raw(here.value) then Some(ValueIsBranch)
    else None
  }

  lemma SetOutcome(t: Tree, init: Path, last: string)
    requires t.Node?
    ensures var u := Made(t, init);
      SetFails(t, init + [last]) ==
        if At(t, init).Some? && At(t, init).value.Leaf? then Some(BranchKeyExists)
        else if init != [] && At(u, init + [last]).Some? && Raw(At(u, init + [last]).value) then Some(ValueIsBranch)
        else None
    ensures SetFails(t, init + [last]) == Some(ValueIsBranch) ==> Made(t, init) == t
  {
    hide Put, Made;
    assert (init + [last])[..|init|] == init;
    MadeReads(t, init);
    AtMore(t, init, [last]);
    AtMore(Made(t, init), init, [last]);
  }

  lemma PutElsewhere(t: Tree, p: Path, v: Tree)
    ensures forall q: Path :: !(q <= p) && !(p <= q) ==> At(Put(t, p, v), q) == At(t, q)
  {
    forall q: Path | !(q <= p) && !(p <= q) ensures At(Put(t, p, v), q) == At(t, q) { PutAt(t, p, v, q); }
  }

  /** A branch that had to be made is empty. */
  lemma {:induction false} MadeReads(t: Tree, p: Path)
    ensures At(Made(t, p), p) == Some(if At(t, p).Some? && At(t, p).value.Node? then At(t, p).value else EMPTY)
    ensures At(t, p).Some? && At(t, p).value.Node? ==> Made(t, p) == t
    decreases |p|
  {
    MadeAt(t, p);
    if p != [] {
      MadeReads(Kid(t, p[0]), p[1..]);
      NothingBelow(p[1..]);
    }
  }

  lemma NothingBelow(p: Path)
    ensures p != [] ==> At(Nil, p) == None
  {
  }

  lemma AtNone(r: Option<Tree>, k: string)
    requires r.Some? ==> !r.value.Node?
    ensures r.Some? ==> At(r.value, [k]) == None
  {
  }

  // ---------------------------------------------------------------- about merges

  /** Merging does not depend on whether y is a raw map, and keeps what x is. */
  lemma MergeTag(x: Tree, y: Tree)
    requires x.Node? && y.Node?
    ensures Merge(Node(true, x.kids), y) == Node(true, Merge(x, y).kids)
    ensures Merge(x, y).Node? && Merge(x, y).raw == x.raw
  {
  }

  lemma MergeValue(x: Tree, y: Tree, t: Tree)
    requires y.Node? && t == Node(false, y.kids)
    ensures !x.Leaf? ==> Merge(x, t) == Merge(x, y)
    ensures !x.Leaf? && !x.Node? ==> Merge(EMPTY, t) == Merge(x, y)
    ensures PlainKeys(t) <==> PlainKeys(y)
  {
    assert !x.Leaf? && !x.Node? ==> Merge(EMPTY, t).kids == Merge(x, y).kids;
  }

  lemma ClashTag(x: Tree, y: Tree)
    requires x.Node? && y.Node?
    ensures NoClash(Node(true, x.kids), y) <==> NoClash(Node(false, x.kids), y)
  {
    assert forall k :: Kid(Node(true, x.kids), k) == Kid(Node(false, x.kids), k);
  }

  lemma ClashValue(x: Tree, y: Tree, t: Tree)
    requires y.Node? && t == Node(false, y.kids)
    ensures NoClash(x, t) <==> NoClash(x, y)
    ensures NoClash(x, y) ==> !x.Leaf?
  {
  }

  lemma ClashKid(x: Tree, y: Tree, k: string)
    requires k in Kids(y)
    ensures NoClash(x, y) ==> NoClash(Kid(x, k), y.kids[k])
  {
  }

  lemma {:induction false} NothingClashes(x: Tree, y: Tree)
    requires x == Nil || x == EMPTY
    ensures NoClash(x, y)
    decreases y
  {
    if y.Node? {
      forall k | k in y.kids ensures NoClash(Kid(x, k), y.kids[k]) { NothingClashes(Nil, y.kids[k]); }
    }
  }

  lemma SetTwice(t: map<string, Tree>, k: string, u: Tree, v: Tree)
    ensures t[k := u][k := v] == t[k := v]
  {
  }

  lemma MergeTop(x: Tree, y: Tree)
    ensures !y.Node? || x.Leaf? ==> Merge(x, y) == Big(y)
  {
  }

  /** y cut down to some keys. */
  ghost function Only(y: Tree, ks: set<string>): Tree {
    Node(Raw(y), map k | k in Kids(y) && k in ks :: y.kids[k])
  }

  lemma MergeNone(x: Tree, y: Tree, ks: set<string>)
    requires x.Node? && y.Node? && ks == {}
    ensures Merge(x, Only(y, ks)) == x
  {
    assert Merge(x, Only(y, ks)).kids == x.kids;
  }

  lemma OnlyAll(y: Tree, ks: set<string>)
    requires y.Node? && !y.raw && y.kids.Keys <= ks
    ensures Only(y, ks) == y
  {
  }

  lemma PlainKid(y: Tree, k: string)
    requires PlainKeys(y) && k in Kids(y)
    ensures PlainKey(k) && PlainKeys(y.kids[k])
  {
  }

  lemma OnlyIs(y: Tree, ks: set<string>, k: string)
    requires y.Node?
    ensures var o := Only(y, ks);
      o.Node? && (k in o.kids <==> k in y.kids && k in ks) && (k in o.kids ==> o.kids[k] == y.kids[k])
  {
  }

  lemma IncludeNone(x: Tree, y: Tree, ks: set<string>)
    requires x.Node? && ks == {}
    ensures Included(x, Only(y, ks)) == x
  {
    IncludedNone(x, Only(y, ks));
  }

  /** Reading one more key. */
  lemma IncludeOneMore(x: Tree, y: Tree, ks: set<string>, k: string)
    requires x.Node? && y.Node? && k in y.kids && k !in ks
    ensures var m := Included(x, Only(y, ks));
      m.Node? && Included(x, Only(y, ks + {k})) == Node(x.raw, m.kids[k := IncludedKey(y.kids[k], k)])
  {
    hide Included, Only, IncludedKey;
    var o, p := Only(y, ks), Only(y, ks + {k});
    var m, n := Included(x, o), Included(x, p);
    OnlyIs(y, ks + {k}, k);
    IncludedAt(x, o, k);
    IncludedAt(x, p, k);
    forall j | j != k ensures SameAt(m.kids, n.kids, j) {
      OnlyIs(y, ks, j);
      OnlyIs(y, ks + {k}, j);
      IncludedAt(x, o, j);
      IncludedAt(x, p, j);
    }
    OneKey(m.kids, n.kids, k);
  }

  lemma FreeKid(y: Tree, k: string)
    requires IncludeFree(y) && k in Kids(y)
    ensures k != INCLUDE && (Raw(y.kids[k]) && k != SWITCH ==> IncludeFree(y.kids[k]))
  {
  }

  lemma TameKey(sw: Tree)
    requires TameSwitch(sw)
    ensures KEY in Strings(sw) ==> '.' !in Strings(sw)[KEY]
  {
  }

  lemma TameTop(t: Tree)
    requires Tame(t) && t.Node?
    ensures TameSwitch(Kid(t, SWITCH))
  {
  }

  lemma TameKid(t: Tree, k: string)
    requires Tame(t) && k in Kids(t)
    ensures Tame(t.kids[k])
  {
  }

  lemma NoCases(top: map<string, string>, sw: Tree)
    requires !sw.Node?
    ensures SelectedIn(top, sw) == None
  {
  }

  lemma StepWithout(top: map<string, string>, t: Tree)
    requires t.Node? && SelectedIn(top, Kid(t, SWITCH)) == None
    ensures Step(top, t) == Node(t.raw, t.kids - {SWITCH})
  {
  }

  /** Merging the case into what is left without the switch. */
  lemma StepWithCase(top: map<string, string>, t: Tree, c: Tree)
    requires t.Node? && Tame(t) && SelectedIn(top, Kid(t, SWITCH)) == Some(c)
    ensures c.Node? && SWITCH !in c.kids && PlainKeys(Node(false, c.kids))
    ensures Step(top, t) == Merge(Node(t.raw, t.kids - {SWITCH}), Node(false, c.kids))
  {
    hide Merge, PlainKeys;
    var rest := Node(t.raw, t.kids - {SWITCH});
    SelectedTame(top, t, c);
    DropFirst(t, c);
    MergeValue(rest, c, Node(false, c.kids));
    MergeKids(rest, c, SWITCH);
    MergeTag(t, c);
    MergeTag(rest, c);
    assert Merge(rest, c).kids - {SWITCH} == Merge(rest, c).kids;
  }

  lemma SelectedTame(top: map<string, string>, t: Tree, c: Tree)
    requires t.Node? && Tame(t) && SelectedIn(top, Kid(t, SWITCH)) == Some(c)
    ensures c.Node? && SWITCH !in c.kids && PlainKeys(c)
  {
    TameTop(t);
    var sw := Kid(t, SWITCH);
    TameKid(t, SWITCH);
    var k :| k in Kids(sw) && sw.kids[k] == c;
    TameKid(sw, k);
    TamePlain(c);
  }

  /** s with the children under some keys resolved. */
  ghost function Halfway(top: map<string, string>, s: Tree, ks: set<string>): Tree
    requires s.Node?
  {
    Node(s.raw, map k | k in s.kids :: if k in ks then Below(top, s).kids[k] else s.kids[k])
  }

  lemma HalfwayStart(top: map<string, string>, s: Tree, ks: set<string>)
    requires s.Node? && ks == {}
    ensures Halfway(top, s, ks) == s
  {
    assert Halfway(top, s, ks).kids == s.kids;
  }

  lemma HalfwayNext(top: map<string, string>, s: Tree, ks: set<string>, k: string)
    requires s.Node? && k in s.kids && k !in ks
    ensures var h := Halfway(top, s, ks);
      && k in h.kids && h.kids[k] == s.kids[k]
      && (if s.kids[k].Node? && !s.kids[k].raw
          then Halfway(top, s, ks + {k}) == Node(s.raw, h.kids[k := Resolve(top, s.kids[k])])
          else Halfway(top, s, ks + {k}) == h)
  {
    var h, n := Halfway(top, s, ks), Halfway(top, s, ks + {k});
    var v := Below(top, s).kids[k];
    assert n.kids == h.kids[k := v];
    assert h.kids[k := s.kids[k]] == h.kids;
  }

  lemma HalfwayEnd(top: map<string, string>, s: Tree, ks: set<string>)
    requires s.Node? && s.kids.Keys <= ks
    ensures Halfway(top, s, ks) == Below(top, s)
  {
    assert Halfway(top, s, ks).kids == Below(top, s).kids;
  }

  lemma ResolveIs(top: map<string, string>, t: Tree)
    requires t.Node?
    ensures Resolve(top, t) == Below(top, Step(top, t))
  {
  }

  /** A merge under one key depends on that key alone. */
  lemma MergeSame(x: Tree, o: Tree, p: Tree, j: string)
    requires x.Node? && o.Node? && p.Node? && (j in o.kids <==> j in p.kids) && (j in o.kids ==> o.kids[j] == p.kids[j])
    ensures Merge(x, o).Node? && Merge(x, p).Node?
    ensures j in Merge(x, o).kids <==> j in Merge(x, p).kids
    ensures j in Merge(x, o).kids ==> Merge(x, o).kids[j] == Merge(x, p).kids[j]
  {
  }

  lemma MergeKey(x: Tree, y: Tree, k: string)
    requires x.Node? && y.Node?
    ensures Merge(x, y).Node? && Merge(x, y).raw == x.raw
    ensures if k in y.kids then k in Merge(x, y).kids && Merge(x, y).kids[k] == Merge(Kid(x, k), y.kids[k])
      else Kid(Merge(x, y), k) == Kid(x, k)
  {
  }

  /** Merging one more key. */
  lemma MergeOneMore(x: Tree, y: Tree, ks: set<string>, k: string)
    requires x.Node? && y.Node? && k in y.kids && k !in ks
    ensures var m := Merge(x, Only(y, ks));
      m.Node? && Kid(m, k) == Kid(x, k)
      && Merge(x, Only(y, ks + {k})) == Node(x.raw, m.kids[k := Merge(Kid(m, k), y.kids[k])])
  {
    hide Merge, Only, Kid, Kids;
    var o, p := Only(y, ks), Only(y, ks + {k});
    var m, n := Merge(x, o), Merge(x, p);
    OnlyIs(y, ks, k);
    OnlyIs(y, ks + {k}, k);
    MergeKey(x, o, k);
    MergeKey(x, p, k);
    forall j | j != k ensures SameAt(m.kids, n.kids, j) {
      OnlyIs(y, ks, j);
      OnlyIs(y, ks + {k}, j);
      MergeSame(x, o, p, j);
    }
    OneKey(m.kids, n.kids, k);
  }

  predicate SameAt(m: map<string, Tree>, n: map<string, Tree>, j: string) {
    (j in n <==> j in m) && (j in m ==> n[j] == m[j])
  }

  lemma OneKey(m: map<string, Tree>, n: map<string, Tree>, k: string)
    requires k in n && forall j :: j != k ==> SameAt(m, n, j)
    ensures n == m[k := n[k]]
  {
    forall j ensures (j in n <==> j in m || j == k) && (j in n && j != k ==> n[j] == m[j]) {
      assert j != k ==> SameAt(m, n, j);
    }
    assert n.Keys == m.Keys + {k};
    assert n == m[k := n[k]];
  }
}
