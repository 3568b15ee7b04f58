/** What parsing a configuration means: maps become branches, and every `__switch__` is replaced by
    the case its key selects. */
module ConfigSwitch {
  import opened Text
  import opened ConfigTree

  const SWITCH := "__switch__"
  const KEY := "__key__"
  const DEFAULT := "__default__"
  const INCLUDE := "__include__"

  // ---------------------------------------------------------------- size

  ghost function Size(t: Tree): (n: nat)
    ensures n >= 1
    decreases t, 1
  {
    if t.Node? then 1 + Sum(t, t.kids.Keys) else 1
  }

  ghost function Sum(t: Tree, ks: set<string>): nat
    decreases t, 0, ks
  {
    if ks == {} then 0
    else
      var k :| k in ks;
      (if k in Kids(t) then Size(t.kids[k]) else 0) + Sum(t, ks - {k})
  }

  ghost function SizeAt(t: Tree, k: string): nat {
    if k in Kids(t) then Size(t.kids[k]) else 0
  }

  lemma {:induction false} SumPick(t: Tree, ks: set<string>, k: string)
    requires k in ks
    ensures Sum(t, ks) == SizeAt(t, k) + Sum(t, ks - {k})
    decreases ks
  {
    var j :| j in ks && Sum(t, ks) == SizeAt(t, j) + Sum(t, ks - {j});
    if j != k {
      SumPick(t, ks - {j}, k);
      SumPick(t, ks - {k}, j);
      assert ks - {j} - {k} == ks - {k} - {j};
    }
  }

  /** Key by key, no more than the sum. */
  lemma {:induction false} SumBelow(t: Tree, x: Tree, y: Tree, ks: set<string>)
    requires forall k :: k in ks ==> SizeAt(t, k) <= SizeAt(x, k) + SizeAt(y, k)
    ensures Sum(t, ks) <= Sum(x, ks) + Sum(y, ks)
    decreases ks
  {
    if ks != {} {
      var k :| k in ks;
      SumPick(t, ks, k);
      SumPick(x, ks, k);
      SumPick(y, ks, k);
      SumBelow(t, x, y, ks - {k});
    }
  }

  /** Keys that are not there weigh nothing. */
  lemma {:induction false} SumExtra(t: Tree, ks: set<string>)
    requires t.Node? && t.kids.Keys <= ks
    ensures Sum(t, ks) == Sum(t, t.kids.Keys)
    decreases ks
  {
    if ks != t.kids.Keys {
      var k :| k in ks && k !in t.kids;
      SumPick(t, ks, k);
      SumExtra(t, ks - {k});
    }
  }

  lemma {:induction false} SumNothing(t: Tree, ks: set<string>)
    requires !t.Node?
    ensures Sum(t, ks) == 0
    decreases ks
  {
    if ks != {} {
      var k :| k in ks;
      SumPick(t, ks, k);
      SumNothing(t, ks - {k});
    }
  }

  lemma KidSmaller(t: Tree, k: string)
    requires t.Node? && k in t.kids
    ensures Size(t.kids[k]) < Size(t)
  {
    SumPick(t, t.kids.Keys, k);
  }

  /** A merge is no larger than what it was made of. */
  lemma {:induction false} MergeSize(x: Tree, y: Tree)
    ensures Size(Merge(x, y)) <= Size(x) + Size(y)
    decreases y
  {
    if y.Node? && !x.Leaf? {
      var m := Merge(x, y);
      forall k | k in m.kids ensures SizeAt(m, k) <= SizeAt(x, k) + SizeAt(y, k) {
        MergeKids(x, y, k);
        if k in y.kids {
          MergeSize(Kid(x, k), y.kids[k]);
          if k !in Kids(x) { MergeNothing(y.kids[k]); }
        }
      }
      SumBelow(m, x, y, m.kids.Keys);
      SumExtra(y, m.kids.Keys);
      if x.Node? { SumExtra(x, m.kids.Keys); } else { SumNothing(x, m.kids.Keys); }
    }
  }

  lemma {:induction false} MergeNothing(y: Tree)
    ensures Size(Merge(Nil, y)) <= Size(y)
    decreases y
  {
    if y.Node? {
      var m := Merge(Nil, y);
      forall k | k in m.kids ensures SizeAt(m, k) <= SizeAt(Nil, k) + SizeAt(y, k) { MergeNothing(y.kids[k]); }
      SumBelow(m, Nil, y, m.kids.Keys);
      SumNothing(Nil, m.kids.Keys);
      SumExtra(y, m.kids.Keys);
    }
  }

  // ---------------------------------------------------------------- switches

  function Strings(t: Tree): map<string, string> {
    map k | k in Kids(t) && t.kids[k].Leaf? && t.kids[k].a.Str? :: t.kids[k].a.s
  }

  /** The case a node's switch selects, if that is a branch: the one named by the root's string under
      the switch's key, or by its default if the root has none. */
  function Selected(top: map<string, string>, t: Tree): Option<Tree> {
    SelectedIn(top, Kid(t, SWITCH))
  }

  function SelectedIn(top: map<string, string>, sw: Tree): Option<Tree> {
    var keys := Strings(sw);
    if KEY !in keys then None
    else
      var selected := CaseName(top, keys);
      if Kid(sw, selected).Node? then Some(Kid(sw, selected)) else None
  }

  /** The name of the case: the root's string under the switch's key, or the default. */
  function CaseName(top: map<string, string>, keys: map<string, string>): string
    requires KEY in keys
  {
    var named := if keys[KEY] in top then top[keys[KEY]] else "";
    if named != "" then named else if DEFAULT in keys then keys[DEFAULT] else ""
  }

  /** A node with its own switch replaced. */
  function Step(top: map<string, string>, t: Tree): Tree
    requires t.Node?
  {
    var u := if Selected(top, t).Some? then Merge(t, Selected(top, t).value) else t;
    Node(u.raw, u.kids - {SWITCH})
  }

  /** Replacing a switch makes a node smaller. */
  lemma StepSize(top: map<string, string>, t: Tree)
    requires t.Node?
    ensures Size(Step(top, t)) <= Size(t)
    ensures SWITCH in t.kids ==> Size(Step(top, t)) < Size(t)
  {
    var s := Step(top, t);
    var rest := Node(t.raw, t.kids - {SWITCH});
    RestSize(t);
    if Selected(top, t).Some? {
      var sw, c := t.kids[SWITCH], Selected(top, t).value;
      var k :| k in sw.kids && c == sw.kids[k];
      KidSmaller(sw, k);
      MergeSize(rest, c);
      DropFirst(t, c);
      RestSize(Merge(rest, c));
    } else if SWITCH !in t.kids {
      assert t.kids - {SWITCH} == t.kids;
    }
  }

  lemma RestSize(t: Tree)
    requires t.Node?
    ensures Size(Node(t.raw, t.kids - {SWITCH})) + SizeAt(t, SWITCH) <= Size(t)
  {
    var rest := Node(t.raw, t.kids - {SWITCH});
    if SWITCH in t.kids {
      SumPick(t, t.kids.Keys, SWITCH);
      assert rest.kids.Keys == t.kids.Keys - {SWITCH};
      SumBelow(rest, t, Nil, rest.kids.Keys);
      SumNothing(Nil, rest.kids.Keys);
    } else {
      assert rest == t;
    }
  }

  /** The switch may be dropped before or after its case is merged. */
  lemma DropFirst(t: Tree, c: Tree)
    requires t.Node? && c.Node?
    ensures var rest, m := Node(t.raw, t.kids - {SWITCH}), Merge(t, c);
      Merge(t, c).kids - {SWITCH} == Merge(rest, c).kids - {SWITCH} && Merge(rest, c).raw == t.raw == Merge(t, c).raw
  {
    var rest := Node(t.raw, t.kids - {SWITCH});
    var m, n := Merge(t, c).kids - {SWITCH}, Merge(rest, c).kids - {SWITCH};
    forall k | k in m || k in n ensures k in m && k in n && m[k] == n[k] {
      MergeKids(t, c, k);
      MergeKids(rest, c, k);
    }
  }

  /** A node with all switches replaced, in the branches below it as well; `top` is what the root's
      strings are. */
  ghost function Resolve(top: map<string, string>, t: Tree): (r: Tree)
    requires t.Node?
    ensures r.Node?
    decreases Size(t), 1
  {
    StepSize(top, t);
    Below(top, Step(top, t))
  }

  ghost function Below(top: map<string, string>, s: Tree): (r: Tree)
    requires s.Node?
    ensures r.Node? && r.kids.Keys == s.kids.Keys
    decreases Size(s), 0
  {
    Node(s.raw, map k | k in s.kids ::
      if s.kids[k].Node? && !s.kids[k].raw then KidSmaller(s, k); Resolve(top, s.kids[k]) else s.kids[k])
  }

  /** parseSwitch on the root: its own switch is looked up in itself, the others in the result. */
  ghost function ResolveRoot(t: Tree): Tree
    requires t.Node?
  {
    var s := Step(Strings(t), t);
    Below(Strings(s), s)
  }

  /** No Configuration that can be reached through Configurations has a switch. */
  ghost predicate NoSwitch(t: Tree)
    decreases t
  {
    t.Node? ==> SWITCH !in t.kids && forall k :: k in t.kids && !Raw(t.kids[k]) ==> NoSwitch(t.kids[k])
  }

  lemma {:induction false} ResolvedHasNoSwitch(top: map<string, string>, t: Tree)
    requires t.Node?
    ensures NoSwitch(Resolve(top, t))
    decreases Size(t)
  {
    var s := Step(top, t);
    StepSize(top, t);
    var r := Below(top, s);
    forall k | k in r.kids && !Raw(r.kids[k]) ensures NoSwitch(r.kids[k]) {
      if s.kids[k].Node? && !s.kids[k].raw {
        KidSmaller(s, k);
        ResolvedHasNoSwitch(top, s.kids[k]);
      }
    }
  }

  lemma RootHasNoSwitch(t: Tree)
    requires t.Node?
    ensures NoSwitch(ResolveRoot(t))
  {
    var s := Step(Strings(t), t);
    var r := Below(Strings(s), s);
    forall k | k in r.kids && !Raw(r.kids[k]) ensures NoSwitch(r.kids[k]) {
      if s.kids[k].Node? && !s.kids[k].raw { ResolvedHasNoSwitch(Strings(s), s.kids[k]); }
    }
  }

  /** Where there is no switch there is nothing to do, so resolving twice is resolving once. */
  lemma {:induction false} NothingToResolve(top: map<string, string>, t: Tree)
    requires t.Node? && NoSwitch(t)
    ensures Resolve(top, t) == t
    decreases t
  {
    NothingToStep(top, t);
    var r := Below(top, t);
    assert Resolve(top, t) == r;
    forall k | k in t.kids ensures r.kids[k] == t.kids[k] {
      if t.kids[k].Node? && !t.kids[k].raw { NothingToResolve(top, t.kids[k]); }
    }
    assert r.kids == t.kids;
  }

  lemma NothingToStep(top: map<string, string>, t: Tree)
    requires t.Node? && SWITCH !in t.kids
    ensures Step(top, t) == t
  {
    assert t.kids - {SWITCH} == t.kids;
  }

  lemma ResolveRootTwice(t: Tree)
    requires t.Node?
    ensures ResolveRoot(ResolveRoot(t)) == ResolveRoot(t)
  {
    var r := ResolveRoot(t);
    RootHasNoSwitch(t);
    NothingToStep(Strings(r), r);
    NothingToResolve(Strings(r), r);
  }

  /** The path runs through Configurations without switches. */
  predicate Clear(t: Tree, p: Path)
    decreases |p|
  {
    p != [] && t.Node? ==> SWITCH !in t.kids && p[0] in t.kids && !Raw(t.kids[p[0]]) && Clear(t.kids[p[0]], p[1..])
  }

  /** A value no switch stands above keeps its place. */
  lemma {:induction false} ResolveKeeps(top: map<string, string>, t: Tree, p: Path)
    requires t.Node? && Clear(t, p) && At(t, p).Some? && !At(t, p).value.Node?
    ensures At(Resolve(top, t), p) == At(t, p)
    decreases |p|
  {
    NothingToStep(top, t);
    if t.kids[p[0]].Node? { ResolveKeeps(top, t.kids[p[0]], p[1..]); }
  }

  /** A selected case decides: what it has at p is there afterwards, with numbers widened, unless a
      further switch on the way to p replaces it. */
  lemma SelectedCaseWins(top: map<string, string>, t: Tree, p: Path)
    requires t.Node? && Selected(top, t).Some? && p != [] && p[0] != SWITCH
    requires var c := Selected(top, t).value; At(c, p).Some? && !At(c, p).value.Node?
    requires Clear(Step(top, t), p)
    ensures At(Resolve(top, t), p).Some?
    ensures Big(At(Resolve(top, t), p).value) == Big(At(Selected(top, t).value, p).value)
  {
    var c, s := Selected(top, t).value, Step(top, t);
    MergeAt(t, c, p);
    assert At(s, p) == At(Merge(t, c), p);
    if s.kids[p[0]].Node? {
      ResolveKeeps(top, s.kids[p[0]], p[1..]);
    }
  }

  // ---------------------------------------------------------------- reading maps

  /** Include-free parseInclude (config.go:1011-1020): raw maps become Configurations, except a switch. */
  function Included(c: Tree, m: Tree): Tree
    decreases m
  {
    Node(Raw(c), map k | k in Kids(c).Keys + Kids(m).Keys ::
      if k !in Kids(m) then Kids(c)[k]
      else if Raw(m.kids[k]) && k != SWITCH then Included(EMPTY, m.kids[k])
      else Big(m.kids[k]))
  }

  /** What reading a map puts under k. */
  function IncludedKey(v: Tree, k: string): Tree {
    if Raw(v) && k != SWITCH then Included(EMPTY, v) else Big(v)
  }

  lemma IncludedNone(x: Tree, y: Tree)
    requires x.Node? && Kids(y) == map[]
    ensures Included(x, y) == x
  {
    assert Included(x, y).kids == x.kids;
  }

  lemma IncludedAt(x: Tree, y: Tree, k: string)
    ensures Included(x, y).Node? && Included(x, y).raw == Raw(x)
    ensures k in Included(x, y).kids <==> k in Kids(x) || k in Kids(y)
    ensures k in Kids(y) ==> Included(x, y).kids[k] == IncludedKey(y.kids[k], k)
    ensures k in Kids(x) && k !in Kids(y) ==> Included(x, y).kids[k] == x.kids[k]
  {
  }

  lemma IncludedTag(x: Tree, y: Tree)
    requires y.Node?
    ensures Included(x, Node(true, y.kids)) == Included(x, Node(false, y.kids))
    ensures IncludeFree(Node(true, y.kids)) <==> IncludeFree(Node(false, y.kids))
  {
  }

  /** No `__include__`, at any level that is read. */
  predicate IncludeFree(m: Tree)
    decreases m
  {
    && INCLUDE !in Kids(m)
    && forall k :: k in Kids(m) && Raw(m.kids[k]) && k != SWITCH ==> IncludeFree(m.kids[k])
  }

  /** Keys are not empty and have no dot. */
  predicate PlainKey(k: string) {
    k != "" && '.' !in k
  }

  ghost predicate PlainKeys(t: Tree)
    decreases t
  {
    t.Node? ==> forall k :: k in t.kids ==> PlainKey(k) && PlainKeys(t.kids[k])
  }

  /** Switches are looked up under keys without dots, and no case has a switch of its own at its top. */
  ghost predicate TameSwitch(sw: Tree) {
    && (KEY in Strings(sw) ==> '.' !in Strings(sw)[KEY])
    && (forall k :: k in Kids(sw) ==> SWITCH !in Kids(sw.kids[k]))
  }

  ghost predicate Tame(t: Tree)
    decreases t
  {
    t.Node? ==> TameSwitch(Kid(t, SWITCH)) && forall k :: k in t.kids ==> PlainKey(k) && Tame(t.kids[k])
  }

  lemma {:induction false} TamePlain(t: Tree)
    requires Tame(t)
    ensures PlainKeys(t)
    decreases t
  {
    if t.Node? {
      forall k | k in t.kids ensures PlainKeys(t.kids[k]) { TamePlain(t.kids[k]); }
    }
  }

  lemma {:induction false} TameMerge(x: Tree, y: Tree)
    requires Tame(x) && Tame(y)
    ensures Tame(Merge(x, y))
    decreases y
  {
    if y.Node? && !x.Leaf? {
      var m := Merge(x, y);
      forall k | k in m.kids ensures PlainKey(k) && Tame(m.kids[k]) {
        MergeKids(x, y, k);
        if k in y.kids { TameMerge(Kid(x, k), y.kids[k]); }
      }
      MergeKids(x, y, SWITCH);
      if SWITCH in y.kids { TameSwitches(Kid(x, SWITCH), y.kids[SWITCH]); }
    }
  }

  lemma TameSwitches(x: Tree, y: Tree)
    requires TameSwitch(x) && TameSwitch(y)
    ensures TameSwitch(Merge(x, y))
  {
    var m := Merge(x, y);
    if y.Node? && !x.Leaf? {
      forall k | k in m.kids ensures SWITCH !in Kids(m.kids[k]) {
        MergeKids(x, y, k);
        if k in y.kids && y.kids[k].Node? && !Kid(x, k).Leaf? { MergeKids(Kid(x, k), y.kids[k], SWITCH); }
      }
      MergeKids(x, y, KEY);
    }
  }

  lemma TameStep(top: map<string, string>, t: Tree)
    requires t.Node? && Tame(t)
    ensures Tame(Step(top, t))
  {
    var u := if Selected(top, t).Some? then Merge(t, Selected(top, t).value) else t;
    if Selected(top, t).Some? { TameMerge(t, Selected(top, t).value); }
    var s := Step(top, t);
    assert forall k :: k in s.kids ==> k in u.kids && s.kids[k] == u.kids[k];
  }

  /** Reading keeps what parsing relies on. */
  lemma {:induction false} TameIncluded(c: Tree, m: Tree)
    requires Tame(c) && Tame(m)
    ensures Tame(Included(c, m))
    decreases m
  {
    var r := Included(c, m);
    forall k | k in r.kids ensures PlainKey(k) && Tame(r.kids[k]) {
      if k in Kids(m) && Raw(m.kids[k]) && k != SWITCH { TameIncluded(EMPTY, m.kids[k]); }
    }
  }

  /** Parse: read, then resolve. */
  ghost function Parsed(c: Tree, m: Tree): Tree {
    ResolveRoot(Included(c, m))
  }

  lemma ParsedHasNoSwitch(c: Tree, m: Tree)
    ensures NoSwitch(Parsed(c, m))
  {
    RootHasNoSwitch(Included(c, m));
  }
}
