/** What every history of Handle calls and every lookup keep. */
module RouteTheorems {
  import opened Text
  import opened RoutePattern
  import opened RouteTrie

  // ---------------------------------------------------------------- a lookup conserves its path

  /** The pieces a walk consumed: the keys of its literal edges and its captures, in order. */
  function Spell(steps: Path, caps: seq<string>): seq<string>
    requires VarCount(steps) == |caps|
  {
    if steps == [] then []
    else if steps[0].Hard? then [steps[0].key] + Spell(steps[1..], caps)
    else [caps[0]] + Spell(steps[1..], caps[1..])
  }

  /** q is p, except perhaps that the last piece has lost its extension. */
  predicate UpToExt(p: seq<string>, q: seq<string>) {
    || q == p
    || (p != [] && Ext(p[|p| - 1]) != "" && q == p[..|p| - 1] + [StripExt(p[|p| - 1])])
  }

  predicate Conserved(here: Path, p: seq<string>, data: seq<string>, r: Found) {
    && here <= r.at && data <= r.data
    && VarCount(r.at[|here|..]) == |r.data| - |data|
    && UpToExt(p, Spell(r.at[|here|..], r.data[|data|..]) + r.rest)
    && (r.rest != [] ==> Spell(r.at[|here|..], r.data[|data|..]) + r.rest == p)
  }

  lemma CaptureIsPiece(env: Env, t: Trie, here: Path, p: seq<string>, e: Edge, c: seq<string>)
    requires p != [] && Follows(env, t, here, p, e, c)
    ensures here + [e] in t
    ensures if e.Hard? then c == [] && e.key == p[0]
      else |c| == 1 && UpToExt(p, c + p[1..]) && (c[0] != p[0] ==> |p| == 1)
  {
  }

  lemma SpellCons(e: Edge, steps: Path, c: seq<string>, caps: seq<string>)
    requires VarCount(steps) == |caps| && |c| == (if e.Hard? then 0 else 1)
    ensures VarCount([e] + steps) == |c + caps|
    ensures Spell([e] + steps, c + caps) == (if e.Hard? then [e.key] else c) + Spell(steps, caps)
  {
    assert ([e] + steps)[1..] == steps;
    if !e.Hard? { assert (c + caps)[1..] == caps; } else { assert c + caps == caps; }
  }

  lemma UpToExtCons(p: seq<string>, x: string, q: seq<string>)
    requires |p| > 1 && x == p[0] && UpToExt(p[1..], q)
    ensures UpToExt(p, [x] + q)
  {
    if q == p[1..] {
      assert [x] + q == p;
    } else {
      assert p[1..][..|p| - 2] == p[1..|p| - 1];
      assert [x] + p[1..|p| - 1] == p[..|p| - 1];
    }
  }

  lemma ConservedStep(here: Path, p: seq<string>, data: seq<string>, e: Edge, c: seq<string>, r: Found)
    requires p != [] && Conserved(here + [e], p[1..], data + c, r)
    requires if e.Hard? then c == [] && e.key == p[0]
      else |c| == 1 && UpToExt(p, c + p[1..]) && (c[0] != p[0] ==> |p| == 1)
    ensures Conserved(here, p, data, r)
  {
    hide Spell, UpToExt, VarCount;
    var steps, caps := r.at[|here| + 1..], r.data[|data + c|..];
    var x := if e.Hard? then [e.key] else c;
    assert r.at[|here + [e]|..] == steps && r.at[|here|..] == [e] + steps;
    assert r.data[|data|..] == c + caps;
    SpellCons(e, steps, c, caps);
    var q := Spell(steps, caps) + r.rest;
    assert Spell([e] + steps, c + caps) + r.rest == x + q;
    Prefixes(here, [e], r.at);
    Prefixes(data, c, r.data);
    ConservedPiece(p, x, q, r.rest);
  }

  lemma Prefixes<T>(s: seq<T>, t: seq<T>, u: seq<T>)
    requires s + t <= u
    ensures s <= u
  {
  }

  lemma ConservedPiece(p: seq<string>, x: seq<string>, q: seq<string>, rest: seq<string>)
    requires p != [] && |x| == 1 && UpToExt(p[1..], q) && (rest != [] ==> q == p[1..])
    requires UpToExt(p, x + p[1..]) && (x[0] != p[0] ==> |p| == 1)
    requires |rest| <= |q|
    ensures UpToExt(p, x + q) && (rest != [] ==> x + q == p)
  {
    if |p| == 1 {
      assert q == [] && p[1..] == [];
    } else {
      UpToExtCons(p, x[0], q);
      assert x == [x[0]];
      assert [p[0]] + p[1..] == p;
    }
  }

  /** The pieces walked followed by the pieces returned are the pieces given, except for an
      extension stripped from a captured last piece; and there is one capture for each variable
      edge of the walk. */
  lemma {:induction false} LookupConserves(env: Env, t: Trie, here: Path, p: seq<string>, data: seq<string>, r: Found)
    requires Finds(env, t, here, p, data, r)
    ensures Conserved(here, p, data, r)
    decreases p
  {
    hide Follows, Conserved;
    if p != [] && exists e, c :: Follows(env, t, here, p, e, c) {
      var e, c :| Follows(env, t, here, p, e, c) && Finds(env, t, here + [e], p[1..], data + c, r);
      LookupConserves(env, t, here + [e], p[1..], data + c, r);
      CaptureIsPiece(env, t, here, p, e, c);
      ConservedStep(here, p, data, e, c, r);
    } else {
      ConservedHere(here, p, data, r);
    }
  }

  lemma ConservedHere(here: Path, p: seq<string>, data: seq<string>, r: Found)
    requires r.at == here && r.data == data && r.rest == p
    ensures Conserved(here, p, data, r)
  {
    assert r.at[|here|..] == [] && r.data[|data|..] == [] && [] + p == p;
  }

  /** Some result is always found, within the nodes of the trie: the walk terminates. */
  lemma {:induction false} LookupEnds(env: Env, t: Trie, here: Path, p: seq<string>, data: seq<string>)
    returns (r: Found)
    requires here in t
    ensures Finds(env, t, here, p, data, r) && r.at in t
    decreases p
  {
    if p == [] {
      r := Found(here, t[here].hard.None?, [], data);
    } else if e, c :| Follows(env, t, here, p, e, c) {
      CaptureIsPiece(env, t, here, p, e, c);
      r := LookupEnds(env, t, here + [e], p[1..], data + c);
    } else {
      r := Found(here, true, p, data);
    }
  }

  lemma {:induction false} LookupStaysInside(env: Env, t: Trie, here: Path, p: seq<string>, data: seq<string>, r: Found)
    requires here in t && Finds(env, t, here, p, data, r)
    ensures r.at in t
    decreases p
  {
    if p != [] && exists e, c :: Follows(env, t, here, p, e, c) {
      var e, c :| Follows(env, t, here, p, e, c) && Finds(env, t, here + [e], p[1..], data + c, r);
      CaptureIsPiece(env, t, here, p, e, c);
      LookupStaysInside(env, t, here + [e], p[1..], data + c, r);
    }
  }

  // ---------------------------------------------------------------- registration, node by node

  /** Every node's parent is a node. */
  ghost predicate Closed(t: Trie) {
    [] in t && forall p, e :: p + [e] in t ==> p in t
  }

  lemma StepInto(here: Path, edges: Path, i: nat)
    requires i < |edges|
    ensures here + edges[..1] + edges[1..][..i] == here + edges[..i + 1]
  {
  }

  lemma EnsureClosed(t: Trie, here: Path, e: Edge)
    requires Closed(t) && here in t
    ensures Closed(Ensure(t, here + [e]))
  {
    var t' := Ensure(t, here + [e]);
    forall p, f | p + [f] in t' ensures p in t' {
      if p + [f] == here + [e] {
        assert p == (p + [f])[..|p|] == here;
      }
    }
  }

  lemma {:induction false} AddPathKeeps(t: Trie, here: Path, edges: Path)
    requires Closed(t) && here in t
    ensures Closed(AddPath(t, here, edges))
    ensures forall p :: p in t ==> p in AddPath(t, here, edges) && AddPath(t, here, edges)[p] == t[p]
    ensures forall p :: p in AddPath(t, here, edges) && p !in t ==> AddPath(t, here, edges)[p] == NEW_NODE
    decreases edges
  {
    if edges != [] {
      assert edges[..1] == [edges[0]];
      EnsureClosed(t, here, edges[0]);
      AddPathKeeps(Ensure(t, here + edges[..1]), here + edges[..1], edges[1..]);
    }
  }

  lemma {:induction false} AddPathHas(t: Trie, here: Path, edges: Path, i: nat)
    requires Closed(t) && here in t && i <= |edges|
    ensures here + edges[..i] in AddPath(t, here, edges)
    decreases edges
  {
    AddPathKeeps(t, here, edges);
    if i == 0 {
      assert here + edges[..0] == here;
    } else {
      assert edges[..1] == [edges[0]];
      EnsureClosed(t, here, edges[0]);
      AddPathHas(Ensure(t, here + edges[..1]), here + edges[..1], edges[1..], i - 1);
      StepInto(here, edges, i - 1);
    }
  }

  lemma {:induction false} NodesCount(here: Path, segs: seq<Seg>, edges: Path)
    requires |segs| == |edges|
    ensures |Nodes(here, segs, edges)| == |Depths(segs)|
    decreases segs
  {
    if segs != [] { NodesCount(here + edges[..1], segs[1..], edges[1..]); }
  }

  /** The nodes BuildRoute returns are the ancestors of the pattern's node at the pattern's depths. */
  lemma {:induction false} NodesAt(here: Path, segs: seq<Seg>, edges: Path, j: nat)
    requires |segs| == |edges| && j < |Depths(segs)| == |Nodes(here, segs, edges)|
    ensures 0 <= Depths(segs)[j] <= |segs|
    ensures Nodes(here, segs, edges)[j] == here + edges[..Depths(segs)[j]]
    decreases segs
  {
    hide Depths, Nodes;
    DepthsBound(segs);
    NodesUnfold(here, segs, edges, j);
    if segs == [] {
      assert here + edges[..0] == here;
    } else {
      var d := if Optional(segs[0]) then 1 else 0;
      if j < d {
        assert here + edges[..0] == here;
      } else {
        NodesCount(here + edges[..1], segs[1..], edges[1..]);
        DepthsUnfold(segs, j);
        DepthsBound(segs[1..]);
        NodesAt(here + edges[..1], segs[1..], edges[1..], j - d);
        StepInto(here, edges, Depths(segs[1..])[j - d]);
      }
    }
  }

  lemma NodesUnfold(here: Path, segs: seq<Seg>, edges: Path, j: nat)
    requires |segs| == |edges| && j < |Nodes(here, segs, edges)| == |Depths(segs)|
    ensures segs == [] ==> Nodes(here, segs, edges)[j] == here && Depths(segs)[j] == 0
    ensures segs != [] && j < (if Optional(segs[0]) then 1 else 0) ==>
      Nodes(here, segs, edges)[j] == here && Depths(segs)[j] == 0
    ensures segs != [] && j >= (if Optional(segs[0]) then 1 else 0) ==>
      var i, ns := j - (if Optional(segs[0]) then 1 else 0), Nodes(here + edges[..1], segs[1..], edges[1..]);
      i < |ns| && Nodes(here, segs, edges)[j] == ns[i]
  {
  }

  /** A node no entry of the list names, or the other endpoint of any node, is left alone. */
  lemma {:induction false} InstallAllElsewhere(t: Trie, ps: seq<Path>, soft: bool, h: Target, ms: seq<string>,
                                               lists: seq<seq<string>>, q: Path, soft': bool)
    requires |ps| == |lists| && q in t && (q !in ps || soft' != soft)
    ensures InstallAll(t, ps, soft, h, ms, lists).Keys == t.Keys
    ensures End(InstallAll(t, ps, soft, h, ms, lists)[q], soft') == End(t[q], soft')
  {
    if ps != [] {
      InstallAllElsewhere(Install(t, ps[0], soft, h, ms, lists[0]), ps[1..], soft, h, ms, lists[1..], q, soft');
    }
  }

  /** A node named once gets the handler, and its list in front of its names. */
  lemma {:induction false} InstallAllAt(t: Trie, ps: seq<Path>, soft: bool, h: Target, ms: seq<string>,
                                        lists: seq<seq<string>>, j: nat)
    requires |ps| == |lists| && j < |ps| && ps[j] in t
    requires forall i, k :: 0 <= i < k < |ps| ==> ps[i] != ps[k]
    ensures InstallAll(t, ps, soft, h, ms, lists).Keys == t.Keys
    ensures End(InstallAll(t, ps, soft, h, ms, lists)[ps[j]], soft) ==
            Some(Installed(End(t[ps[j]], soft), h, ms, lists[j]))
  {
    var t1 := Install(t, ps[0], soft, h, ms, lists[0]);
    if j == 0 {
      InstallAllElsewhere(t1, ps[1..], soft, h, ms, lists[1..], ps[0], soft);
    } else {
      InstallAllAt(t1, ps[1..], soft, h, ms, lists[1..], j - 1);
    }
  }

  // ---------------------------------------------------------------- one registration

  /** The nodes of a complete registration are its ancestors at the depths, each once. */
  lemma RegNodes(r: Reg)
    requires Complete(r)
    ensures var ps := Nodes([], Segs(r), r.edges);
      && |ps| == |NameLists(Segs(r))| == |Depths(Segs(r))|
      && (forall j :: 0 <= j < |ps| ==> 0 <= Depths(Segs(r))[j] <= |r.edges| && ps[j] == r.edges[..Depths(Segs(r))[j]])
      && (forall i, k :: 0 <= i < k < |ps| ==> ps[i] != ps[k])
  {
    hide Nodes, Depths, NameLists, Segs;
    var segs, ps := Segs(r), Nodes([], Segs(r), r.edges);
    NodesCount([], segs, r.edges);
    DepthsBound(segs);
    forall j | 0 <= j < |ps|
      ensures 0 <= Depths(segs)[j] <= |r.edges| && ps[j] == r.edges[..Depths(segs)[j]]
    {
      NodesAt([], segs, r.edges, j);
      assert [] + r.edges[..Depths(segs)[j]] == r.edges[..Depths(segs)[j]];
    }
    forall i, k | 0 <= i < k < |ps| ensures ps[i] != ps[k] {
      DepthsIncrease(segs, i, k);
      assert |ps[i]| == Depths(segs)[i] && |ps[k]| == Depths(segs)[k];
    }
  }

  lemma ReachedIndex(r: Reg, p: Path, soft: bool) returns (j: nat)
    requires Reaches(r, p, soft)
    ensures j < |Depths(Segs(r))| && Depths(Segs(r))[j] == |p| && p == r.edges[..|p|]
  {
    hide Depths, Segs;
    j :| 0 <= j < |Depths(Segs(r))| && Depths(Segs(r))[j] == |p|;
  }

  lemma RegisterKeeps(t: Trie, r: Reg)
    requires Closed(t)
    ensures Closed(Register(t, r)) && Register(t, r).Keys == AddPath(t, [], r.edges).Keys
  {
    var t1 := AddPath(t, [], r.edges);
    AddPathKeeps(t, [], r.edges);
    if Complete(r) {
      RegNodes(r);
      var ps := Nodes([], Segs(r), r.edges);
      InstallAllElsewhere(t1, ps, EndsSoft(r), r.h, r.methods, NameLists(Segs(r)), [], !EndsSoft(r));
    }
  }

  lemma RootIn(t: Trie)
    requires Closed(t)
    ensures [] in t
  {
  }

  lemma HardEnd(n: Node)
    ensures End(n, false) == n.hard
  {
  }

  lemma HistoryAt(env: Env, hist: seq<Reg>, n: nat)
    requires History(env, hist) && n < |hist|
    ensures Resolves(env, Replay(hist[..n]).Keys, [], Segs(hist[n]), hist[n].edges)
  {
  }

  lemma InstalledNames(before: Option<EndPoint>, h: Target, methods: seq<string>, names: seq<string>)
    ensures names <= Installed(before, h, methods, names).names
  {
  }

  lemma IncompleteRegister(t: Trie, r: Reg)
    requires !Complete(r)
    ensures Register(t, r) == AddPath(t, [], r.edges)
  {
  }

  lemma NewNodeEmpty(soft: bool)
    ensures End(NEW_NODE, soft) == None
  {
  }

  lemma NewTrieEmpty(p: Path, soft: bool)
    requires p in Replay([])
    ensures End(Replay([])[p], soft).None? && Latest([], p, soft).None?
  {
  }

  lemma CompleteRegister(t: Trie, r: Reg)
    requires Complete(r)
    ensures |Segs(r)| == |r.edges|
    ensures |Nodes([], Segs(r), r.edges)| == |NameLists(Segs(r))|
    ensures Register(t, r) == InstallAll(AddPath(t, [], r.edges), Nodes([], Segs(r), r.edges), EndsSoft(r), r.h,
                                         r.methods, NameLists(Segs(r)))
  {
    RegNodes(r);
  }

  lemma Unreached(r: Reg, p: Path)
    requires Complete(r) && !Reaches(r, p, EndsSoft(r))
    ensures p !in Nodes([], Segs(r), r.edges)
  {
    hide Nodes, Depths, Segs, EndsSoft, NameLists;
    RegNodes(r);
    var ps, ds := Nodes([], Segs(r), r.edges), Depths(Segs(r));
    forall j | 0 <= j < |ps| ensures ps[j] != p {
      assert ps[j] == r.edges[..ds[j]] && |ps[j]| == ds[j] && ds[j] in ds;
    }
  }

  /** An endpoint the registration does not reach is what it was; a new one is empty. */
  lemma RegisterElsewhere(t: Trie, r: Reg, p: Path, soft: bool)
    requires Closed(t) && p in Register(t, r) && !Reaches(r, p, soft)
    ensures End(Register(t, r)[p], soft) == if p in t then End(t[p], soft) else None
  {
    hide *;
    RootIn(t);
    AddPathKeeps(t, [], r.edges);
    RegisterKeeps(t, r);
    NewNodeEmpty(soft);
    if Complete(r) {
      CompleteRegister(t, r);
      if soft == EndsSoft(r) { Unreached(r, p); }
      InstallAllElsewhere(AddPath(t, [], r.edges), Nodes([], Segs(r), r.edges), EndsSoft(r), r.h, r.methods,
                          NameLists(Segs(r)), p, soft);
    } else {
      IncompleteRegister(t, r);
    }
  }

  lemma ReachedNode(r: Reg, p: Path, soft: bool) returns (j: nat)
    requires Reaches(r, p, soft)
    ensures Complete(r) && soft == EndsSoft(r) && |p| <= |r.edges| && p == r.edges[..|p|]
    ensures j < |Nodes([], Segs(r), r.edges)| && Nodes([], Segs(r), r.edges)[j] == p
    ensures j < |NameLists(Segs(r))| && VarNames(Segs(r)[..|p|]) <= NameLists(Segs(r))[j]
  {
    RegNodes(r);
    j := ReachedIndex(r, p, soft);
    NameListsPrefix(Segs(r), j);
    hide *;
  }

  /** An endpoint it reaches takes the handler, and in front of its names at least the names of
      the variables on the way to it. */
  lemma RegisterAt(t: Trie, r: Reg, p: Path, soft: bool) returns (names: seq<string>)
    requires Closed(t) && Reaches(r, p, soft)
    ensures p in Register(t, r) && |p| <= |Segs(r)| && VarNames(Segs(r)[..|p|]) <= names
    ensures End(Register(t, r)[p], soft) ==
            Some(Installed(if p in t then End(t[p], soft) else None, r.h, r.methods, names))
  {
    hide *;
    var j := ReachedNode(r, p, soft);
    names := NameLists(Segs(r))[j];
    RootIn(t);
    CompleteRegister(t, r);
    AddPathKeeps(t, [], r.edges);
    AddPathHas(t, [], r.edges, |p|);
    assert [] + r.edges[..|p|] == p;
    NewNodeEmpty(soft);
    RegNodes(r);
    InstallAllAt(AddPath(t, [], r.edges), Nodes([], Segs(r), r.edges), soft, r.h, r.methods, NameLists(Segs(r)), j);
  }

  /** A variable segment takes a variable edge and a literal one a literal edge. */
  lemma {:induction false} EdgesCount(env: Env, nodes: set<Path>, here: Path, segs: seq<Seg>, edges: Path, i: nat)
    requires Resolves(env, nodes, here, segs, edges) && i <= |edges| <= |segs|
    ensures VarCount(edges[..i]) == |VarNames(segs[..i])|
    decreases segs
  {
    if i > 0 {
      EdgesCount(env, nodes + {here + edges[..1]}, here + edges[..1], segs[1..], edges[1..], i - 1);
      assert edges[..i][1..] == edges[1..][..i - 1] && segs[..i][1..] == segs[1..][..i - 1];
    }
  }

  // ---------------------------------------------------------------- every history

  lemma {:induction false} ReplayClosed(hist: seq<Reg>)
    ensures Closed(Replay(hist))
  {
    if hist != [] {
      ReplayClosed(hist[..|hist| - 1]);
      RegisterKeeps(Replay(hist[..|hist| - 1]), hist[|hist| - 1]);
    }
  }

  /** The latest registration's k names stand first in the endpoint's; an endpoint is there
      exactly if it was registered. */
  predicate NamesOk(ep: Option<EndPoint>, latest: Option<seq<string>>, k: nat) {
    && (ep.None? <==> latest.None?)
    && (ep.Some? && latest.Some? ==> |latest.value| == k && latest.value <= ep.value.names)
  }

  lemma LatestNone(hist: seq<Reg>, p: Path, soft: bool)
    requires p !in Replay(hist)
    ensures Latest(hist, p, soft).None?
  {
    if hist != [] {
      var before, r := hist[..|hist| - 1], hist[|hist| - 1];
      ReplayClosed(before);
      RegisterKeeps(Replay(before), r);
      AddPathKeeps(Replay(before), [], r.edges);
      if Reaches(r, p, soft) { var _ := RegisterAt(Replay(before), r, p, soft); }
      LatestNone(before, p, soft);
    }
  }

  lemma HistoryInit(env: Env, hist: seq<Reg>)
    requires History(env, hist) && hist != []
    ensures History(env, hist[..|hist| - 1])
    ensures Resolves(env, Replay(hist[..|hist| - 1]).Keys, [], Segs(hist[|hist| - 1]), hist[|hist| - 1].edges)
  {
    hide Resolves, Replay, Segs;
    var before := hist[..|hist| - 1];
    forall i | 0 <= i < |before| ensures Resolves(env, Replay(before[..i]).Keys, [], Segs(before[i]), before[i].edges) {
      assert before[..i] == hist[..i];
    }
  }

  lemma ReplayUnfold(hist: seq<Reg>, p: Path, soft: bool)
    requires hist != []
    ensures var before, r := hist[..|hist| - 1], hist[|hist| - 1];
      && Replay(hist) == Register(Replay(before), r)
      && (Reaches(r, p, soft) ==> |p| <= |Segs(r)| && Latest(hist, p, soft) == Some(VarNames(Segs(r)[..|p|])))
      && (!Reaches(r, p, soft) ==> Latest(hist, p, soft) == Latest(before, p, soft))
  {
  }

  /** After any history, an endpoint reached through k variable edges has at least k names, and
      the first k are those of its latest registration. */
  lemma {:induction false} NamesOfLatest(env: Env, hist: seq<Reg>, p: Path, soft: bool)
    requires History(env, hist) && p in Replay(hist)
    ensures NamesOk(End(Replay(hist)[p], soft), Latest(hist, p, soft), VarCount(p))
  {
    hide Replay, Latest, VarCount, History, Register, Reaches, Segs, Resolves, Installed, VarNames, End, Closed, Nodes,
      NameLists, InstallAll, AddPath, EndsSoft, Depths;
    if hist == [] {
      NewTrieEmpty(p, soft);
    } else {
      var before, r := hist[..|hist| - 1], hist[|hist| - 1];
      var t := Replay(before);
      HistoryInit(env, hist);
      ReplayClosed(before);
      ReplayUnfold(hist, p, soft);
      if Reaches(r, p, soft) {
        var names := RegisterAt(t, r, p, soft);
        var j := ReachedNode(r, p, soft);
        CompleteRegister(t, r);
        EdgesCount(env, t.Keys, [], Segs(r), r.edges, |p|);
        InstalledNames(if p in t then End(t[p], soft) else None, r.h, r.methods, names);
      } else {
        RegisterElsewhere(t, r, p, soft);
        if p in t { NamesOfLatest(env, before, p, soft); } else { LatestNone(before, p, soft); }
      }
    }
  }

  // ---------------------------------------------------------------- handlers

  lemma SetMethodMeans(ep: EndPoint, h: Option<Handler>, m: string, verb: string)
    ensures Own(SetMethod(ep, h, m), verb) == if Known(verb) && Upper(m) == verb then h else Own(ep, verb)
  {
  }

  lemma {:induction false} SetMethodsMeans(ep: EndPoint, h: Option<Handler>, methods: seq<string>, verb: string)
    ensures Own(SetMethods(ep, h, methods), verb) ==
      if methods != [] && Sets(methods, verb) then h else Own(ep, verb)
  {
    if methods != [] {
      hide SetMethod, Own, Known;
      var n := |methods| - 1;
      SetMethodsMeans(ep, h, methods[..n], verb);
      SetMethodMeans(SetMethods(ep, h, methods[..n]), h, methods[n], verb);
      SetsOneMore(methods, verb);
    }
  }

  lemma SetsOneMore(methods: seq<string>, verb: string)
    requires methods != []
    ensures var n := |methods| - 1;
      Sets(methods, verb) <==>
      Known(verb) && (Upper(methods[n]) == verb || (n > 0 && Sets(methods[..n], verb)))
  {
    hide Known, Upper;
    var n := |methods| - 1;
    if Known(verb) && n > 0 && Sets(methods[..n], verb) {
      var i :| 0 <= i < n && Upper(methods[..n][i]) == verb;
      assert Upper(methods[i]) == verb;
    }
    if Sets(methods, verb) && Upper(methods[n]) != verb {
      var i :| 0 <= i < |methods| && Upper(methods[i]) == verb;
      assert Upper(methods[..n][i]) == verb;
    }
  }

  /** Exactly the verbs the methods name, or all but HEAD if there are none, get the handler. */
  lemma SetHandlerMeans(ep: EndPoint, h: Target, methods: seq<string>, verb: string)
    ensures Own(SetHandler(ep, h, methods), verb) ==
      if !h.Unsupported? && Sets(methods, verb) then Resolve(h) else Own(ep, verb)
  {
    if !h.Unsupported? && methods != [] { SetMethodsMeans(ep, Resolve(h), methods, verb); }
  }

  function OwnOf(ep: Option<EndPoint>, verb: string): Option<Handler> {
    if ep.None? then None else Own(ep.value, verb)
  }

  lemma InstalledHandler(before: Option<EndPoint>, h: Target, methods: seq<string>, names: seq<string>, verb: string)
    ensures Own(Installed(before, h, methods, names), verb) ==
      if !h.Unsupported? && Sets(methods, verb) then Resolve(h) else OwnOf(before, verb)
  {
    SetHandlerMeans(if before.Some? then before.value else NEW_END_POINT, h, methods, verb);
    hide SetHandler, Sets;
  }

  lemma LatestHandlerUnfold(hist: seq<Reg>, p: Path, soft: bool, verb: string)
    requires hist != []
    ensures var r, before := hist[|hist| - 1], LatestHandler(hist[..|hist| - 1], p, soft, verb);
      LatestHandler(hist, p, soft, verb) ==
      if Reaches(r, p, soft) && !r.h.Unsupported? && Sets(r.methods, verb) then Resolve(r.h) else before
  {
  }

  /** No handler has been given to an endpoint that was never reached. */
  lemma {:induction false} LatestHandlerNone(hist: seq<Reg>, p: Path, soft: bool, verb: string)
    requires Latest(hist, p, soft).None?
    ensures LatestHandler(hist, p, soft, verb).None?
  {
    if hist != [] { LatestHandlerNone(hist[..|hist| - 1], p, soft, verb); }
  }

  /** After any history an endpoint's handler for a verb is the one its latest registration for that verb
      gave it. */
  lemma {:induction false} HandlersOfLatest(hist: seq<Reg>, p: Path, soft: bool, verb: string)
    requires p in Replay(hist)
    ensures OwnOf(End(Replay(hist)[p], soft), verb) == LatestHandler(hist, p, soft, verb)
  {
    hide *;
    if hist == [] {
      NewTrieEmpty(p, soft);
      LatestHandlerNone(hist, p, soft, verb);
      NoneOwned(verb);
    } else {
      var before, r := hist[..|hist| - 1], hist[|hist| - 1];
      var t := Replay(before);
      ReplayClosed(before);
      ReplayUnfold(hist, p, soft);
      LatestHandlerUnfold(hist, p, soft, verb);
      if p in t {
        HandlersOfLatest(before, p, soft, verb);
      } else {
        LatestNone(before, p, soft);
        LatestHandlerNone(before, p, soft, verb);
        NoneOwned(verb);
      }
      if Reaches(r, p, soft) {
        var names := RegisterAt(t, r, p, soft);
        InstalledHandler(if p in t then End(t[p], soft) else None, r.h, r.methods, names, verb);
        SomeOwned(End(Replay(hist)[p], soft), verb);
      } else {
        RegisterElsewhere(t, r, p, soft);
      }
    }
  }

  lemma NoneOwned(verb: string)
    ensures OwnOf(None, verb) == None
  {
  }

  lemma SomeOwned(ep: Option<EndPoint>, verb: string)
    requires ep.Some?
    ensures OwnOf(ep, verb) == Own(ep.value, verb)
  {
  }

  /** What answers for a verb is what was given last for it, HEAD falling back to GET. */
  lemma ServingIs(hist: seq<Reg>, p: Path, soft: bool, verb: string)
    requires p in Replay(hist) && End(Replay(hist)[p], soft).Some?
    ensures HandlerFor(End(Replay(hist)[p], soft).value, verb) == Serving(hist, p, soft, verb)
  {
    hide Replay, End, LatestHandler;
    HandlersOfLatest(hist, p, soft, verb);
    HandlersOfLatest(hist, p, soft, "GET");
  }

  lemma {:induction false} GivenLast(hist: seq<Reg>, n: nat, p: Path, soft: bool, verb: string)
    requires GivesLast(hist, n, p, soft, verb)
    ensures LatestHandler(hist, p, soft, verb) == Resolve(hist[n].h)
  {
    hide Gives;
    if n < |hist| - 1 { GivenLast(hist[..|hist| - 1], n, p, soft, verb); }
  }

  lemma {:induction false} ReachedBefore(hist: seq<Reg>, n: nat, p: Path, soft: bool)
    requires n < |hist| && Reaches(hist[n], p, soft)
    ensures Latest(hist, p, soft).Some?
  {
    hide Reaches;
    if n < |hist| - 1 { ReachedBefore(hist[..|hist| - 1], n, p, soft); }
  }

  // ---------------------------------------------------------------- binding captures to names

  /** The PData loop of GetRequestedEndPoint (router/route.go:525-530). */
  function Bind(names: seq<string>, data: seq<string>): map<string, string>
    requires |data| <= |names|
    decreases data
  {
    if data == [] then map[]
    else
      var n := |data| - 1;
      var m := Bind(names, data[..n]);
      if names[n] == "_" then m else m[names[n] := data[n]]
  }

  /** A name is bound to the last capture it stands for, and every capture but "_" is bound. */
  lemma {:induction false} BindMeans(names: seq<string>, data: seq<string>, name: string)
    requires |data| <= |names|
    ensures name in Bind(names, data) <==> name != "_" && exists j :: 0 <= j < |data| && names[j] == name
    ensures name in Bind(names, data) ==> 
      exists j :: 0 <= j < |data| && names[j] == name && Bind(names, data)[name] == data[j] &&
        (forall k :: j < k < |data| ==> names[k] != name)
  {
    if data != [] {
      var n := |data| - 1;
      BindMeans(names, data[..n], name);
      assert names[n] == name || names[n] != name;
    }
  }

  lemma {:induction false} BindPrefix(a: seq<string>, b: seq<string>, data: seq<string>)
    requires |data| <= |a| && a <= b
    ensures Bind(a, data) == Bind(b, data)
  {
    if data != [] { BindPrefix(a, b, data[..|data| - 1]); }
  }

  /** Whatever FindEndPoint returns after any history, GetRequestedEndPoint indexes no further than
      the endpoint's names, and binds each capture to the name its latest registration gave the
      variable edge that captured it. */
  lemma CapturesAreNamed(env: Env, hist: seq<Reg>, p: seq<string>, r: Found)
    requires History(env, hist) && Finds(env, Replay(hist), [], p, [], r)
    ensures r.at in Replay(hist) && VarCount(r.at) == |r.data|
    ensures var ep := End(Replay(hist)[r.at], r.soft);
      ep.Some? ==>
        && |r.data| <= |ep.value.names|
        && var latest := Latest(hist, r.at, r.soft);
        && latest.Some? && |latest.value| == |r.data|
        && Bind(ep.value.names, r.data) == Bind(latest.value, r.data)
  {
    ReplayClosed(hist);
    LookupStaysInside(env, Replay(hist), [], p, [], r);
    LookupConserves(env, Replay(hist), [], p, [], r);
    assert r.at[0..] == r.at && r.data[0..] == r.data;
    NamesOfLatest(env, hist, r.at, r.soft);
    hide Latest, Replay, Finds;
    var ep, latest := End(Replay(hist)[r.at], r.soft), Latest(hist, r.at, r.soft);
    if ep.Some? { BindPrefix(latest.value, ep.value.names, r.data); }
  }

  // ---------------------------------------------------------------- literal routes

  function HardPath(keys: seq<string>): (p: Path)
    ensures |p| == |keys| && forall i :: 0 <= i < |keys| ==> p[i] == Hard(keys[i])
  {
    seq(|keys|, i requires 0 <= i < |keys| => Hard(keys[i]))
  }

  lemma {:induction false} PrefixIn(t: Trie, p: Path, i: nat)
    requires Closed(t) && p in t && i <= |p|
    ensures p[..i] in t
    decreases |p| - i
  {
    if i < |p| {
      PrefixIn(t, p, i + 1);
      assert p[..i + 1] == p[..i] + [p[i]];
    } else {
      assert p[..i] == p;
    }
  }

  /** Whatever other edges there are, a lookup that can follow literal edges all the way does. */
  lemma {:induction false} LiteralLookup(env: Env, t: Trie, keys: seq<string>, i: nat, data: seq<string>, r: Found)
    requires Closed(t) && HardPath(keys) in t && i <= |keys|
    requires Finds(env, t, HardPath(keys)[..i], keys[i..], data, r)
    ensures r == Found(HardPath(keys), t[HardPath(keys)].hard.None?, [], data)
    decreases |keys| - i
  {
    var path := HardPath(keys);
    if i == |keys| {
      assert path[..i] == path && keys[i..] == [];
    } else {
      PrefixIn(t, path, i + 1);
      var p := keys[i..];
      assert path[..i + 1] == path[..i] + [path[i]] && p[0] == keys[i] && p[1..] == keys[i + 1..];
      assert Follows(env, t, path[..i], p, Hard(p[0]), []);
      var e, c :| Follows(env, t, path[..i], p, e, c) && Finds(env, t, path[..i] + [e], p[1..], data + c, r);
      assert data + c == data;
      LiteralLookup(env, t, keys, i + 1, data, r);
    }
  }

  lemma {:induction false} LiteralEdges(env: Env, nodes: set<Path>, here: Path, keys: seq<string>, edges: Path)
    requires Resolves(env, nodes, here, Lits(keys), edges)
    ensures edges == HardPath(keys)
    decreases keys
  {
    if keys != [] {
      assert Lits(keys)[1..] == Lits(keys[1..]);
      assert edges != [];
      LiteralEdges(env, nodes + {here + edges[..1]}, here + edges[..1], keys[1..], edges[1..]);
      assert edges == [edges[0]] + edges[1..];
    }
  }

  /** A registration that does not reach an endpoint leaves it as it is. */
  lemma {:induction false} EndPointStays(hist: seq<Reg>, n: nat, p: Path, soft: bool)
    requires n <= |hist| && p in Replay(hist[..n])
    requires forall j :: n <= j < |hist| ==> !Reaches(hist[j], p, soft)
    ensures p in Replay(hist) && End(Replay(hist)[p], soft) == End(Replay(hist[..n])[p], soft)
  {
    hide *;
    if n == |hist| {
      assert hist[..n] == hist;
    } else {
      var before, r := hist[..|hist| - 1], hist[|hist| - 1];
      assert before[..n] == hist[..n];
      EndPointStays(before, n, p, soft);
      ReplayClosed(before);
      ReplayUnfold(hist, p, soft);
      RootIn(Replay(before));
      AddPathKeeps(Replay(before), [], r.edges);
      RegisterKeeps(Replay(before), r);
      RegisterElsewhere(Replay(before), r, p, soft);
    }
  }

  /** A registration reaches its own node. */
  lemma ReachesOwnNode(r: Reg)
    requires Complete(r)
    ensures Reaches(r, r.edges, EndsSoft(r))
  {
    DepthsBound(Segs(r));
    hide Segs, Depths, EndsSoft;
    assert Depths(Segs(r))[|Depths(Segs(r))| - 1] == |r.edges|;
  }

  /** The registration of a literal pattern without a trailing slash reaches exactly the hard end
      of the node its keys spell. */
  lemma LiteralReaches(env: Env, nodes: set<Path>, r: Reg, keys: seq<string>)
    requires PlainKeys(keys) && (r.p == Join(keys, '/') || r.p == "/" + Join(keys, '/'))
    requires Resolves(env, nodes, [], Segs(r), r.edges)
    ensures r.edges == HardPath(keys) && Reaches(r, HardPath(keys), false)
  {
    hide *;
    LiteralTrimmed(r.p, keys);
    LiteralSegments(keys);
    LiteralReg(r, keys);
    LiteralEdges(env, nodes, [], keys, r.edges);
    LiteralComplete(r, keys);
    ReachesOwnNode(r);
  }

  lemma LiteralReg(r: Reg, keys: seq<string>)
    requires TrimSpace(r.p) == r.p != "" && r.p[|r.p| - 1] != '/' && Segments(r.p) == Lits(keys)
    ensures Segs(r) == Lits(keys) && !EndsSoft(r)
  {
    hide Segments, TrimSpace, Lits;
  }

  lemma LiteralComplete(r: Reg, keys: seq<string>)
    requires Segs(r) == Lits(keys) && r.edges == HardPath(keys)
    ensures Complete(r)
  {
    hide Segs, HardPath;
  }

  lemma LiteralTrimmed(p: string, keys: seq<string>)
    requires PlainKeys(keys) && (p == Join(keys, '/') || p == "/" + Join(keys, '/'))
    ensures TrimSpace(p) == p && p != "" && p[|p| - 1] != '/'
  {
    JoinEnds(keys);
    var s := Join(keys, '/');
    assert p[|p| - 1] == s[|s| - 1];
  }

  /** A literal route is never shadowed: whatever else is registered, before or after, looking up its own
      path returns its endpoint, with nothing captured and nothing left over.  What answers there for a
      verb is the handler given last for it: that of this registration, until a later one gives another. */
  lemma LiteralNeverShadowed(env: Env, hist: seq<Reg>, n: nat, keys: seq<string>, verb: string, r: Found)
    requires History(env, hist) && n < |hist| && PlainKeys(keys)
    requires hist[n].p == Join(keys, '/') || hist[n].p == "/" + Join(keys, '/')
    requires Finds(env, Replay(hist), [], SplitPath(hist[n].p), [], r)
    ensures r == Found(HardPath(keys), false, [], [])
    ensures r.at in Replay(hist) && End(Replay(hist)[r.at], false).Some?
    ensures HandlerFor(End(Replay(hist)[r.at], false).value, verb) == Serving(hist, r.at, false, verb)
    ensures GivesLast(hist, n, r.at, false, verb) && hist[n].h.Supported? ==>
      Serving(hist, r.at, false, verb) == Some(hist[n].h.h)
  {
    hide *;
    var path := HardPath(keys);
    HistoryAt(env, hist, n);
    LiteralReaches(env, Replay(hist[..n]).Keys, hist[n], keys);
    ReachedBefore(hist, n, path, false);
    if path !in Replay(hist) { LatestNone(hist, path, false); }
    NamesOfLatest(env, hist, path, false);
    NamesSome(End(Replay(hist)[path], false), Latest(hist, path, false), VarCount(path));
    ReplayClosed(hist);
    LiteralSplitPath(keys);
    assert path[..0] == [] && keys[0..] == keys;
    LiteralLookup(env, Replay(hist), keys, 0, [], r);
    HardEnd(Replay(hist)[path]);
    ServingIs(hist, path, false, verb);
    if GivesLast(hist, n, path, false, verb) && hist[n].h.Supported? { ServedLast(hist, n, path, false, verb); }
  }

  lemma NamesSome(ep: Option<EndPoint>, latest: Option<seq<string>>, k: nat)
    requires NamesOk(ep, latest, k) && latest.Some?
    ensures ep.Some?
  {
  }

  lemma ServedLast(hist: seq<Reg>, n: nat, p: Path, soft: bool, verb: string)
    requires GivesLast(hist, n, p, soft, verb) && hist[n].h.Supported?
    ensures Serving(hist, p, soft, verb) == Some(hist[n].h.h)
  {
    GivenLast(hist, n, p, soft, verb);
    hide LatestHandler, GivesLast;
  }
}
