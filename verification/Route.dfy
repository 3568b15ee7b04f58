/** SunnyEndPoint and SunnyRoute (router/route.go) as mutable objects, proved against RouteTrie. */
module Route {
  import opened Text
  import opened RoutePattern
  import opened RouteTrie
  import opened RouteTheorems

  /** What GetRequestedEndPoint hands on. */
  datatype Requested = Requested(
    ext: string, upath: seq<string>, pdata: map<string, string>, verb: string, handler: Handler)

  /** The rest of a path, its last piece without the extension if it has a dot. */
  function Bare(upath: seq<string>): seq<string> {
    if upath != [] && '.' in upath[|upath| - 1] then upath[..|upath| - 1] + [StripExt(upath[|upath| - 1])] else upath
  }

  lemma BindNone(names: seq<string>, data: seq<string>)
    requires data == []
    ensures Bind(names, data) == map[]
  {
  }

  lemma BindOneMore(names: seq<string>, data: seq<string>, i: nat)
    requires i < |data| <= |names|
    ensures Bind(names, data[..i + 1]) ==
      if names[i] == "_" then Bind(names, data[..i]) else Bind(names, data[..i])[names[i] := data[i]]
  {
    assert data[..i + 1][..i] == data[..i];
  }

  class SunnyEndPoint {
    var get: Option<Handler>
    var post: Option<Handler>
    var put: Option<Handler>
    var patch: Option<Handler>
    var del: Option<Handler>
    var head: Option<Handler>
    var varnames: seq<string>

    ghost function Value(): EndPoint
      reads this
    {
      EndPoint(get, post, put, patch, del, head, varnames)
    }

    constructor ()
      ensures Value() == NEW_END_POINT
    {
      get, post, put, patch, del, head := None, None, None, None, None, None;
      varnames := [];
    }

    method PrependVarName(names: seq<string>)
      modifies this
      ensures Value() == old(Value()).(names := names + old(varnames))
    {
      varnames := names + varnames;
    }

    method SetHandler(h: Target, methods: seq<string>) returns (ok: bool)
      modifies this
      ensures ok <==> !h.Unsupported?
      ensures Value() == RouteTrie.SetHandler(old(Value()), h, methods)
    {
      if h.Unsupported? { return false; }
      var v := Resolve(h);
      if methods == [] {
        get, post, put, patch, del := v, v, v, v, v;
      } else {
        for i := 0 to |methods|
          invariant Value() == SetMethods(old(Value()), v, methods[..i])
        {
          assert methods[..i + 1][..i] == methods[..i];
          var m := Upper(methods[i]);
          if m == "GET" { get := v; }
          else if m == "POST" { post := v; }
          else if m == "PUT" { put := v; }
          else if m == "PATCH" { patch := v; }
          else if m == "DELETE" { del := v; }
          else if m == "HEAD" { head := v; }
        }
        assert methods[..|methods|] == methods;
      }
      return true;
    }

    /** GetRequestedEndPoint (router/route.go:522-553).  More captures than names would panic. */
    method GetRequestedEndPoint(verb: string, urlPath: string, upath: seq<string>, data: seq<string>)
      returns (r: Option<Requested>)
      requires |data| <= |varnames|
      ensures r.None? <==> HandlerFor(Value(), verb).None?
      ensures r.Some? ==>
        && r.value.pdata == Bind(varnames, data)
        && r.value.verb == verb && HandlerFor(Value(), verb) == Some(r.value.handler)
        && r.value.upath == Bare(upath)
        && r.value.ext == if upath != [] && '.' in upath[|upath| - 1] then Ext(upath[|upath| - 1])
                          else Ext(TrimRight(urlPath, IsSlash))
    {
      hide Ext, StripExt, TrimRight, Bind;
      var h := if verb == "GET" then get else if verb == "POST" then post else if verb == "PUT" then put
        else if verb == "PATCH" then patch else if verb == "DELETE" then del
        else if verb == "HEAD" then (if head == None && get.Some? then get else head) else None;
      if h.None? { return None; }
      var pdata := map[];
      BindNone(varnames, data[..0]);
      for i := 0 to |data|
        invariant pdata == Bind(varnames, data[..i])
      {
        BindOneMore(varnames, data, i);
        if varnames[i] != "_" { pdata := pdata[varnames[i] := data[i]]; }
      }
      assert data[..|data|] == data;
      var ext, last, up := "", |upath| - 1, upath;
      if last >= 0 && '.' in upath[last] {
        ext := Ext(upath[last]);
        up := upath[last := StripExt(upath[last])];
        assert up == upath[..last] + [StripExt(upath[last])];
      } else {
        ext := Ext(TrimRight(urlPath, IsSlash));
      }
      return Some(Requested(ext, up, pdata, verb, h.value));
    }
  }

  class SunnyRoute {
    var hardend: SunnyEndPoint?
    var softend: SunnyEndPoint?
    var hardroute: map<string, SunnyRoute>
    var regxroute: map<Regexp, SunnyRoute>
    var typeroute: seq<SunnyRoute?>
    var softroute: SunnyRoute?

    constructor ()
      ensures Ok() && hardend == null && softend == null
      ensures forall e :: Child(e) == null
    {
      hardend, softend := null, null;
      hardroute, regxroute, typeroute, softroute := map[], map[], [null, null, null, null], null;
    }

    /** typeroute has its four slots, and identities up to the map's size are taken. */
    ghost predicate Ok()
      reads this
    {
      |typeroute| == 4 && forall re :: re in regxroute ==> re.id < |regxroute|
    }

    ghost function Child(e: Edge): SunnyRoute?
      reads this
    {
      match e
      case Hard(key) => if key in hardroute then hardroute[key] else null
      case Regex(re) => if re in regxroute then regxroute[re] else null
      case Typed(i) => if i < |typeroute| then typeroute[i] else null
      case Soft => softroute
    }

    twostate predicate SameEdges()
      reads this
    {
      && hardroute == old(hardroute) && regxroute == old(regxroute)
      && typeroute == old(typeroute) && softroute == old(softroute)
    }

    twostate lemma SameEdgesSameChild(e: Edge)
      requires SameEdges()
      ensures Ok() == old(Ok()) && Child(e) == old(Child(e))
    {
    }

    ghost function Slot(soft: bool): SunnyEndPoint?
      reads this
    {
      if soft then softend else hardend
    }

    /** Finds or makes the edge for one segment (router/route.go:131-205); null is a panic. */
    method Enter(env: Env, s: Seg, ghost nodes: set<Path>, ghost here: Path) returns (rt: SunnyRoute?, ghost e: Edge)
      requires Ok() && forall f :: here + [f] in nodes <==> Child(f) != null
      modifies this
      ensures Ok() && hardend == old(hardend) && softend == old(softend)
      ensures rt == null <==> Panics(env, nodes, here, s)
      ensures rt == null ==> unchanged(this)
      ensures rt != null ==> Fits(env, nodes, here, s, e) && Child(e) == rt
      ensures rt != null ==> forall f :: f != e ==> Child(f) == old(Child(f))
      ensures rt != null ==> if here + [e] in nodes then rt == old(Child(e)) else
        fresh(rt) && rt.Ok() && rt.hardend == null && rt.softend == null && forall f :: rt.Child(f) == null
    {
      rt, e := null, Soft;
      match s
      case Lit(key) =>
        e := Hard(key);
        if key in hardroute {
          rt := hardroute[key];
        } else {
          rt := new SunnyRoute();
          hardroute := hardroute[key := rt];
        }
      case Var(kind, _, _) =>
        match kind
        case IntKind => rt, e := EnterTyped(0);
        case Int64Kind => rt, e := EnterTyped(1);
        case FloatKind => rt, e := EnterTyped(2);
        case Float64Kind => rt, e := EnterTyped(3);
        case SoftKind =>
          e := Soft;
          rt := softroute;
          if rt == null {
            rt := new SunnyRoute();
            softroute := rt;
          }
        case RegexKind(expr) =>
          rt, e := EnterRegex(env, s, expr, nodes, here);
    }

    method EnterTyped(i: nat) returns (rt: SunnyRoute, ghost e: Edge)
      requires Ok() && i < 4
      modifies this
      ensures Ok() && hardend == old(hardend) && softend == old(softend)
      ensures e == Typed(i) && Child(e) == rt
      ensures forall f :: f != e ==> Child(f) == old(Child(f))
      ensures if old(Child(e)) != null then rt == old(Child(e)) else
        fresh(rt) && rt.Ok() && rt.hardend == null && rt.softend == null && forall f :: rt.Child(f) == null
    {
      e := Typed(i);
      if typeroute[i] != null {
        rt := typeroute[i];
      } else {
        rt := new SunnyRoute();
        typeroute := typeroute[i := rt];
      }
    }

    method EnterRegex(env: Env, s: Seg, expr: string, ghost nodes: set<Path>, ghost here: Path)
      returns (rt: SunnyRoute?, ghost e: Edge)
      requires s.Var? && s.kind == RegexKind(expr)
      requires Ok() && forall f :: here + [f] in nodes <==> Child(f) != null
      modifies this
      ensures Ok() && hardend == old(hardend) && softend == old(softend)
      ensures rt == null <==> Panics(env, nodes, here, s)
      ensures rt == null ==> unchanged(this)
      ensures rt != null ==> Fits(env, nodes, here, s, e) && Child(e) == rt
      ensures rt != null ==> forall f :: f != e ==> Child(f) == old(Child(f))
      ensures rt != null ==> if here + [e] in nodes then rt == old(Child(e)) else
        fresh(rt) && rt.Ok() && rt.hardend == null && rt.softend == null && forall f :: rt.Child(f) == null
    {
      rt, e := null, Soft;
      RegexNodes(nodes, here);
      var found := FindRegex(expr);
      if found.Some? {
        rt, e := regxroute[found.value], Regex(found.value);
        assert here + [e] in nodes;
        return;
      }
      assert !HasRegex(nodes, here, expr);
      if expr == "" || !env.compiles(Anchor(expr)) { return; }
      var re := Regexp(|regxroute|, Anchor(expr));
      e := Regex(re);
      rt := AddRegex(re);
    }

    method AddRegex(re: Regexp) returns (rt: SunnyRoute)
      requires Ok() && re.id == |regxroute|
      modifies this
      ensures Ok() && hardend == old(hardend) && softend == old(softend)
      ensures old(Child(Regex(re))) == null && Child(Regex(re)) == rt
      ensures forall f :: f != Regex(re) ==> Child(f) == old(Child(f))
      ensures fresh(rt) && rt.Ok() && rt.hardend == null && rt.softend == null && forall f :: rt.Child(f) == null
    {
      rt := new SunnyRoute();
      regxroute := regxroute[re := rt];
    }

    lemma RegexNodes(nodes: set<Path>, here: Path)
      requires forall f :: here + [f] in nodes <==> Child(f) != null
      ensures forall re :: here + [Regex(re)] in nodes <==> re in regxroute
    {
      forall re ensures here + [Regex(re)] in nodes <==> re in regxroute {
        assert Child(Regex(re)) != null <==> re in regxroute;
      }
    }

    /** Any entry with this very text: map iteration order is not fixed. */
    method FindRegex(expr: string) returns (found: Option<Regexp>)
      ensures found.Some? ==> found.value in regxroute && found.value.expr == expr
      ensures found.None? ==> forall re :: re in regxroute ==> re.expr != expr
    {
      var left := regxroute.Keys;
      while left != {}
        invariant left <= regxroute.Keys
        invariant forall re :: re in regxroute && re !in left ==> re.expr != expr
        decreases left
      {
        var re :| re in left;
        if re.expr == expr { return Some(re); }
        left := left - {re};
      }
      return None;
    }

    /** Enter, with what it does to the whole trie. */
    method EnterAt(env: Env, s: Seg, ghost at: map<Path, SunnyRoute>, ghost here: Path)
      returns (rt: SunnyRoute?, ghost e: Edge, ghost at': map<Path, SunnyRoute>)
      requires Shape(at) && here in at && at[here] == this
      modifies this
      ensures Shape(at') && hardend == old(hardend) && softend == old(softend)
      ensures rt == null ==> Panics(env, at.Keys, here, s) && at' == at
      ensures rt != null ==> Fits(env, at.Keys, here, s, e) && at' == at[here + [e] := rt] && Grown(at, at')
      ensures rt != null && here + [e] !in at ==> fresh(rt) && NoEnds(rt)
    {
      ChildrenAreNodes(at, here);
      hide Shape, Fits, Panics;
      rt, e := Enter(env, s, at.Keys, here);
      at' := at;
      if rt != null {
        at' := at[here + [e] := rt];
        Attached(at, here, e, rt);
      }
    }

    /** BuildRoute (router/route.go:112-235), at the node for path `here`.  It returns the nodes to
        register, each with its names; ok is false if a regular expression panics. */
    method BuildRoute(env: Env, p: string, ghost at: map<Path, SunnyRoute>, ghost here: Path)
      returns (ok: bool, varnames: seq<seq<string>>, rts: seq<SunnyRoute>,
               ghost at': map<Path, SunnyRoute>, ghost edges: Path)
      requires Shape(at) && here in at && at[here] == this
      modifies at.Values
      ensures Shape(at') && Grown(at, at')
      ensures at'.Keys == Grow(at.Keys, here, edges)
      ensures forall q :: q in at ==> at[q].hardend == old(at[q].hardend) && at[q].softend == old(at[q].softend)
      ensures forall q :: q in at' && q !in at ==> fresh(at'[q]) && NoEnds(at'[q])
      ensures Resolves(env, at.Keys, here, Segments(p), edges)
      ensures ok <==> |edges| == |Segments(p)|
      ensures ok ==> varnames == NameLists(Segments(p)) && AreNodes(at', rts, Nodes(here, Segments(p), edges))
      decreases |p|
    {
      hide Shape, Segments, Fits, Resolves, Grow, Nodes, NameLists, ParseSeg, Trimmed, Head, Tail, Panics;
      var q := Trimmed(p);
      BuildEnd(env, at.Keys, here, p);
      ok, varnames, rts, at', edges := true, [[]], [this], at, [];
      if q != "" {
        var seg := ParseSeg(Head(q));
        ghost var e, at1;
        var rt;
        rt, e, at1 := EnterAt(env, seg, at, here);
        if rt == null {
          ok := false;
        } else {
          assert at1.Keys == at.Keys + {here + [e]};
          ghost var es: Path;
          ok, varnames, rts, at', es := rt.BuildRoute(env, Tail(q), at1, here + [e]);
          edges := [e] + es;
          BuildStep(env, at.Keys, here, p, e, es);
          if ok {
            varnames := Named(seg, varnames);
            if Optional(seg) {
              rts := [this] + rts;
              varnames := [[seg.name]] + varnames;
            }
          }
        }
      }
    }

    /** Handle on this very node, then PrependVarName: the endpoint is made on first use. */
    method Install(soft: bool, h: Target, methods: seq<string>, names: seq<string>,
                   ghost at: map<Path, SunnyRoute>, ghost here: Path)
      returns (ep: SunnyEndPoint)
      requires Shape(at) && Apart(at) && here in at && at[here] == this
      modifies this, Ends(at)
      ensures Shape(at) && Apart(at)
      ensures forall p :: p in at && p != here ==> unchanged(at[p])
      ensures forall x :: x in Ends(at) ==> x in old(Ends(at)) || fresh(x)
      ensures Abs(at) == RouteTrie.Install(old(Abs(at)), here, soft, h, methods, names)
      ensures ep == Slot(soft)
    {
      hide Shape, Apart, Abs, Ok, Child, RouteTrie.SetHandler, SetMethods, RouteTrie.Install;
      NodesDiffer(at, here);
      SlotsInEnds(at, here, soft);
      ep := EnsureEnd(soft);
      var ok := ep.SetHandler(h, methods);
      ep.PrependVarName(names);
      EdgesSame(at, here);
      ShapeSame(at);
      FilledApart(at, here, soft, ep);
      FilledAbs(at, here, soft, ep, h, methods, names);
    }

    /** The endpoint in this slot, made on first use. */
    method EnsureEnd(soft: bool) returns (ep: SunnyEndPoint)
      modifies this`hardend, this`softend
      ensures ep == Slot(soft) && Slot(!soft) == old(Slot(!soft))
      ensures old(Slot(soft)) == null ==> fresh(ep) && ep.Value() == NEW_END_POINT
      ensures old(Slot(soft)) != null ==> ep == old(Slot(soft))
    {
      if soft {
        if softend == null { softend := new SunnyEndPoint(); }
        ep := softend;
      } else {
        if hardend == null { hardend := new SunnyEndPoint(); }
        ep := hardend;
      }
    }

    /** Handle (router/route.go:255-302) on the root. */
    method Handle(env: Env, p: string, h: Target, methods: seq<string>, ghost at: map<Path, SunnyRoute>)
      returns (ok: bool, ep: SunnyEndPoint?, ghost at': map<Path, SunnyRoute>, ghost r: Reg)
      requires Shape(at) && Apart(at) && at[[]] == this
      modifies at.Values, Ends(at)
      ensures Shape(at') && Apart(at') && Grown(at, at')
      ensures r == Reg(p, h, methods, r.edges) && Resolves(env, at.Keys, [], Segs(r), r.edges)
      ensures ok <==> Complete(r)
      ensures Abs(at') == Register(old(Abs(at)), r)
      ensures forall q :: q in at' && q !in at ==> fresh(at'[q])
      ensures forall x :: x in Ends(at') ==> x in old(Ends(at)) || fresh(x)
    {
      hide Shape, Apart, Segs, Segments, Resolves, Register, InstallAll, RouteTrie.Install, AddPath, Complete,
        EndsSoft, Nodes, NameLists, Abs, Grow, TrimSpace;
      RootNode(at);
      var q := TrimSpace(p);
      at', ok, ep := at, true, null;
      if q == "" || q == "/" {
        r := Reg(p, h, methods, []);
        SegsOf(r, q);
        SlashHasNoSegments(q);
        RootRegister(env, Abs(at), r);
        ep := Install(q == "/", h, methods, [], at, []);
      } else {
        ghost var t := Abs(at);
        var varnames, rts;
        ghost var edges;
        ok, varnames, rts, at', edges := BuildRoute(env, q, at, []);
        r := Reg(p, h, methods, edges);
        SegsOf(r, q);
        CompleteMeans(r);
        BuiltApart(at, at');
        BuiltAbs(at, at', edges);
        if ok {
          CompleteRegister(t, r);
          ep := InstallEach(q[|q| - 1] == '/', h, methods, varnames, rts, at', Nodes([], Segs(r), edges));
        } else {
          IncompleteRegister(t, r);
        }
      }
    }

    /** The loop of Handle over the nodes BuildRoute returned. */
    method InstallEach(soft: bool, h: Target, methods: seq<string>,
                       varnames: seq<seq<string>>, rts: seq<SunnyRoute>,
                       ghost at: map<Path, SunnyRoute>, ghost ps: seq<Path>)
      returns (ep: SunnyEndPoint?)
      requires Shape(at) && Apart(at) && AreNodes(at, rts, ps) && |ps| == |varnames|
      modifies at.Values, Ends(at)
      ensures Shape(at) && Apart(at)
      ensures forall x :: x in Ends(at) ==> x in old(Ends(at)) || fresh(x)
      ensures Abs(at) == InstallAll(old(Abs(at)), ps, soft, h, methods, varnames)
    {
      hide Shape, Apart, Abs, Ends, InstallAll, RouteTrie.Install;
      ghost var t := Abs(at);
      ghost var es := Ends(at);
      ep := null;
      for i := 0 to |rts|
        invariant Shape(at) && Apart(at)
        invariant forall x :: x in Ends(at) ==> x in es || fresh(x)
        invariant InstallAll(Abs(at), ps[i..], soft, h, methods, varnames[i..]) ==
                  InstallAll(t, ps, soft, h, methods, varnames)
      {
        InstallAllStep(Abs(at), ps, soft, h, methods, varnames, i);
        ep := rts[i].Install(soft, h, methods, varnames[i], at, ps[i]);
      }
      assert ps[|ps|..] == [] && varnames[|ps|..] == [];
      InstallAllNone(Abs(at), soft, h, methods);
    }

    /** The first type slot that takes the piece (router/route.go:349-371). */
    method FindTyped(env: Env, typepath: string) returns (i: nat)
      requires Ok()
      ensures i <= 4 && (i < 4 ==> typeroute[i] != null && TypeAccepts(env, i, typepath))
      ensures forall k :: 0 <= k < i ==> typeroute[k] == null || !TypeAccepts(env, k, typepath)
    {
      i := 0;
      while i < 4
        invariant i <= 4
        invariant forall k :: 0 <= k < i ==> typeroute[k] == null || !TypeAccepts(env, k, typepath)
      {
        if typeroute[i] != null && TypeAccepts(env, i, typepath) { return; }
        i := i + 1;
      }
    }

    /** Some regular expression that matches (router/route.go:336-342), in whatever order. */
    method FindMatch(env: Env, p: seq<string>) returns (found: Option<Regexp>)
      requires p != []
      ensures found.Some? ==> found.value in regxroute && RegexCapture(env, found.value.expr, p).Some?
      ensures found.None? ==> forall re :: re in regxroute ==> RegexCapture(env, re.expr, p).None?
    {
      var left := regxroute.Keys;
      while left != {}
        invariant left <= regxroute.Keys
        invariant forall re :: re in regxroute && re !in left ==> RegexCapture(env, re.expr, p).None?
        decreases left
      {
        var re :| re in left;
        if RegexCapture(env, re.expr, p).Some? { return Some(re); }
        left := left - {re};
      }
      return None;
    }

    /** The edge to follow for the first piece of p, and what it captures; null if there is none. */
    method Follow(env: Env, p: seq<string>, ghost t: Trie, ghost at: map<Path, SunnyRoute>, ghost here: Path)
      returns (next: SunnyRoute?, capture: seq<string>, ghost e: Edge)
      requires p != [] && Shape(at) && Stands(t, at) && here in at && at[here] == this
      ensures next == null ==> forall f, c :: !Follows(env, t, here, p, f, c)
      ensures next != null ==> Follows(env, t, here, p, e, capture) && here + [e] in at && next == at[here + [e]]
    {
      hide Shape, Stands, RegexCapture, PlainCapture, TypeAccepts;
      next, capture, e := null, [], Soft;
      NodeOk(at, here);
      HardEdge(t, at, here, p[0]);
      RegexEdges(t, at, here);
      TypedEdges(t, at, here);
      SoftEdge(t, at, here);
      if p[0] in hardroute {
        next, e := hardroute[p[0]], Hard(p[0]);
      } else {
        var found := FindMatch(env, p);
        if found.Some? {
          next, e := regxroute[found.value], Regex(found.value);
          capture := [RegexCapture(env, found.value.expr, p).value];
          assert RegexHit(env, t, here, p, found.value);
        } else {
          assert forall re :: !RegexHit(env, t, here, p, re);
          var i := FindTyped(env, PlainCapture(p));
          if i < 4 {
            next, e, capture := typeroute[i], Typed(i), [PlainCapture(p)];
            assert TypedHit(env, t, here, p, i);
          } else {
            assert forall k :: !TypedHit(env, t, here, p, k);
            if softroute != null {
              next, capture := softroute, [PlainCapture(p)];
            }
          }
        }
      }
    }

    /** FindEndPoint (router/route.go:304-379, 568-571).  It returns something the lookup in the trie
        may find. */
    method FindEndPoint(env: Env, p: seq<string>, data: seq<string>,
                        ghost t: Trie, ghost at: map<Path, SunnyRoute>, ghost here: Path)
      returns (ep: SunnyEndPoint?, rest: seq<string>, caps: seq<string>)
      requires Shape(at) && Stands(t, at) && here in at && at[here] == this
      ensures exists r :: Finds(env, t, here, p, data, r) && Yields(at, r, ep, rest, caps)
      decreases |p|
    {
      hide Shape, Follows, Stands, Finds, Yields;
      if |p| <= 0 {
        rest, caps := p, data;
        if hardend != null { ep := hardend; } else { ep := softend; }
        FindsHere(env, t, at, here, p, data);
      } else {
        var next, capture;
        ghost var e;
        next, capture, e := Follow(env, p, t, at, here);
        if next != null {
          ep, rest, caps := next.FindEndPoint(env, p[1..], data + capture, t, at, here + [e]);
          ghost var r :| Finds(env, t, here + [e], p[1..], data + capture, r) && Yields(at, r, ep, rest, caps);
          FindsFurther(env, t, here, p, data, e, capture, r);
        } else {
          ep, rest, caps := softend, p, data;
          FindsNoMore(env, t, at, here, p, data);
        }
      }
    }

    /** FindRequestedEndPoint (router/route.go:381-388) on a root built by `hist`: the handler is the
        found endpoint's, and each capture is bound to the name its latest registration gave it. */
    method FindRequestedEndPoint(env: Env, p: string, verb: string, urlPath: string,
                                 ghost at: map<Path, SunnyRoute>, ghost hist: seq<Reg>)
      returns (req: Option<Requested>)
      requires Shape(at) && at[[]] == this
      requires History(env, hist) && Abs(at) == Replay(hist)
      ensures exists r :: Finds(env, Replay(hist), [], SplitPath(p), [], r) && Answers(hist, r, verb, req)
    {
      RootNode(at);
      ghost var t := Abs(at);
      AbsStands(at);
      hide Shape, Abs;
      var ep, rest, caps := FindEndPoint(env, SplitPath(p), [], t, at, []);
      ghost var r :| Finds(env, t, [], SplitPath(p), [], r) && Yields(at, r, ep, rest, caps);
      req := None;
      CapturesAreNamed(env, hist, SplitPath(p), r);
      hide Finds, Replay, Latest, History, SplitPath, Bind, HandlerFor;
      assert End(t[r.at], r.soft) == EndOf(ep);
      if ep != null {
        req := ep.GetRequestedEndPoint(verb, urlPath, rest, caps);
      }
    }
  }

  // ---------------------------------------------------------------- from the first call on

  datatype Call = Call(p: string, h: Target, methods: seq<string>)

  predicate CallsOf(hist: seq<Reg>, calls: seq<Call>) {
    |hist| == |calls| && forall k :: 0 <= k < |hist| ==> Call(hist[k].p, hist[k].h, hist[k].methods) == calls[k]
  }

  /** Any sequence of Handle calls on a new root, going on after one that panics: the heap stands for the
      replay of their history. */
  method HandleEach(env: Env, calls: seq<Call>)
    returns (root: SunnyRoute, ghost at: map<Path, SunnyRoute>, ghost hist: seq<Reg>)
    ensures fresh(root) && Shape(at) && Apart(at) && at[[]] == root
    ensures History(env, hist) && Abs(at) == Replay(hist) && CallsOf(hist, calls)
  {
    hide Shape, Apart, Abs, History, Replay, Ends;
    root := new SunnyRoute();
    at, hist := map[[] := root], [];
    NewRoot(env, root);
    for k := 0 to |calls|
      invariant Shape(at) && Apart(at) && [] in at && at[[]] == root
      invariant History(env, hist) && Abs(at) == Replay(hist) && CallsOf(hist, calls[..k])
      invariant fresh(root) && (forall q :: q in at ==> fresh(at[q])) && forall x :: x in Ends(at) ==> fresh(x)
    {
      RootNode(at);
      at, hist := HandleNext(env, root, calls[k], at, hist);
      CallsSnoc(hist, calls, k);
    }
    assert calls[..|calls|] == calls;
  }

  /** One call more. */
  method HandleNext(env: Env, root: SunnyRoute, call: Call, ghost at: map<Path, SunnyRoute>, ghost hist: seq<Reg>)
    returns (ghost at': map<Path, SunnyRoute>, ghost hist': seq<Reg>)
    requires Shape(at) && Apart(at) && [] in at && at[[]] == root && History(env, hist) && Abs(at) == Replay(hist)
    modifies at.Values, Ends(at)
    ensures Shape(at') && Apart(at') && [] in at' && at'[[]] == root && History(env, hist') && Abs(at') == Replay(hist')
    ensures |hist'| == |hist| + 1 && hist <= hist'
    ensures Call(hist'[|hist|].p, hist'[|hist|].h, hist'[|hist|].methods) == call
    ensures forall q :: q in at' ==> (q in at && at'[q] == at[q]) || fresh(at'[q])
    ensures forall x :: x in Ends(at') ==> x in old(Ends(at)) || fresh(x)
  {
    hide Shape, Apart, Abs, History, Replay, Ends, Resolves, Register, Complete, Segs;
    AbsKeys(at);
    var ok, ep;
    ghost var r;
    ok, ep, at', r := root.Handle(env, call.p, call.h, call.methods, at);
    HistorySnoc(env, hist, r);
    GrownRoot(at, at');
    hist' := hist + [r];
  }

  lemma CallsSnoc(hist: seq<Reg>, calls: seq<Call>, k: nat)
    requires k < |calls| && |hist| == k + 1 && CallsOf(hist[..k], calls[..k])
    requires Call(hist[k].p, hist[k].h, hist[k].methods) == calls[k]
    ensures CallsOf(hist, calls[..k + 1])
  {
    assert forall i :: 0 <= i < k ==> hist[..k][i] == hist[i] && calls[..k][i] == calls[..k + 1][i];
  }

  lemma NewRoot(env: Env, root: SunnyRoute)
    requires root.Ok() && root.hardend == null && root.softend == null && forall f :: root.Child(f) == null
    ensures var at := map[[] := root];
      Shape(at) && Apart(at) && Ends(at) == {} && History(env, []) && Abs(at) == Replay([])
  {
    var at := map[[] := root];
    assert at.Keys == {[]};
    forall p: Path, e: Edge ensures p + [e] !in at { assert |p + [e]| > 0; }
    assert Abs(at) == NEW_TRIE;
  }

  lemma AbsKeys(at: map<Path, SunnyRoute>)
    ensures Abs(at).Keys == at.Keys
  {
  }

  lemma GrownRoot(at: map<Path, SunnyRoute>, at': map<Path, SunnyRoute>)
    requires Grown(at, at') && [] in at
    ensures [] in at' && at'[[]] == at[[]]
  {
  }

  lemma HistorySnoc(env: Env, hist: seq<Reg>, r: Reg)
    requires History(env, hist) && Resolves(env, Replay(hist).Keys, [], Segs(r), r.edges)
    ensures History(env, hist + [r]) && Replay(hist + [r]) == Register(Replay(hist), r)
  {
    hide Resolves, Register, Segs;
    var h := hist + [r];
    assert h[..|hist|] == hist;
    forall i | 0 <= i < |h| ensures Resolves(env, Replay(h[..i]).Keys, [], Segs(h[i]), h[i].edges) {
      if i < |hist| { assert h[..i] == hist[..i]; }
    }
  }

  /** On the heap: whatever else has been registered, before or after, a request for a literal route is
      answered by the latest handler given to its end for the verb, with nothing bound and nothing left of
      the path; while no later registration gives it another, that is the handler of this one. */
  method FindLiteral(env: Env, root: SunnyRoute, keys: seq<string>, verb: string, urlPath: string,
                     ghost at: map<Path, SunnyRoute>, ghost hist: seq<Reg>, n: nat, p: string)
    returns (req: Option<Requested>)
    requires Shape(at) && at[[]] == root && History(env, hist) && Abs(at) == Replay(hist)
    requires n < |hist| && PlainKeys(keys) && hist[n].p == p && (p == Join(keys, '/') || p == "/" + Join(keys, '/'))
    ensures req.None? <==> Serving(hist, HardPath(keys), false, verb).None?
    ensures req.Some? ==>
      && Serving(hist, HardPath(keys), false, verb) == Some(req.value.handler)
      && req.value.pdata == map[] && req.value.upath == []
    ensures GivesLast(hist, n, HardPath(keys), false, verb) && hist[n].h.Supported? ==>
      req.Some? && req.value.handler == hist[n].h.h
  {
    hide Shape, History, Abs, Replay, Finds, SplitPath, HardPath, GivesLast, Serving, HandlerFor, Latest, PlainKeys,
      Join;
    req := root.FindRequestedEndPoint(env, p, verb, urlPath, at, hist);
    ghost var r :| Finds(env, Replay(hist), [], SplitPath(p), [], r) && Answers(hist, r, verb, req);
    LiteralNeverShadowed(env, hist, n, keys, verb, r);
    BindNone(if req.Some? then Latest(hist, r.at, r.soft).value else [], []);
  }

  // What a lookup finds: at the end of the path, one edge further, and where no edge fits.

  lemma FindsHere(env: Env, t: Trie, at: map<Path, SunnyRoute>, here: Path, p: seq<string>, data: seq<string>)
    requires Stands(t, at) && here in at && p == []
    ensures var hard := at[here].hardend != null;
      var r := Found(here, !hard, [], data);
      Finds(env, t, here, p, data, r) && Yields(at, r, at[here].Slot(!hard), p, data)
  {
  }

  lemma FindsFurther(env: Env, t: Trie, here: Path, p: seq<string>, data: seq<string>, e: Edge, c: seq<string>,
                     r: Found)
    requires p != [] && Follows(env, t, here, p, e, c) && Finds(env, t, here + [e], p[1..], data + c, r)
    ensures Finds(env, t, here, p, data, r)
  {
    hide Follows;
  }

  lemma FindsNoMore(env: Env, t: Trie, at: map<Path, SunnyRoute>, here: Path, p: seq<string>, data: seq<string>)
    requires here in at && p != [] && forall e, c :: !Follows(env, t, here, p, e, c)
    ensures var r := Found(here, true, p, data);
      Finds(env, t, here, p, data, r) && Yields(at, r, at[here].softend, p, data)
  {
    hide Follows;
  }

  /** These are the endpoint, the rest and the captures of r. */
  ghost predicate Yields(at: map<Path, SunnyRoute>, r: Found, ep: SunnyEndPoint?, rest: seq<string>, caps: seq<string>)
    reads at.Values
  {
    r.at in at && ep == at[r.at].Slot(r.soft) && rest == r.rest && caps == r.data
  }

  /** What a lookup that ended in r, on a trie built by hist, answers for a verb: nothing if there is
      no endpoint or no handler, else the endpoint's handler with as many names bound as captures were
      made, by the names of the latest registration. */
  ghost predicate Answers(hist: seq<Reg>, r: Found, verb: string, req: Option<Requested>) {
    && r.at in Replay(hist)
    && var ep := End(Replay(hist)[r.at], r.soft);
      && (req.None? <==> ep.None? || HandlerFor(ep.value, verb).None?)
      && (req.Some? ==>
            && HandlerFor(ep.value, verb) == Some(req.value.handler)
            && req.value.verb == verb && req.value.upath == Bare(r.rest)
            && Latest(hist, r.at, r.soft).Some?
            && |Latest(hist, r.at, r.soft).value| == |r.data|
            && req.value.pdata == Bind(Latest(hist, r.at, r.soft).value, r.data))
  }

  /** t has the nodes of `at`, and knows which endpoints there are. */
  ghost predicate Stands(t: Trie, at: map<Path, SunnyRoute>)
    reads at.Values
  {
    t.Keys == at.Keys && forall p :: p in at ==> (t[p].hard.None? <==> at[p].hardend == null)
  }

  lemma AbsStands(at: map<Path, SunnyRoute>)
    ensures Stands(Abs(at), at)
    ensures forall p, soft :: p in at ==> End(Abs(at)[p], soft) == EndOf(at[p].Slot(soft))
  {
  }

  // Which edges there are, in terms of the trie and of the fields.

  lemma EdgeIsChild(t: Trie, at: map<Path, SunnyRoute>, here: Path, e: Edge)
    requires Shape(at) && Stands(t, at) && here in at
    ensures here + [e] in t <==> at[here].Child(e) != null
    ensures here + [e] in t ==> here + [e] in at && at[here + [e]] == at[here].Child(e)
  {
  }

  lemma NodesDiffer(at: map<Path, SunnyRoute>, here: Path)
    requires Shape(at) && here in at
    ensures forall p :: p in at && p != here ==> at[p] != at[here]
  {
  }

  lemma NodeOk(at: map<Path, SunnyRoute>, here: Path)
    requires Shape(at) && here in at
    ensures at[here].Ok()
  {
  }

  lemma HardEdge(t: Trie, at: map<Path, SunnyRoute>, here: Path, k: string)
    requires Shape(at) && Stands(t, at) && here in at
    ensures here + [Hard(k)] in t <==> k in at[here].hardroute
    ensures k in at[here].hardroute ==> here + [Hard(k)] in at && at[here + [Hard(k)]] == at[here].hardroute[k]
  {
    EdgeIsChild(t, at, here, Hard(k));
  }

  lemma SoftEdge(t: Trie, at: map<Path, SunnyRoute>, here: Path)
    requires Shape(at) && Stands(t, at) && here in at
    ensures here + [Soft] in t <==> at[here].softroute != null
    ensures at[here].softroute != null ==> here + [Soft] in at && at[here + [Soft]] == at[here].softroute
  {
    EdgeIsChild(t, at, here, Soft);
  }

  lemma RegexEdges(t: Trie, at: map<Path, SunnyRoute>, here: Path)
    requires Shape(at) && Stands(t, at) && here in at
    ensures forall re :: here + [Regex(re)] in t <==> re in at[here].regxroute
    ensures forall re :: re in at[here].regxroute ==>
      here + [Regex(re)] in at && at[here + [Regex(re)]] == at[here].regxroute[re]
  {
    forall re
      ensures here + [Regex(re)] in t <==> re in at[here].regxroute
      ensures re in at[here].regxroute ==> here + [Regex(re)] in at && at[here + [Regex(re)]] == at[here].regxroute[re]
    {
      EdgeIsChild(t, at, here, Regex(re));
    }
  }

  lemma TypedEdges(t: Trie, at: map<Path, SunnyRoute>, here: Path)
    requires Shape(at) && Stands(t, at) && here in at
    ensures at[here].Ok()
    ensures forall i: nat :: here + [Typed(i)] in t <==> i < 4 && at[here].typeroute[i] != null
    ensures forall i: nat :: i < 4 && at[here].typeroute[i] != null ==>
      here + [Typed(i)] in at && at[here + [Typed(i)]] == at[here].typeroute[i]
  {
    assert at[here].Ok();
    forall i: nat
      ensures here + [Typed(i)] in t <==> i < 4 && at[here].typeroute[i] != null
      ensures i < 4 && at[here].typeroute[i] != null ==>
        here + [Typed(i)] in at && at[here + [Typed(i)]] == at[here].typeroute[i]
    {
      EdgeIsChild(t, at, here, Typed(i));
    }
  }

  lemma SegsOf(r: Reg, q: string)
    requires q == TrimSpace(r.p)
    ensures Segs(r) == Segments(q)
    ensures EndsSoft(r) == (q != "" && q[|q| - 1] == '/')
  {
    hide Segments, TrimSpace;
  }

  lemma CompleteMeans(r: Reg)
    ensures Complete(r) <==> |r.edges| == |Segs(r)|
  {
    hide Segs;
  }

  lemma InstallAllStep(t: Trie, ps: seq<Path>, soft: bool, h: Target, ms: seq<string>, lists: seq<seq<string>>, i: nat)
    requires i < |ps| == |lists|
    ensures InstallAll(t, ps[i..], soft, h, ms, lists[i..]) ==
            InstallAll(RouteTrie.Install(t, ps[i], soft, h, ms, lists[i]), ps[i + 1..], soft, h, ms, lists[i + 1..])
  {
    assert ps[i..][1..] == ps[i + 1..] && lists[i..][1..] == lists[i + 1..];
  }

  lemma InstallAllNone(t: Trie, soft: bool, h: Target, ms: seq<string>)
    ensures InstallAll(t, [], soft, h, ms, []) == t
  {
  }

  /** Handle on a pattern without segments. */
  lemma RootRegister(env: Env, t: Trie, r: Reg)
    requires r.edges == [] && Segs(r) == []
    ensures Resolves(env, t.Keys, [], Segs(r), []) && Complete(r)
    ensures Register(t, r) == RouteTrie.Install(t, [], EndsSoft(r), r.h, r.methods, [])
  {
    RootSpec(env, t.Keys);
    CompleteMeans(r);
    hide *;
    CompleteRegister(t, r);
    InstallAllOne(t, EndsSoft(r), r.h, r.methods);
    NoPath(t);
  }

  lemma InstallAllOne(t: Trie, soft: bool, h: Target, ms: seq<string>)
    ensures InstallAll(t, [[]], soft, h, ms, [[]]) == RouteTrie.Install(t, [], soft, h, ms, [])
  {
    hide RouteTrie.Install;
    InstallAllNone(RouteTrie.Install(t, [], soft, h, ms, []), soft, h, ms);
    var ps: seq<Path>, lists: seq<seq<string>> := [[]], [[]];
    assert ps[1..] == [] && lists[1..] == [];
  }

  lemma NoPath(t: Trie)
    ensures AddPath(t, [], []) == t
  {
  }

  lemma SlashHasNoSegments(q: string)
    requires q == "" || q == "/"
    ensures Segments(q) == []
  {
    hide Segments, TrimLeft, TrimSpace, Head, Tail, ParseSeg;
    SegmentsUnfold(q);
    assert TrimSpace(q) == q by { TrimSpaceShort(q); }
    SlashTrimmed(q);
  }

  lemma TrimSpaceShort(q: string)
    requires q == "" || q == "/"
    ensures TrimSpace(q) == q
  {
    hide TrimSpace, TrimLeft, TrimRight;
    if q == "" { assert |TrimSpace(q)| == 0; }
  }

  lemma SlashTrimmed(q: string)
    requires q == "" || q == "/"
    ensures TrimLeft(q, IsSlash) == ""
  {
    assert "/"[1..] == "";
  }

  lemma RootSpec(env: Env, nodes: set<Path>)
    ensures Nodes([], [], []) == [[]] && NameLists([]) == [[]] && Resolves(env, nodes, [], [], [])
  {
  }

  lemma RootNode(at: map<Path, SunnyRoute>)
    requires Shape(at)
    ensures [] in at && Grown(at, at) && Abs(at).Keys == at.Keys
  {
  }

  /** BuildRoute where it does not recurse. */
  lemma BuildEnd(env: Env, nodes: set<Path>, here: Path, p: string)
    ensures Grow(nodes, here, []) == nodes
    ensures var q := Trimmed(p);
      if q == "" then
        && Segments(p) == [] && NameLists([]) == [[]]
        && Nodes(here, [], []) == [here] && Resolves(env, nodes, here, [], [])
      else
        && |Tail(q)| < |p| && Segments(p) != []
        && (Panics(env, nodes, here, ParseSeg(Head(q))) ==> Resolves(env, nodes, here, Segments(p), []))
  {
  }

  /** BuildRoute where it does. */
  lemma BuildStep(env: Env, nodes: set<Path>, here: Path, p: string, e: Edge, es: Path)
    requires Trimmed(p) != "" && Fits(env, nodes, here, ParseSeg(Head(Trimmed(p))), e)
    requires Resolves(env, nodes + {here + [e]}, here + [e], Segments(Tail(Trimmed(p))), es)
    ensures Resolves(env, nodes, here, Segments(p), [e] + es)
    ensures Grow(nodes, here, [e] + es) == Grow(nodes + {here + [e]}, here + [e], es)
    ensures |es| == |Segments(Tail(Trimmed(p)))| <==> |[e] + es| == |Segments(p)|
    ensures var s, rest := ParseSeg(Head(Trimmed(p))), Segments(Tail(Trimmed(p)));
      && NameLists(Segments(p)) == (if Optional(s) then [[s.name]] else []) + Named(s, NameLists(rest))
      && (|es| == |rest| ==>
            |[e] + es| == |Segments(p)| &&
            Nodes(here, Segments(p), [e] + es) == (if Optional(s) then [here] else []) + Nodes(here + [e], rest, es))
  {
    hide Segments, ParseSeg, Trimmed, Head, Tail, Fits, Resolves, Grow, NameLists, Nodes, Named;
    SegmentsUnfold(p);
    var s, rest := ParseSeg(Head(Trimmed(p))), Segments(Tail(Trimmed(p)));
    BuildCons(env, nodes, here, s, rest, e, es);
  }

  lemma BuildCons(env: Env, nodes: set<Path>, here: Path, s: Seg, rest: seq<Seg>, e: Edge, es: Path)
    requires Fits(env, nodes, here, s, e) && Resolves(env, nodes + {here + [e]}, here + [e], rest, es)
    ensures Resolves(env, nodes, here, [s] + rest, [e] + es)
    ensures Grow(nodes, here, [e] + es) == Grow(nodes + {here + [e]}, here + [e], es)
    ensures NameLists([s] + rest) == (if Optional(s) then [[s.name]] else []) + Named(s, NameLists(rest))
    ensures |es| == |rest| ==>
      Nodes(here, [s] + rest, [e] + es) == (if Optional(s) then [here] else []) + Nodes(here + [e], rest, es)
  {
    hide Fits;
    var segs, edges := [s] + rest, [e] + es;
    assert segs[1..] == rest && edges[1..] == es && edges[..1] == [e];
  }

  // ---------------------------------------------------------------- the nodes of a trie

  /** `at` gives the node for every path: the objects form a tree, and its edges are theirs. */
  ghost predicate Shape(at: map<Path, SunnyRoute>)
    reads at.Values
  {
    && [] in at
    && (forall p :: p in at ==> at[p].Ok())
    && (forall p, q :: p in at && q in at && at[p] == at[q] ==> p == q)
    && (forall p, e :: p in at && p + [e] !in at ==> at[p].Child(e) == null)
    && (forall p, e :: p + [e] in at ==> p in at && at[p].Child(e) == at[p + [e]])
  }

  predicate Grown(at: map<Path, SunnyRoute>, at': map<Path, SunnyRoute>) {
    forall p :: p in at ==> p in at' && at'[p] == at[p]
  }

  /** The paths of AddPath. */
  function Grow(nodes: set<Path>, here: Path, edges: Path): set<Path>
    decreases edges
  {
    if edges == [] then nodes else Grow(nodes + {here + edges[..1]}, here + edges[..1], edges[1..])
  }

  ghost predicate NoEnds(n: SunnyRoute)
    reads n
  {
    n.hardend == null && n.softend == null
  }

  predicate AreNodes(at: map<Path, SunnyRoute>, rts: seq<SunnyRoute>, ps: seq<Path>) {
    |rts| == |ps| && forall j :: 0 <= j < |ps| ==> ps[j] in at && rts[j] == at[ps[j]]
  }

  lemma ChildrenAreNodes(at: map<Path, SunnyRoute>, here: Path)
    requires Shape(at) && here in at
    ensures forall f :: here + [f] in at.Keys <==> at[here].Child(f) != null
  {
  }

  lemma SnocInjective(p: Path, e: Edge, q: Path, f: Edge)
    requires p + [e] == q + [f]
    ensures p == q && e == f
  {
    assert p == (p + [e])[..|p|] && q == (q + [f])[..|q|];
    assert e == (p + [e])[|p|] && f == (q + [f])[|q|];
  }

  /** One node has gained (or kept) one edge. */
  twostate lemma Attached(new at: map<Path, SunnyRoute>, new here: Path, new e: Edge, new rt: SunnyRoute)
    requires (forall p :: p in at ==> old(allocated(at[p]))) && old(Shape(at))
    requires here in at && at[here].Ok() && at[here].Child(e) == rt
    requires forall p :: p in at && p != here ==> unchanged(at[p])
    requires forall f :: f != e ==> at[here].Child(f) == old(at[here].Child(f))
    requires here + [e] in at ==> rt == at[here + [e]]
    requires here + [e] !in at ==> rt !in at.Values && rt.Ok() && forall f :: rt.Child(f) == null
    ensures Shape(at[here + [e] := rt]) && Grown(at, at[here + [e] := rt])
  {
    hide SunnyRoute.Child, SunnyRoute.Ok;
    var at' := at[here + [e] := rt];
    forall p, f | p + [f] in at' ensures p in at' && at'[p].Child(f) == at'[p + [f]] {
      if p + [f] == here + [e] { SnocInjective(p, f, here, e); } else { SameChild(at, here, e, p, f); }
    }
    forall p, f | p in at' && p + [f] !in at' ensures at'[p].Child(f) == null {
      assert p + [f] !in at && p + [f] != here + [e];
      if p != here + [e] || here + [e] in at { SameChild(at, here, e, p, f); }
    }
    forall p | p in at ensures at[p].Ok() {
      if p != here { OkSame(at[p]); }
    }
  }

  /** Any other edge of a node is as before. */
  twostate lemma SameChild(new at: map<Path, SunnyRoute>, new here: Path, new e: Edge, new p: Path, new f: Edge)
    requires p in at && old(allocated(at[p])) && here in at && old(allocated(at[here]))
    requires p != here ==> unchanged(at[p])
    requires forall g :: g != e ==> at[here].Child(g) == old(at[here].Child(g))
    requires p + [f] != here + [e]
    ensures at[p].Child(f) == old(at[p].Child(f))
  {
  }

  twostate lemma OkSame(new rt: SunnyRoute)
    requires old(allocated(rt)) && unchanged(rt)
    ensures rt.Ok() == old(rt.Ok())
  {
  }

  // ---------------------------------------------------------------- the endpoints of a trie

  ghost function Ends(at: map<Path, SunnyRoute>): set<SunnyEndPoint>
    reads at.Values
  {
    (set p | p in at && at[p].hardend != null :: at[p].hardend)
    + (set p | p in at && at[p].softend != null :: at[p].softend)
  }

  /** No two nodes, and no two ends of one node, share an endpoint. */
  ghost predicate Apart(at: map<Path, SunnyRoute>)
    reads at.Values
  {
    forall p, q, s, s' :: p in at && q in at && at[p].Slot(s) != null && at[p].Slot(s) == at[q].Slot(s') ==>
      p == q && s == s'
  }

  ghost function EndOf(x: SunnyEndPoint?): Option<EndPoint>
    reads x
  {
    if x == null then None else Some(x.Value())
  }

  ghost function NodeOf(n: SunnyRoute): Node
    reads n, n.hardend, n.softend
  {
    Node(EndOf(n.hardend), EndOf(n.softend))
  }

  /** The trie the objects stand for. */
  ghost function Abs(at: map<Path, SunnyRoute>): Trie
    reads at.Values, Ends(at)
  {
    map p | p in at :: NodeOf(at[p])
  }

  lemma SlotsInEnds(at: map<Path, SunnyRoute>, here: Path, soft: bool)
    requires here in at
    ensures at[here].Slot(soft) != null ==> at[here].Slot(soft) in Ends(at)
  {
  }

  twostate lemma EdgesSame(new at: map<Path, SunnyRoute>, new here: Path)
    requires (forall p :: p in at ==> old(allocated(at[p]))) && here in at
    requires at[here].SameEdges() && forall p :: p in at && p != here ==> unchanged(at[p])
    ensures forall p :: p in at ==> at[p].Ok() == old(at[p].Ok())
    ensures forall p, e :: p in at ==> at[p].Child(e) == old(at[p].Child(e))
  {
    forall p, e | p in at ensures at[p].Ok() == old(at[p].Ok()) && at[p].Child(e) == old(at[p].Child(e)) {
      if p == here { at[here].SameEdgesSameChild(e); }
    }
  }

  twostate lemma ShapeSame(new at: map<Path, SunnyRoute>)
    requires (forall p :: p in at ==> old(allocated(at[p]))) && old(Shape(at))
    requires forall p :: p in at ==> at[p].Ok() == old(at[p].Ok())
    requires forall p, e :: p in at ==> at[p].Child(e) == old(at[p].Child(e))
    ensures Shape(at)
  {
  }

  lemma {:induction false} GrowIsAddPath(t: Trie, here: Path, edges: Path)
    ensures AddPath(t, here, edges).Keys == Grow(t.Keys, here, edges)
    decreases edges
  {
    if edges != [] { GrowIsAddPath(Ensure(t, here + edges[..1]), here + edges[..1], edges[1..]); }
  }

  lemma BuiltTrie(t: Trie, t': Trie, edges: Path)
    requires Closed(t) && t'.Keys == Grow(t.Keys, [], edges)
    requires forall p :: p in t ==> p in t' && t'[p] == t[p]
    requires forall p :: p in t' && p !in t ==> t'[p] == NEW_NODE
    ensures t' == AddPath(t, [], edges)
  {
    GrowIsAddPath(t, [], edges);
    AddPathKeeps(t, [], edges);
  }

  /** What BuildRoute leaves of the endpoints: the old ones, and none in the new nodes. */
  twostate lemma BuiltApart(new at: map<Path, SunnyRoute>, new at': map<Path, SunnyRoute>)
    requires (forall p :: p in at ==> old(allocated(at[p]))) && old(Apart(at)) && Grown(at, at')
    requires forall p :: p in at ==> at[p].hardend == old(at[p].hardend) && at[p].softend == old(at[p].softend)
    requires forall p :: p in at' && p !in at ==> NoEnds(at'[p])
    ensures Apart(at') && forall x :: x in Ends(at') ==> x in old(Ends(at))
  {
    forall p, s | p in at' && p !in at ensures at'[p].Slot(s) == null {
      assert NoEnds(at'[p]);
    }
    forall p, s | p in at' && at'[p].Slot(s) != null ensures p in at && at'[p].Slot(s) == old(at[p].Slot(s)) {
    }
  }

  twostate lemma BuiltAbs(new at: map<Path, SunnyRoute>, new at': map<Path, SunnyRoute>, new edges: Path)
    requires (forall p :: p in at ==> old(allocated(at[p]))) && old(Shape(at)) && Grown(at, at')
    requires at'.Keys == Grow(at.Keys, [], edges)
    requires forall p :: p in at ==> at[p].hardend == old(at[p].hardend) && at[p].softend == old(at[p].softend)
    requires forall p :: p in at' && p !in at ==> NoEnds(at'[p])
    requires forall x :: x in old(Ends(at)) ==> unchanged(x)
    ensures Abs(at') == AddPath(old(Abs(at)), [], edges)
  {
    var t, t' := old(Abs(at)), Abs(at');
    forall p | p in at ensures t'[p] == t[p] {
      assert at[p].hardend != null ==> at[p].hardend in old(Ends(at));
      assert at[p].softend != null ==> at[p].softend in old(Ends(at));
    }
    forall p | p in at' && p !in at ensures t'[p] == NEW_NODE {
      assert NoEnds(at'[p]);
    }
    assert Closed(t) && t.Keys == at.Keys && t'.Keys == at'.Keys;
    hide Grow, AddPath, Closed, Shape, Abs, Ends;
    BuiltTrie(t, t', edges);
  }

  /** One endpoint has been made or changed. */
  twostate lemma FilledApart(new at: map<Path, SunnyRoute>, new here: Path, new soft: bool, new ep: SunnyEndPoint)
    requires (forall p :: p in at ==> old(allocated(at[p]))) && old(Apart(at)) && here in at
    requires forall p :: p in at && p != here ==> unchanged(at[p])
    requires at[here].Slot(!soft) == old(at[here].Slot(!soft)) && at[here].Slot(soft) == ep
    requires if old(at[here].Slot(soft)) == null then !old(allocated(ep)) else ep == old(at[here].Slot(soft))
    ensures Apart(at) && forall x :: x in Ends(at) ==> x in old(Ends(at)) || !old(allocated(x))
  {
    assert soft ==> ep == at[here].softend && at[here].hardend == old(at[here].hardend);
    assert !soft ==> ep == at[here].hardend && at[here].softend == old(at[here].softend);
    forall p, s | p in at && at[p].Slot(s) != null
      ensures
        || (p == here && s == soft && at[p].Slot(s) == ep)
        || (at[p].Slot(s) == old(at[p].Slot(s)) && at[p].Slot(s) != ep)
    {
    }
  }

  twostate lemma FilledAbs(new at: map<Path, SunnyRoute>, new here: Path, new soft: bool, new ep: SunnyEndPoint,
                           new h: Target, new methods: seq<string>, new names: seq<string>)
    requires (forall p :: p in at ==> old(allocated(at[p]))) && old(Apart(at)) && here in at
    requires forall p :: p in at && p != here ==> unchanged(at[p])
    requires at[here].Slot(!soft) == old(at[here].Slot(!soft)) && at[here].Slot(soft) == ep
    requires if old(at[here].Slot(soft)) == null then !old(allocated(ep)) else ep == old(at[here].Slot(soft))
    requires ep.Value() == Installed(old(EndOf(at[here].Slot(soft))), h, methods, names)
    requires forall x :: x in old(Ends(at)) && x != ep ==> unchanged(x)
    ensures Abs(at) == RouteTrie.Install(old(Abs(at)), here, soft, h, methods, names)
  {
    hide Installed;
    var t, t' := old(Abs(at)), Abs(at);
    forall p | p in at && p != here ensures t'[p] == t[p] {
      SameNode(at, here, p, soft, ep);
    }
    OtherEnd(at, here, soft, ep);
    hide Apart, Ends;
    assert t'[here] == if soft then t[here].(soft := Some(ep.Value())) else t[here].(hard := Some(ep.Value()));
  }

  twostate lemma OtherEnd(new at: map<Path, SunnyRoute>, new here: Path, new soft: bool, new ep: SunnyEndPoint)
    requires (forall p :: p in at ==> old(allocated(at[p]))) && old(Apart(at)) && here in at
    requires at[here].Slot(!soft) == old(at[here].Slot(!soft))
    requires if old(at[here].Slot(soft)) == null then !old(allocated(ep)) else ep == old(at[here].Slot(soft))
    requires forall x :: x in old(Ends(at)) && x != ep ==> unchanged(x)
    ensures EndOf(at[here].Slot(!soft)) == old(EndOf(at[here].Slot(!soft)))
  {
    var y := at[here].Slot(!soft);
    if y != null {
      assert y in old(Ends(at)) by {
        assert soft ==> y == old(at[here].hardend);
        assert !soft ==> y == old(at[here].softend);
      }
      assert y == old(at[here].Slot(!soft)) && y != ep;
    }
  }

  twostate lemma SameNode(new at: map<Path, SunnyRoute>, new here: Path, new p: Path, new soft: bool,
                          new ep: SunnyEndPoint)
    requires (forall p :: p in at ==> old(allocated(at[p]))) && old(Apart(at)) && here in at
    requires p in at && p != here && unchanged(at[p])
    requires if old(at[here].Slot(soft)) == null then !old(allocated(ep)) else ep == old(at[here].Slot(soft))
    requires forall x :: x in old(Ends(at)) && x != ep ==> unchanged(x)
    ensures NodeOf(at[p]) == old(NodeOf(at[p]))
  {
    assert at[p].hardend != null ==> at[p].hardend == at[p].Slot(false) && at[p].hardend in old(Ends(at));
    assert at[p].softend != null ==> at[p].softend == at[p].Slot(true) && at[p].softend in old(Ends(at));
  }
}
