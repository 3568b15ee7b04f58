/** What the route trie of router/route.go means: a map from edge paths to nodes, the effect of one
    root Handle call on it, and the endpoints FindEndPoint may return. */
module RouteTrie {
  import opened Text
  import opened RoutePattern

  /** *regexp.Regexp values are compared by identity, so equal expressions do not make them equal. */
  datatype Regexp = Regexp(id: nat, expr: string)

  datatype Edge = Hard(key: string) | Regex(re: Regexp) | Typed(index: nat) | Soft

  type Path = seq<Edge>

  type Handler = nat

  /** The argument of Handle: a handler of a supported type, nil, or anything else. */
  datatype Target = Supported(h: Handler) | Nil | Unsupported

  datatype EndPoint = EndPoint(
    get: Option<Handler>, post: Option<Handler>, put: Option<Handler>,
    patch: Option<Handler>, del: Option<Handler>, head: Option<Handler>,
    names: seq<string>)

  const NEW_END_POINT := EndPoint(None, None, None, None, None, None, [])

  datatype Node = Node(hard: Option<EndPoint>, soft: Option<EndPoint>)

  const NEW_NODE := Node(None, None)

  type Trie = map<Path, Node>

  const NEW_TRIE: Trie := map[[] := NEW_NODE]

  /** Everything the code asks of regexp and strconv. */
  datatype Env = Env(
    compiles: string -> bool,
    matches: (string, string) -> bool,
    atoi: string -> bool, parseInt: string -> bool,
    parseFloat32: string -> bool, parseFloat64: string -> bool)

  // ---------------------------------------------------------------- endpoints

  function Resolve(h: Target): Option<Handler>
    requires !h.Unsupported?
  {
    if h.Nil? then None else Some(h.h)
  }

  /** One iteration of the method loop of SetHandler. */
  function SetMethod(ep: EndPoint, h: Option<Handler>, m: string): EndPoint {
    var u := Upper(m);
    if u == "GET" then ep.(get := h)
    else if u == "POST" then ep.(post := h)
    else if u == "PUT" then ep.(put := h)
    else if u == "PATCH" then ep.(patch := h)
    else if u == "DELETE" then ep.(del := h)
    else if u == "HEAD" then ep.(head := h)
    else ep
  }

  function SetMethods(ep: EndPoint, h: Option<Handler>, methods: seq<string>): EndPoint {
    if methods == [] then ep
    else SetMethod(SetMethods(ep, h, methods[..|methods| - 1]), h, methods[|methods| - 1])
  }

  /** SetHandler (router/route.go:430-477). */
  function SetHandler(ep: EndPoint, h: Target, methods: seq<string>): EndPoint {
    if h.Unsupported? then ep
    else
      var v := Resolve(h);
      if methods == [] then ep.(get := v, post := v, put := v, patch := v, del := v)
      else SetMethods(ep, v, methods)
  }

  /** The endpoint's own handler for a verb. */
  function Own(ep: EndPoint, verb: string): Option<Handler> {
    if verb == "GET" then ep.get
    else if verb == "POST" then ep.post
    else if verb == "PUT" then ep.put
    else if verb == "PATCH" then ep.patch
    else if verb == "DELETE" then ep.del
    else if verb == "HEAD" then ep.head
    else None
  }

  /** Handlers()[verb] (router/route.go:479-515): HEAD falls back to GET. */
  function HandlerFor(ep: EndPoint, verb: string): Option<Handler> {
    if verb == "HEAD" && ep.head.None? then ep.get else Own(ep, verb)
  }

  predicate Known(verb: string) {
    verb in ["GET", "POST", "PUT", "PATCH", "DELETE", "HEAD"]
  }

  /** Does SetHandler with these methods set the verb's handler?  No methods stand for all but HEAD. */
  predicate Sets(methods: seq<string>, verb: string) {
    && Known(verb)
    && if methods == [] then verb != "HEAD" else exists i :: 0 <= i < |methods| && Upper(methods[i]) == verb
  }

  // ---------------------------------------------------------------- registration

  /** One Handle call on the root, with the edges BuildRoute followed or made for its segments.
      There are fewer edges than segments when an expression does not compile: BuildRoute panics
      and leaves the nodes it has made behind. */
  datatype Reg = Reg(p: string, h: Target, methods: seq<string>, edges: Path)

  function Segs(r: Reg): seq<Seg> {
    Segments(TrimSpace(r.p))
  }

  predicate EndsSoft(r: Reg) {
    var q := TrimSpace(r.p);
    q != "" && q[|q| - 1] == '/'
  }

  predicate Complete(r: Reg) {
    |r.edges| == |Segs(r)|
  }

  function Anchor(expr: string): string
    requires expr != ""
  {
    var a := if expr[0] != '^' then "^" + expr else expr;
    if a[|a| - 1] != '$' then a + "$" else a
  }

  /** Does node `here` have an edge for exactly this text?  `nodes` is the set of all paths. */
  ghost predicate HasRegex(nodes: set<Path>, here: Path, expr: string) {
    exists re :: here + [Regex(re)] in nodes && re.expr == expr
  }

  /** MustCompile, or the index before it, panics. */
  ghost predicate Panics(env: Env, nodes: set<Path>, here: Path, s: Seg) {
    && s.Var? && s.kind.RegexKind?
    && !HasRegex(nodes, here, s.kind.expr)
    && (s.kind.expr == "" || !env.compiles(Anchor(s.kind.expr)))
  }

  /** The edge BuildRoute takes from node `here` for segment s.  A regular expression reuses an
      edge only if its text, anchors included, is already there. */
  ghost predicate Fits(env: Env, nodes: set<Path>, here: Path, s: Seg, e: Edge) {
    match s
    case Lit(key) => e == Hard(key)
    case Var(kind, _, _) =>
      match kind
      case IntKind => e == Typed(0)
      case Int64Kind => e == Typed(1)
      case FloatKind => e == Typed(2)
      case Float64Kind => e == Typed(3)
      case SoftKind => e == Soft
      case RegexKind(expr) =>
        && e.Regex? && !Panics(env, nodes, here, s)
        && if HasRegex(nodes, here, expr) then here + [e] in nodes && e.re.expr == expr
           else e.re.expr == Anchor(expr) && forall re :: here + [Regex(re)] in nodes ==> re.id != e.re.id
  }

  ghost predicate Resolves(env: Env, nodes: set<Path>, here: Path, segs: seq<Seg>, edges: Path)
    decreases segs
  {
    if segs == [] then edges == []
    else if edges == [] then Panics(env, nodes, here, segs[0])
    else
      && Fits(env, nodes, here, segs[0], edges[0])
      && Resolves(env, nodes + {here + edges[..1]}, here + edges[..1], segs[1..], edges[1..])
  }

  function Ensure(t: Trie, p: Path): (t': Trie)
    ensures t'.Keys == t.Keys + {p}
  {
    if p in t then t else t[p := NEW_NODE]
  }

  /** The nodes along `edges` from `here`, made where missing. */
  function AddPath(t: Trie, here: Path, edges: Path): Trie
    decreases edges
  {
    if edges == [] then t
    else AddPath(Ensure(t, here + edges[..1]), here + edges[..1], edges[1..])
  }

  /** The nodes BuildRoute returns, in its order. */
  function Nodes(here: Path, segs: seq<Seg>, edges: Path): seq<Path>
    requires |segs| == |edges|
    decreases segs
  {
    if segs == [] then [here]
    else
      (if Optional(segs[0]) then [here] else []) + Nodes(here + edges[..1], segs[1..], edges[1..])
  }

  function End(n: Node, soft: bool): Option<EndPoint> {
    if soft then n.soft else n.hard
  }

  /** Handle on the node itself followed by PrependVarName. */
  function Installed(old_: Option<EndPoint>, h: Target, methods: seq<string>, names: seq<string>): EndPoint {
    var ep := SetHandler(if old_.Some? then old_.value else NEW_END_POINT, h, methods);
    ep.(names := names + ep.names)
  }

  function Install(t: Trie, p: Path, soft: bool, h: Target, methods: seq<string>, names: seq<string>): (t': Trie)
    ensures p in t ==> t'.Keys == t.Keys
  {
    if p !in t then t
    else
      var ep := Some(Installed(End(t[p], soft), h, methods, names));
      t[p := if soft then t[p].(soft := ep) else t[p].(hard := ep)]
  }

  function InstallAll(t: Trie, ps: seq<Path>, soft: bool, h: Target, methods: seq<string>,
                      lists: seq<seq<string>>): Trie
    requires |ps| == |lists|
  {
    if ps == [] then t
    else InstallAll(Install(t, ps[0], soft, h, methods, lists[0]), ps[1..], soft, h, methods, lists[1..])
  }

  /** The effect of one root Handle call. */
  function Register(t: Trie, r: Reg): Trie
  {
    var t1 := AddPath(t, [], r.edges);
    if !Complete(r) then t1
    else
      var ps, lists := Nodes([], Segs(r), r.edges), NameLists(Segs(r));
      if |ps| == |lists| then InstallAll(t1, ps, EndsSoft(r), r.h, r.methods, lists) else t1
  }

  /** The trie after a history of Handle calls. */
  function Replay(hist: seq<Reg>): Trie {
    if hist == [] then NEW_TRIE else Register(Replay(hist[..|hist| - 1]), hist[|hist| - 1])
  }

  /** A history that can happen: each call follows the edges the trie of that moment gives it. */
  ghost predicate History(env: Env, hist: seq<Reg>) {
    forall i :: 0 <= i < |hist| ==> Resolves(env, Replay(hist[..i]).Keys, [], Segs(hist[i]), hist[i].edges)
  }

  /** Does this registration install the (hard or soft) endpoint of node p? */
  predicate Reaches(r: Reg, p: Path, soft: bool) {
    Complete(r) && soft == EndsSoft(r) && p <= r.edges && |p| in Depths(Segs(r))
  }

  /** The names of the variables on the way to p, as the latest registration of the endpoint wrote them. */
  function Latest(hist: seq<Reg>, p: Path, soft: bool): Option<seq<string>> {
    if hist == [] then None
    else
      var r := hist[|hist| - 1];
      if Reaches(r, p, soft) then Some(VarNames(Segs(r)[..|p|])) else Latest(hist[..|hist| - 1], p, soft)
  }

  /** Does this registration give the endpoint its handler for the verb? */
  predicate Gives(r: Reg, p: Path, soft: bool, verb: string) {
    Reaches(r, p, soft) && !r.h.Unsupported? && Sets(r.methods, verb)
  }

  /** The handler for the verb that the latest registration to do so gave the endpoint. */
  function LatestHandler(hist: seq<Reg>, p: Path, soft: bool, verb: string): Option<Handler> {
    if hist == [] then None
    else
      var r := hist[|hist| - 1];
      if Gives(r, p, soft, verb) then Resolve(r.h) else LatestHandler(hist[..|hist| - 1], p, soft, verb)
  }

  /** The handler that answers for the verb: HEAD falls back to GET. */
  function Serving(hist: seq<Reg>, p: Path, soft: bool, verb: string): Option<Handler> {
    var own := LatestHandler(hist, p, soft, verb);
    if verb == "HEAD" && own.None? then LatestHandler(hist, p, soft, "GET") else own
  }

  /** Call n gives the endpoint its handler for the verb, and no later one gives it another. */
  predicate GivesLast(hist: seq<Reg>, n: nat, p: Path, soft: bool, verb: string) {
    n < |hist| && Gives(hist[n], p, soft, verb) && forall j :: n < j < |hist| ==> !Gives(hist[j], p, soft, verb)
  }

  /** The number of variable edges on a path. */
  function VarCount(p: Path): nat {
    if p == [] then 0 else (if p[0].Hard? then 0 else 1) + VarCount(p[1..])
  }

  // ---------------------------------------------------------------- lookup

  /** The endpoint slot FindEndPoint returns (it may be empty), the unused path, the captures. */
  datatype Found = Found(at: Path, soft: bool, rest: seq<string>, data: seq<string>)

  /** `noext` of router/route.go:320-326: the last piece without its extension, if that leaves anything. */
  function NoExt(p: seq<string>): string
    requires p != []
  {
    if |p| == 1 && Ext(p[0]) != "" then StripExt(p[0]) else ""
  }

  /** What a regular-expression edge captures, if it matches. */
  function RegexCapture(env: Env, expr: string, p: seq<string>): Option<string>
    requires p != []
  {
    if NoExt(p) != "" && env.matches(expr, NoExt(p)) then Some(NoExt(p))
    else if env.matches(expr, p[0]) then Some(p[0])
    else None
  }

  /** What typed and soft edges capture. */
  function PlainCapture(p: seq<string>): string
    requires p != []
  {
    if NoExt(p) == "" then p[0] else NoExt(p)
  }

  predicate TypeAccepts(env: Env, i: nat, s: string) {
    match i
    case 0 => env.atoi(s)
    case 1 => env.parseInt(s)
    case 2 => env.parseFloat32(s)
    case 3 => env.parseFloat64(s)
    case _ => false
  }

  predicate TypedHit(env: Env, t: Trie, here: Path, p: seq<string>, i: nat)
    requires p != []
  {
    here + [Typed(i)] in t && TypeAccepts(env, i, PlainCapture(p))
  }

  predicate RegexHit(env: Env, t: Trie, here: Path, p: seq<string>, re: Regexp)
    requires p != []
  {
    here + [Regex(re)] in t && RegexCapture(env, re.expr, p).Some?
  }

  /** The edge FindEndPoint follows from `here` on path p, with what it captures.  Any matching
      regular expression may come first: Go visits a map in no fixed order. */
  ghost predicate Follows(env: Env, t: Trie, here: Path, p: seq<string>, e: Edge, capture: seq<string>)
    requires p != []
  {
    if here + [Hard(p[0])] in t then e == Hard(p[0]) && capture == []
    else if exists re :: RegexHit(env, t, here, p, re) then
      e.Regex? && RegexHit(env, t, here, p, e.re) && capture == [RegexCapture(env, e.re.expr, p).value]
    else if exists i :: TypedHit(env, t, here, p, i) then
      && e.Typed? && TypedHit(env, t, here, p, e.index) && capture == [PlainCapture(p)]
      && forall i :: 0 <= i < e.index ==> !TypedHit(env, t, here, p, i)
    else here + [Soft] in t && e == Soft && capture == [PlainCapture(p)]
  }

  /** The results FindEndPoint may return for path p at node `here`, with captures `data` so far. */
  ghost predicate Finds(env: Env, t: Trie, here: Path, p: seq<string>, data: seq<string>, r: Found)
    decreases p
  {
    if p == [] then
      r == Found(here, here in t && t[here].hard.None?, [], data)
    else if exists e, c :: Follows(env, t, here, p, e, c) then
      exists e, c :: Follows(env, t, here, p, e, c) && Finds(env, t, here + [e], p[1..], data + c, r)
    else
      r == Found(here, true, p, data)
  }
}
