/** Route patterns as BuildRoute reads them (router/route.go:112-235). */
module RoutePattern {
  import opened Text

  datatype Kind = IntKind | Int64Kind | FloatKind | Float64Kind | RegexKind(expr: string) | SoftKind

  datatype Seg = Lit(key: string) | Var(kind: Kind, name: string, optional: bool)

  predicate Optional(s: Seg) {
    s.Var? && s.optional
  }

  /** `expr` is the text after the first colon, or None without a colon. */
  function KindOf(expr: Option<string>): Kind {
    if expr.None? then SoftKind
    else
      var low := Lower(expr.value);
      if low == "int32" || low == "int" then IntKind
      else if low == "int64" then Int64Kind
      else if low == "float32" || low == "float" then FloatKind
      else if low == "float64" then Float64Kind
      else RegexKind(expr.value)
  }

  predicate Braced(cur: string)
    requires cur != ""
  {
    cur[0] == '{' && cur[|cur| - 1] == '}'
  }

  /** One slash-free piece of the pattern. */
  function ParseSeg(cur: string): (s: Seg)
    requires cur != ""
    ensures s.Var? <==> Braced(cur)
    ensures s.Var? ==> s.name != ""
  {
    if !Braced(cur) then Lit(cur)
    else
      var inner := TrimSpace(cur[1..|cur| - 1]);
      var i := IndexOf(inner, ':');
      var kind := KindOf(if i < |inner| then Some(inner[i + 1..]) else None);
      var name := if i < |inner| then TrimSpace(inner[..i]) else inner;
      var starred := name != "" && name[|name| - 1] == '*';
      var name' := if starred then TrimSpace(name[..|name| - 1]) else name;
      Var(kind, if name' == "" then "_" else name', starred)
  }

  /** What is left of a pattern when BuildRoute has trimmed it. */
  function Trimmed(p: string): (q: string)
    ensures |q| <= |p| && (q != "" ==> q[0] != '/')
  {
    TrimLeft(TrimSpace(p), IsSlash)
  }

  predicate IsSlash(c: char) {
    c == '/'
  }

  /** The part after the first slash. */
  function Tail(q: string): (r: string)
    ensures q != "" ==> |r| < |q|
  {
    var i := IndexOf(q, '/');
    if i < |q| then q[i + 1..] else ""
  }

  function Head(q: string): (r: string)
    requires q != "" && q[0] != '/'
    ensures r != ""
  {
    q[..IndexOf(q, '/')]
  }

  /** The whole pattern. */
  function Segments(p: string): seq<Seg>
    decreases |p|
  {
    var q := Trimmed(p);
    if q == "" then [] else [ParseSeg(Head(q))] + Segments(Tail(q))
  }

  /** The names of the variable segments, in order. */
  function VarNames(segs: seq<Seg>): seq<string> {
    if segs == [] then [] else NameOf(segs[0]) + VarNames(segs[1..])
  }

  function NameOf(s: Seg): seq<string> {
    if s.Var? then [s.name] else []
  }

  // ---------------------------------------------------------------- where a pattern registers

  /** The depths at which Handle installs an endpoint: before each optional variable, and at the end. */
  function Depths(segs: seq<Seg>): seq<int> {
    if segs == [] then [0] else (if Optional(segs[0]) then [0] else []) + Shift(Depths(segs[1..]))
  }

  function Shift(ds: seq<int>): (r: seq<int>)
    ensures |r| == |ds| && forall j :: 0 <= j < |ds| ==> r[j] == ds[j] + 1
  {
    seq(|ds|, j requires 0 <= j < |ds| => ds[j] + 1)
  }

  /** The name lists BuildRoute returns beside those nodes, built the way it builds them. */
  function NameLists(segs: seq<Seg>): seq<seq<string>> {
    if segs == [] then [[]]
    else
      (if Optional(segs[0]) then [[segs[0].name]] else []) + Named(segs[0], NameLists(segs[1..]))
  }

  /** Puts the segment's name, if it has one, in front of every list. */
  function Named(s: Seg, lists: seq<seq<string>>): (r: seq<seq<string>>)
    ensures |r| == |lists|
    ensures forall j :: 0 <= j < |lists| ==> r[j] == NameOf(s) + lists[j]
  {
    seq(|lists|, j requires 0 <= j < |lists| => NameOf(s) + lists[j])
  }

  lemma {:induction false} DepthsBound(segs: seq<Seg>)
    ensures Depths(segs) != [] && Depths(segs)[|Depths(segs)| - 1] == |segs|
    ensures forall j :: 0 <= j < |Depths(segs)| ==> 0 <= Depths(segs)[j] <= |segs|
    ensures |NameLists(segs)| == |Depths(segs)|
  {
    if segs != [] { DepthsBound(segs[1..]); }
  }

  lemma DepthsUnfold(segs: seq<Seg>, j: nat)
    requires segs != [] && (if Optional(segs[0]) then 1 else 0) <= j < |Depths(segs)|
    ensures var d := if Optional(segs[0]) then 1 else 0;
      && j - d < |Depths(segs[1..])| && Depths(segs)[j] == Depths(segs[1..])[j - d] + 1
  {
  }

  lemma DepthsStart(segs: seq<Seg>)
    ensures segs == [] ==> |Depths(segs)| == 1
    ensures segs != [] && Optional(segs[0]) ==> |Depths(segs)| > 0 && Depths(segs)[0] == 0
  {
  }

  /** The depths are strictly increasing: no node is registered twice by one pattern. */
  lemma {:induction false} DepthsIncrease(segs: seq<Seg>, j: nat, k: nat)
    requires j < k < |Depths(segs)|
    ensures Depths(segs)[j] < Depths(segs)[k]
  {
    hide Depths, Optional;
    DepthsStart(segs);
    if segs != [] {
      var d := if Optional(segs[0]) then 1 else 0;
      DepthsBound(segs[1..]);
      DepthsUnfold(segs, k);
      if j >= d {
        DepthsUnfold(segs, j);
        DepthsIncrease(segs[1..], j - d, k - d);
      }
    }
  }

  lemma PrefixCons(h: seq<string>, a: seq<string>, b: seq<string>)
    requires a <= b
    ensures h + a <= h + b
  {
  }

  lemma VarNamesCons(segs: seq<Seg>, i: int)
    requires 0 < i <= |segs|
    ensures VarNames(segs[..i]) == NameOf(segs[0]) + VarNames(segs[1..][..i - 1])
  {
    var init := segs[..i];
    assert init[0] == segs[0] && init[1..] == segs[1..][..i - 1];
  }

  /** Each list starts with the names of the variables on the way to its node, in pattern order,
      whatever optional variables follow. */
  lemma {:induction false} NameListsPrefix(segs: seq<Seg>, j: nat)
    requires j < |Depths(segs)| == |NameLists(segs)| && 0 <= Depths(segs)[j] <= |segs|
    ensures VarNames(segs[..Depths(segs)[j]]) <= NameLists(segs)[j]
  {
    if segs != [] {
      var d := if Optional(segs[0]) then 1 else 0;
      var drest, nrest := Depths(segs[1..]), NameLists(segs[1..]);
      var ds, ns := Shift(drest), Named(segs[0], nrest);
      assert Depths(segs) == (if Optional(segs[0]) then [0] else []) + ds;
      assert NameLists(segs) == (if Optional(segs[0]) then [[segs[0].name]] else []) + ns;
      DepthsBound(segs[1..]);
      hide Depths, NameLists, Shift, Named, NameOf;
      if j < d {
        assert segs[..0] == [];
      } else {
        NameListsPrefix(segs[1..], j - d);
        VarNamesCons(segs, ds[j - d]);
        assert Depths(segs)[j] == ds[j - d] && NameLists(segs)[j] == ns[j - d];
        PrefixCons(NameOf(segs[0]), VarNames(segs[1..][..drest[j - d]]), nrest[j - d]);
      }
    }
  }

  /** The last list is exactly the names of all variables. */
  lemma {:induction false} NameListsLast(segs: seq<Seg>)
    ensures NameLists(segs) != [] && NameLists(segs)[|NameLists(segs)| - 1] == VarNames(segs)
  {
    if segs != [] {
      var ns := Named(segs[0], NameLists(segs[1..]));
      NameListsLast(segs[1..]);
      var all := NameLists(segs);
      assert all == (if Optional(segs[0]) then [[segs[0].name]] else []) + ns;
      assert all[|all| - 1] == ns[|ns| - 1];
    }
  }

  // ---------------------------------------------------------------- literal patterns

  /** Pieces BuildRoute takes as they stand: none is braced, and nothing is trimmed from them
      (it trims the front of every piece, but the back of the last one only). */
  predicate PlainKeys(keys: seq<string>) {
    && keys != []
    && (forall i :: 0 <= i < |keys| ==> PlainKey(keys[i]))
    && var last := keys[|keys| - 1]; !IsSpace(last[|last| - 1])
  }

  predicate PlainKey(k: string) {
    k != "" && '/' !in k && !IsSpace(k[0]) && !Braced(k)
  }

  function Lits(keys: seq<string>): seq<Seg> {
    seq(|keys|, i requires 0 <= i < |keys| => Lit(keys[i]))
  }

  lemma {:induction false} JoinEnds(keys: seq<string>)
    requires PlainKeys(keys)
    ensures var s := Join(keys, '/'); s != "" && s[0] == keys[0][0] && !IsSpace(s[|s| - 1]) && s[|s| - 1] != '/'
  {
    if |keys| == 1 {
      var k := keys[0];
      assert k[|k| - 1] in k;
    } else {
      JoinEnds(keys[1..]);
    }
  }

  lemma HeadTail(a: string, b: string)
    requires a != "" && '/' !in a
    ensures Head(a + ['/'] + b) == a && Tail(a + ['/'] + b) == b && Head(a) == a && Tail(a) == ""
  {
    var q := a + ['/'] + b;
    assert q[..|a|] == a && q[|a| + 1..] == b;
    IndexOfIs(q, '/', |a|);
    assert a[..|a|] == a;
  }

  lemma PlainTrims(s: string)
    requires !IsSpace('/')
    requires s != "" && !IsSpace(s[0]) && !IsSpace(s[|s| - 1]) && s[0] != '/'
    ensures Trimmed(s) == s && Trimmed("/" + s) == s
  {
    var t := "/" + s;
    SlashTrims(t, s);
    hide IsSpace, TrimLeft;
    assert t[0] == '/' && t[|t| - 1] == s[|s| - 1];
    assert TrimSpace(t) == t && TrimSpace(s) == s;
  }

  lemma SlashTrims(t: string, s: string)
    requires t == "/" + s
    ensures TrimLeft(t, IsSlash) == TrimLeft(s, IsSlash)
  {
    assert t[1..] == s;
  }

  lemma LiteralTrims(keys: seq<string>)
    requires PlainKeys(keys)
    ensures var s := Join(keys, '/'); Trimmed(s) == s && Trimmed("/" + s) == s && s != "" && s[0] != '/'
  {
    var s := Join(keys, '/');
    JoinEnds(keys);
    assert s[0] in keys[0];
    PlainTrims(s);
  }

  lemma SegmentsUnfold(p: string)
    ensures Segments(p) == var q := Trimmed(p); if q == "" then [] else [ParseSeg(Head(q))] + Segments(Tail(q))
  {
  }

  lemma LiteralHead(keys: seq<string>)
    requires PlainKeys(keys)
    ensures keys != []
    ensures var s := Join(keys, '/'); s != "" && s[0] != '/' && Head(s) == keys[0] && Tail(s) == Join(keys[1..], '/')
    ensures Trimmed(Join(keys, '/')) == Join(keys, '/') == Trimmed("/" + Join(keys, '/'))
    ensures ParseSeg(keys[0]) == Lit(keys[0])
  {
    LiteralTrims(keys);
    HeadTail(keys[0], Join(keys[1..], '/'));
  }

  /** A pattern of plain literal pieces, with or without the leading slash, means those pieces. */
  lemma {:induction false} LiteralSegments(keys: seq<string>)
    requires PlainKeys(keys)
    ensures Segments(Join(keys, '/')) == Lits(keys)
    ensures Segments("/" + Join(keys, '/')) == Lits(keys)
  {
    hide *;
    var s := Join(keys, '/');
    LiteralHead(keys);
    LitsUnfold(keys);
    SegmentsUnfold(s);
    SegmentsUnfold("/" + s);
    if |keys| > 1 {
      PlainTail(keys);
      LiteralSegments(keys[1..]);
    }
  }

  lemma PlainTail(keys: seq<string>)
    requires PlainKeys(keys) && |keys| > 1
    ensures PlainKeys(keys[1..])
  {
    hide PlainKey, IsSpace;
  }

  lemma LitsUnfold(keys: seq<string>)
    requires keys != []
    ensures Lits(keys) == [Lit(keys[0])] + Lits(keys[1..])
    ensures |keys| == 1 ==> Join(keys[1..], '/') == "" && Lits(keys[1..]) == Segments("") == []
  {
  }

  /** SplitPath (router/route.go:242-253): at most one empty piece is dropped at each end. */
  function SplitPath(p: string): seq<string> {
    var a := Split(p, '/');
    var b := if |a| > 0 && a[0] == "" then a[1..] else a;
    if |b| > 0 && b[|b| - 1] == "" then b[..|b| - 1] else b
  }

  lemma LiteralSplitPath(keys: seq<string>)
    requires PlainKeys(keys)
    ensures SplitPath(Join(keys, '/')) == keys
    ensures SplitPath("/" + Join(keys, '/')) == keys
  {
    SplitJoin(keys, '/');
    var both := [""] + keys;
    assert both[1..] == keys;
    assert Join(both, '/') == "/" + Join(keys, '/');
    SplitJoin(both, '/');
  }
}
