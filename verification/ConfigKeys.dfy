/** Dotted keys and the paths they stand for. */
module ConfigKeys {
  import opened Text
  import SplitLastN

  /** No segment is empty. */
  predicate Solid(p: seq<string>) {
    forall k :: 0 <= k < |p| ==> p[k] != ""
  }

  /** The path of a key. */
  function PathOf(key: string): (p: seq<string>)
    ensures |p| >= 1 && forall k :: 0 <= k < |p| ==> '.' !in p[k]
  {
    Split(key, '.')
  }

  /** A key without a dot, or with no empty segment. */
  predicate GoodKey(key: string) {
    '.' in key ==> Solid(PathOf(key))
  }

  lemma PlainPath(key: string)
    ensures '.' !in key ==> PathOf(key) == [key]
    ensures '.' in key ==> |PathOf(key)| >= 2
  {
  }

  lemma {:induction false} GlueIsJoin(parts: seq<string>, c: char)
    requires parts != []
    ensures SplitLastN.Glue(parts, [c]) == Join(parts, c)
  {
    if |parts| > 1 {
      SplitLastN.GlueCons(parts[0], parts[1..], [c]);
      assert parts == [parts[0]] + parts[1..];
      GlueIsJoin(parts[1..], c);
    }
  }

  /** Cutting a key at its last dot is cutting the last segment off its path. */
  lemma LastDot(key: string)
    requires '.' in key
    ensures var r, p := SplitLastN.SplitLast(key, ".", 2), PathOf(key);
      |p| >= 2 && |r| == 2 && PathOf(r[0]) == p[..|p| - 1] && r[1] == p[|p| - 1] && '.' !in r[1]
  {
    hide SplitLastN.SplitLast;
    var r, p := SplitLastN.SplitLast(key, ".", 2), PathOf(key);
    PlainPath(key);
    var full := SplitLastN.SplitLast(key, ".", |key| + 2);
    SplitLastN.OneChar(key, '.', |key| + 2);
    assert full == p;
    SplitLastN.LimitOnlyStops(key, ".", 2, |key| + 2);
    assert |r| == 2;
    var init := p[..|p| - 1];
    assert r[1] == r[1..][0] == p[|p| - 1..][0];
    GlueIsJoin(init, '.');
    SplitJoin(init, '.');
  }

  lemma SolidParts(p: seq<string>, j: nat)
    requires Solid(p) && j <= |p|
    ensures Solid(p[..j]) && Solid(p[j..])
  {
  }
}
