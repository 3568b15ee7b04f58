/** StringSplitLastN (util/util.go:23-77). */
module SplitLastN {
  import opened Text

  /** sep stands in s at position i. */
  predicate Occurs(s: string, sep: string, i: int) {
    0 <= i <= |s| - |sep| && s[i..i + |sep|] == sep
  }

  ghost predicate Free(s: string, sep: string) {
    forall i {:trigger Occurs(s, sep, i)} :: !Occurs(s, sep, i)
  }

  /** The last occurrence of sep, at `from` or before it; -1 if there is none. */
  function LastIndex(s: string, sep: string, from: int): (i: int)
    requires -1 <= from
    ensures -1 <= i <= from
    ensures i >= 0 ==> Occurs(s, sep, i)
    ensures forall j :: i < j <= from ==> !Occurs(s, sep, j)
    decreases from
  {
    if from < 0 || Occurs(s, sep, from) then from else LastIndex(s, sep, from - 1)
  }

  function Last(s: string, sep: string): (i: int)
    requires sep != ""
    ensures -1 <= i <= |s| - |sep| || i == -1
    ensures i >= 0 ==> Occurs(s, sep, i)
    ensures forall j :: i < j ==> !Occurs(s, sep, j)
  {
    LastIndex(s, sep, if |s| < |sep| then -1 else |s| - |sep|)
  }

  /** s cut at its last separators, into at most n parts. */
  function SplitLast(s: string, sep: string, n: nat): (r: seq<string>)
    requires sep != "" && n >= 1
    ensures 1 <= |r| <= n
    decreases |s|
  {
    var i := Last(s, sep);
    if n == 1 || i < 0 then [s] else SplitLast(s[..i], sep, n - 1) + [s[i + |sep|..]]
  }

  /** The characters of s, as strings. */
  function Singles(s: string): (r: seq<string>)
    ensures |r| == |s| && forall k :: 0 <= k < |s| ==> r[k] == [s[k]]
  {
    seq(|s|, k requires 0 <= k < |s| => [s[k]])
  }

  /** At most n parts: the last characters one by one, and what is left of s in front. */
  function LastSingles(s: string, n: nat): (r: seq<string>)
    requires n >= 1
  {
    if n == 1 then [s]
    else if n > |s| then Singles(s)
    else [s[..|s| - (n - 1)]] + Singles(s[|s| - (n - 1)..])
  }

  lemma {:induction false} SinglesGlue(s: string)
    requires s != ""
    ensures Glue(Singles(s), "") == s
  {
    var init, r := s[..|s| - 1], Singles(s);
    assert r[..|r| - 1] == Singles(init) && s == init + [s[|s| - 1]];
    if init != "" { SinglesGlue(init); }
  }

  /** Nothing is lost, and there are as many parts as asked for, if there are that many characters. */
  lemma LastSinglesMeans(s: string, n: nat)
    requires n >= 1
    ensures |LastSingles(s, n)| == if 1 < n && |s| < n then |s| else n
    ensures LastSingles(s, n) != [] ==> Glue(LastSingles(s, n), "") == s
  {
    hide Glue;
    var r := LastSingles(s, n);
    if n == 1 {
      GlueOne(s, "");
    } else if n > |s| {
      if s != "" { SinglesGlue(s); }
    } else {
      var cut := |s| - (n - 1);
      SinglesGlue(s[cut..]);
      GlueCons(s[..cut], Singles(s[cut..]), "");
      assert s[..cut] + "" + s[cut..] == s;
    }
  }

  lemma LastSinglesOnce(s: string)
    ensures LastSingles(s, 1) == [s]
  {
  }

  /** strings.Split, which cuts at the first separators. */
  function SplitAll(s: string, sep: string): (r: seq<string>)
    requires sep != ""
    ensures r != []
    decreases |s|
  {
    var i := FirstIndex(s, sep, 0);
    if i < 0 then [s] else [s[..i]] + SplitAll(s[i + |sep|..], sep)
  }

  function FirstIndex(s: string, sep: string, from: nat): (i: int)
    ensures i == -1 || (from <= i && Occurs(s, sep, i))
    ensures forall j :: from <= j && (i == -1 || j < i) ==> !Occurs(s, sep, j)
    decreases |s| - from
  {
    if from + |sep| > |s| then -1 else if Occurs(s, sep, from) then from else FirstIndex(s, sep, from + 1)
  }

  /** strings.Join, built from the right. */
  function Glue(parts: seq<string>, sep: string): string
    requires parts != []
  {
    if |parts| == 1 then parts[0] else Glue(parts[..|parts| - 1], sep) + sep + parts[|parts| - 1]
  }

  lemma GlueSnoc(parts: seq<string>, sep: string, x: string)
    requires parts != []
    ensures Glue(parts + [x], sep) == Glue(parts, sep) + sep + x
  {
    assert (parts + [x])[..|parts|] == parts;
  }

  lemma {:induction false} GlueCons(x: string, parts: seq<string>, sep: string)
    requires parts != []
    ensures Glue([x] + parts, sep) == x + sep + Glue(parts, sep)
  {
    var all := [x] + parts;
    if |parts| == 1 {
      assert all[..1] == [x];
    } else {
      var init, last := parts[..|parts| - 1], parts[|parts| - 1];
      assert all[..|parts|] == [x] + init;
      GlueCons(x, init, sep);
    }
  }

  /** Joining gives s back; every part but the first is free of the separator, and so is the first if
      fewer parts came out than were asked for. */
  lemma {:induction false} SplitLastMeans(s: string, sep: string, n: nat)
    requires sep != "" && n >= 1
    ensures var r := SplitLast(s, sep, n);
      && Glue(r, sep) == s
      && (forall k :: 0 < k < |r| ==> Free(r[k], sep))
      && (|r| < n ==> Free(r[0], sep))
    decreases |s|
  {
    hide Last, Glue, Occurs, Free;
    var i := Last(s, sep);
    if n > 1 && i >= 0 {
      LastInside(s, sep);
      var head, tail := s[..i], s[i + |sep|..];
      SplitLastMeans(head, sep, n - 1);
      GlueSnoc(SplitLast(head, sep, n - 1), sep, tail);
      CutAt(s, sep, i);
      TailFree(s, sep, i);
    } else {
      GlueOne(s, sep);
      if i < 0 { LastFree(s, sep); }
    }
  }

  /** What occurs in a slice occurs in the whole. */
  lemma Shifted(s: string, lo: nat, hi: nat, sep: string, j: int)
    requires lo <= hi <= |s|
    ensures Occurs(s[lo..hi], sep, j) <==> 0 <= j && lo + j + |sep| <= hi && Occurs(s, sep, lo + j)
  {
    if 0 <= j && lo + j + |sep| <= hi {
      var a, b := s[lo..hi][j..j + |sep|], s[lo + j..lo + j + |sep|];
      forall k | 0 <= k < |sep| ensures a[k] == b[k] {
        assert a[k] == s[lo..hi][j + k];
      }
      assert a == b;
    }
  }

  lemma OccursInFront(s: string, hi: nat, sep: string, i: int)
    requires hi <= |s|
    ensures Occurs(s[..hi], sep, i) <==> 0 <= i && i + |sep| <= hi && s[i..i + |sep|] == sep
  {
    assert s[..hi] == s[0..hi];
    Shifted(s, 0, hi, sep, i);
  }

  lemma LastIs(s: string, sep: string, i: int)
    requires sep != "" && (i == -1 || Occurs(s, sep, i))
    requires forall j :: i < j ==> !Occurs(s, sep, j)
    ensures Last(s, sep) == i
  {
    var l := Last(s, sep);
    assert l >= 0 ==> Occurs(s, sep, l);
  }

  lemma TailFree(s: string, sep: string, i: int)
    requires sep != "" && i == Last(s, sep) >= 0
    ensures Free(s[i + |sep|..], sep)
  {
    var d := i + |sep|;
    assert s[d..] == s[d..|s|];
    forall j ensures !Occurs(s[d..], sep, j) {
      Shifted(s, d, |s|, sep, j);
    }
  }

  lemma HeadFree(s: string, sep: string, i: nat)
    requires sep != "" && i <= |s| && forall j :: 0 <= j < i ==> !Occurs(s, sep, j)
    ensures Free(s[..i], sep)
  {
    assert s[..i] == s[0..i];
    forall j ensures !Occurs(s[..i], sep, j) {
      Shifted(s, 0, i, sep, j);
    }
  }

  lemma {:induction false} SplitAllMeans(s: string, sep: string)
    requires sep != ""
    ensures Glue(SplitAll(s, sep), sep) == s
    ensures forall k :: 0 <= k < |SplitAll(s, sep)| ==> Free(SplitAll(s, sep)[k], sep)
    decreases |s|
  {
    hide Occurs, Glue, Free;
    var i := FirstIndex(s, sep, 0);
    if i >= 0 {
      CutAt(s, sep, i);
      var head, tail := s[..i], s[i + |sep|..];
      SplitAllMeans(tail, sep);
      GlueCons(head, SplitAll(tail, sep), sep);
      HeadFree(s, sep, i);
    } else {
      HeadFree(s, sep, |s|);
      assert s[..|s|] == s;
      GlueOne(s, sep);
    }
  }

  lemma CutAt(s: string, sep: string, i: int)
    requires Occurs(s, sep, i)
    ensures 0 <= i <= i + |sep| <= |s| && s == s[..i] + sep + s[i + |sep|..]
  {
    assert s == s[..i] + s[i..i + |sep|] + s[i + |sep|..];
  }

  lemma GlueOne(s: string, sep: string)
    ensures Glue([s], sep) == s
  {
  }

  /** Asking for fewer parts leaves the last ones as they are and the rest unsplit: nothing depends on
      the limit but how far to the left the cutting goes. */
  lemma {:induction false} LimitOnlyStops(s: string, sep: string, m: nat, n: nat)
    requires sep != "" && 1 <= m <= n
    ensures var r, full := SplitLast(s, sep, m), SplitLast(s, sep, n);
      && |r| == (if |full| < m then |full| else m)
      && r[1..] == full[|full| - |r| + 1..]
      && r[0] == Glue(full[..|full| - |r| + 1], sep)
    decreases |s|
  {
    hide Last, Glue, Occurs;
    var i := Last(s, sep);
    var full := SplitLast(s, sep, n);
    if m == 1 {
      SplitLastMeans(s, sep, n);
      assert full[..|full|] == full;
    } else if i >= 0 {
      LastInside(s, sep);
      var head, tail := s[..i], s[i + |sep|..];
      LimitOnlyStops(head, sep, m - 1, n - 1);
      AddLast(SplitLast(head, sep, m - 1), SplitLast(head, sep, n - 1), tail);
    } else {
      GlueOne(s, sep);
      assert [s][..1] == [s];
    }
  }

  lemma LastInside(s: string, sep: string)
    requires sep != "" && Last(s, sep) >= 0
    ensures Last(s, sep) + |sep| <= |s| && Occurs(s, sep, Last(s, sep))
  {
  }

  lemma AddLast(r: seq<string>, full: seq<string>, x: string)
    requires 1 <= |r| <= |full| && r[1..] == full[|full| - |r| + 1..]
    ensures (r + [x])[1..] == (full + [x])[|full| - |r| + 1..] && (r + [x])[0] == r[0]
    ensures (full + [x])[..|full| - |r| + 1] == full[..|full| - |r| + 1]
  {
    assert (r + [x])[1..] == r[1..] + [x];
  }

  /** For one character, the cuts are those of Split, taken from the right. */
  lemma {:induction false} OneChar(s: string, c: char, n: nat)
    requires n > |s|
    ensures SplitLast(s, [c], n) == Split(s, c)
    decreases |s|
  {
    hide Occurs, Free, Split;
    var i := Last(s, [c]);
    if i < 0 {
      LastFree(s, [c]);
      FreeOfChar(s, c);
      SplitNone(s, c);
    } else {
      CutAt(s, [c], i);
      var head, tail := s[..i], s[i + 1..];
      OneChar(head, c, n - 1);
      TailFree(s, [c], i);
      FreeOfChar(tail, c);
      SplitSnoc(head, tail, c);
    }
  }

  lemma LastFree(s: string, sep: string)
    requires sep != "" && Last(s, sep) < 0
    ensures Free(s, sep)
  {
    hide Last;
    assert forall j {:trigger Occurs(s, sep, j)} :: j < 0 ==> !Occurs(s, sep, j);
  }

  lemma FreeOfChar(s: string, c: char)
    requires Free(s, [c])
    ensures c !in s
  {
    forall k | 0 <= k < |s| ensures s[k] != c {
      assert !Occurs(s, [c], k);
      assert s[k..k + 1] == [s[k]];
    }
  }

  lemma SplitNone(s: string, c: char)
    requires c !in s
    ensures Split(s, c) == [s]
  {
  }

  lemma {:induction false} SplitAllIsSplit(s: string, c: char)
    ensures SplitAll(s, [c]) == Split(s, c)
    decreases |s|
  {
    hide Occurs, IndexOf;
    var i := FirstIndex(s, [c], 0);
    FirstIsIndex(s, c);
    if i >= 0 { SplitAllIsSplit(s[i + 1..], c); }
  }

  lemma FirstIsIndex(s: string, c: char)
    ensures FirstIndex(s, [c], 0) == if c in s then IndexOf(s, c) else -1
  {
    hide FirstIndex, IndexOf, Occurs;
    var i := FirstIndex(s, [c], 0);
    assert forall j :: 0 <= j && (i == -1 || j < i) ==> !Occurs(s, [c], j);
    forall k | 0 <= k < |s| ensures s[k] == c <==> Occurs(s, [c], k) { OccursAt(s, c, k); }
    if i >= 0 {
      OccursAt(s, c, i);
      IndexOfIs(s, c, i);
    }
  }

  lemma OccursAt(s: string, c: char, k: int)
    ensures Occurs(s, [c], k) <==> 0 <= k < |s| && s[k] == c
  {
    if 0 <= k < |s| { assert s[k..k + 1] == [s[k]]; }
  }

  lemma {:induction false} SplitSnoc(head: string, tail: string, c: char)
    requires c !in tail
    ensures Split(head + [c] + tail, c) == Split(head, c) + [tail]
    decreases |head|
  {
    hide IndexOf, Split;
    var s := head + [c] + tail;
    var i := IndexOf(head, c);
    FirstInFront(head, tail, c);
    SplitStep(s, c);
    SplitStep(head, c);
    if i < |head| {
      var rest := head[i + 1..];
      SplitSnoc(rest, tail, c);
      assert s[i + 1..] == rest + [c] + tail && s[..i] == head[..i];
      assert [head[..i]] + (Split(rest, c) + [tail]) == [head[..i]] + Split(rest, c) + [tail];
    } else {
      assert s[i + 1..] == tail && s[..i] == head;
      SplitNone(tail, c);
      assert [head] + [tail] == [head, tail];
    }
  }

  lemma SplitStep(s: string, c: char)
    ensures IndexOf(s, c) <= |s|
    ensures Split(s, c) == var i := IndexOf(s, c); if i == |s| then [s] else [s[..i]] + Split(s[i + 1..], c)
  {
  }

  lemma FirstInFront(head: string, tail: string, c: char)
    ensures IndexOf(head + [c] + tail, c) == IndexOf(head, c)
  {
    var s, i := head + [c] + tail, IndexOf(head, c);
    assert s[..i] == head[..i];
    IndexOfIs(s, c, i);
  }

  /** What the scan has established: what is left of s is still to be cut, into sindex + 1 parts. */
  lemma CutOff(s: string, sep: string, i: int, lasti: nat, sindex: nat)
    requires sep != "" && lasti <= |s| && sindex > 0
    requires 0 <= i && i + |sep| <= lasti && s[i..i + |sep|] == sep
    requires forall j :: i < j ==> !Occurs(s[..lasti], sep, j)
    ensures SplitLast(s[..lasti], sep, sindex + 1) == SplitLast(s[..i], sep, sindex) + [s[i + |sep|..lasti]]
    ensures forall j :: i - |sep| < j ==> !Occurs(s[..i], sep, j)
  {
    var t := s[..lasti];
    OccursInFront(s, lasti, sep, i);
    LastIs(t, sep, i);
    assert t[..i] == s[..i] && t[i + |sep|..] == s[i + |sep|..lasti];
  }

  lemma CutNone(s: string, sep: string, i: int, sindex: nat)
    requires sep != "" && i < 0 && forall j :: i < j ==> !Occurs(s, sep, j)
    ensures SplitLast(s, sep, sindex + 1) == [s]
  {
    LastIs(s, sep, -1);
  }

  /** StringSplitLastN (util/util.go:23-77).  `splitted` is filled from the right.  An empty separator
      splits into characters. */
  method StringSplitLastN(s: string, sep: string, n: int) returns (splitted: seq<string>)
    ensures n == 0 ==> splitted == []
    ensures n < 0 ==> splitted == if sep == "" then Singles(s) else SplitAll(s, sep)
    ensures n > 0 ==> splitted == if sep == "" then LastSingles(s, n) else SplitLast(s, sep, n)
    ensures n != 0 ==> (splitted == [] <==> sep == "" && s == "" && n != 1)
    ensures splitted != [] ==> Glue(splitted, sep) == s
  {
    hide SplitLast, SplitAll, Glue, Last, LastSingles;
    if n == 0 {
      return [];
    } else if n == 1 {
      splitted := [s];
      GlueOne(s, sep);
      if sep == "" { LastSinglesOnce(s); } else { SplitOnce(s, sep); }
      return;
    } else if n < 0 {
      if sep == "" {
        if s != "" { SinglesGlue(s); }
        return Singles(s);
      }
      SplitAllMeans(s, sep);
      return SplitAll(s, sep);
    }
    if sep == "" {
      splitted := FillSingles(s, n);
      LastSinglesMeans(s, n);
    } else {
      splitted := Fill(s, sep, n);
    }
  }

  /** The branch for an empty separator (util/util.go:34-51). */
  method FillSingles(s: string, n: int) returns (splitted: seq<string>)
    requires n > 1
    ensures splitted == LastSingles(s, n)
  {
    if n > |s| { return Singles(s); }
    splitted := seq(n, _ => "");
    var end, i := |s|, n - 1;
    while i >= 1
      invariant 0 <= i < n == |splitted| && end == |s| - (n - 1 - i)
      invariant forall k :: i < k < n ==> splitted[k] == [s[|s| - n + k]]
    {
      splitted := splitted[i := s[end - 1..end]];
      end := end - 1;
      i := i - 1;
    }
    splitted := splitted[0 := s[..end]];
  }

  /** The branch for the others (util/util.go:52-74). */
  method Fill(s: string, sep: string, n: int) returns (splitted: seq<string>)
    requires n > 1 && sep != ""
    ensures splitted == SplitLast(s, sep, n) && splitted != [] && Glue(splitted, sep) == s
  {
    hide SplitLast, Glue, Last;
    SplitLastMeans(s, sep, n);
    splitted := seq(n, _ => "");
    var sindex, lensep, lasti := n - 1, |sep|, |s|;
    var i := |s| - lensep;
    assert s[..lasti] == s && splitted[n..] == [];
    while i >= 0 && sindex > 0
      invariant 0 <= sindex < n == |splitted| && 0 <= lasti <= |s|
      invariant i <= lasti - lensep
      invariant forall j :: i < j ==> !Occurs(s[..lasti], sep, j)
      invariant SplitLast(s, sep, n) == SplitLast(s[..lasti], sep, sindex + 1) + splitted[sindex + 1..]
    {
      if s[i..i + lensep] == sep {
        CutOff(s, sep, i, lasti, sindex);
        ghost var done := splitted[sindex + 1..];
        splitted := splitted[sindex := s[i + lensep..lasti]];
        assert splitted[sindex..] == [s[i + lensep..lasti]] + done;
        sindex := sindex - 1;
        lasti := i;
        i := i - lensep + 1;
      } else {
        OccursInFront(s, lasti, sep, i);
      }
      i := i - 1;
    }
    if sindex == 0 { SplitOnce(s[..lasti], sep); } else { CutNone(s[..lasti], sep, i, sindex); }
    ghost var done := splitted[sindex + 1..];
    splitted := splitted[sindex := s[0..lasti]];
    assert splitted[sindex..] == [s[..lasti]] + done;
    if sindex != 0 {
      splitted := splitted[sindex..];
    }
  }

  lemma SplitOnce(s: string, sep: string)
    requires sep != ""
    ensures SplitLast(s, sep, 1) == [s]
  {
  }
}
