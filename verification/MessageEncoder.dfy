/** MessageEncoder (util/mail/encode.go). */
module MessageEncoder {
  import opened Bytes
  import opened Text
  import opened QuotedPrintable

  /** upperhex */
  function HexDigit(n: byte): (c: byte)
    requires n < 16
    ensures HexValue(c) == Some(n) && c != LF && c != CR && !IsBlank(c)
  {
    if n < 10 then 48 + n else 55 + n
  }

  /** encode (encode.go:114-116) */
  function Escape(b: byte): bytes {
    [EQ, HexDigit(b / 16), HexDigit(b % 16)]
  }

  /** A byte that stands for itself (encode.go:55). */
  predicate Plain(c: byte) {
    IsBlank(c) || (33 <= c <= 126 && c != EQ)
  }

  // ---------------------------------------------------------------- what each addition does

  lemma AddEscape(s: bytes, c: byte)
    ensures Column(s + Escape(c)) == Column(s) + 3
    ensures Short(s + Escape(c)) <==> Short(s) && Column(s) <= 73
    ensures Read(s).Body? ==> Read(s + Escape(c)) == Body(Read(s).out + Read(s).blanks + [c], [])
  {
    var e := Escape(c);
    var s1, s2 := s + [e[0]], s + [e[0]] + [e[1]];
    AddChar(s, e[0]);
    AddChar(s1, e[1]);
    AddChar(s2, e[2]);
    ReadAdd(s, e[0]);
    ReadAdd(s1, e[1]);
    ReadAdd(s2, e[2]);
    assert s2 + [e[2]] == s + e;
  }

  lemma AddSoftBreak(s: bytes)
    ensures Column(s + [EQ, CR, LF]) == 0
    ensures Short(s + [EQ, CR, LF]) <==> Short(s) && Column(s) < 76
  {
    AddChar(s, EQ);
    AddBreak(s + [EQ]);
    assert s + [EQ] + CRLF == s + [EQ, CR, LF];
  }

  /** No hard line break within s[from..] has a blank right before it. */
  predicate NoBlankEnds(s: bytes, from: nat) {
    forall k :: from < k < |s| && s[k] == CR ==> !IsBlank(s[k - 1])
  }

  /** The bytes of a line break after `s` (encode.go:81-98): a blank at the end is escaped first, on a
      line of its own if there is no room. */
  function Broken(s: bytes, i: nat, blank: bool): bytes
    requires blank ==> s != []
  {
    if !blank then s + CRLF
    else
      var init, last := s[..|s| - 1], s[|s| - 1];
      (if i + 2 > 76 then init + [EQ, CR, LF] else init) + Escape(last) + CRLF
  }

  lemma BlankLast(s: bytes)
    requires s != [] && IsBlank(s[|s| - 1])
    ensures var init := s[..|s| - 1];
      && Column(s) == Column(init) + 1 && (Short(s) ==> Short(init))
      && (Read(s).Body? ==> Read(init).Body? && Read(s) == Body(Read(init).out, Read(init).blanks + [s[|s| - 1]]))
  {
    var init := s[..|s| - 1];
    AddChar(init, s[|s| - 1]);
    ReadAdd(init, s[|s| - 1]);
    assert s == init + [s[|s| - 1]];
  }

  lemma BrokenLines(s: bytes, i: nat, blank: bool)
    requires Short(s) && Column(s) == i <= 75 && (blank ==> s != [] && IsBlank(s[|s| - 1]))
    ensures Short(Broken(s, i, blank)) && Column(Broken(s, i, blank)) == 0
  {
    if blank {
      BlankLast(s);
      var init, last := s[..|s| - 1], s[|s| - 1];
      var mid := if i + 2 > 76 then init + [EQ, CR, LF] else init;
      AddSoftBreak(init);
      AddEscape(mid, last);
      AddBreak(mid + Escape(last));
    } else {
      AddBreak(s);
    }
  }

  lemma BrokenReads(s: bytes, i: nat, blank: bool)
    requires Read(s).Body? && (blank <==> Read(s).blanks != []) && (blank ==> s != [] && IsBlank(s[|s| - 1]))
    ensures Read(Broken(s, i, blank)) == Body(Read(s).out + Read(s).blanks + CRLF, [])
  {
    hide Read, Short, Column, Escape, IsBlank;
    if blank {
      BlankReads(s, i);
    } else {
      ReadBreak(s);
    }
  }

  lemma BlankReads(s: bytes, i: nat)
    requires Read(s).Body? && s != [] && IsBlank(s[|s| - 1])
    ensures Read(Broken(s, i, true)) == Body(Read(s).out + Read(s).blanks + CRLF, [])
  {
    hide Read, Short, Column, Escape, IsBlank;
    BlankLast(s);
    var init, last := s[..|s| - 1], s[|s| - 1];
    var mid := if i + 2 > 76 then init + [EQ, CR, LF] else init;
    ReadSoftBreak(init);
    assert Read(mid).Body? && Read(mid).out + Read(mid).blanks == Read(init).out + Read(init).blanks;
    AddEscape(mid, last);
    ReadBreak(mid + Escape(last));
    assert Read(s).out + Read(s).blanks == Read(init).out + Read(init).blanks + [last];
  }

  lemma BrokenEnds(s: bytes, i: nat, blank: bool, from: nat)
    requires NoBlankEnds(s, from) && from <= |s|
    requires if blank then |s| > from && IsBlank(s[|s| - 1]) else |s| > from ==> !IsBlank(s[|s| - 1])
    ensures NoBlankEnds(Broken(s, i, blank), from)
    ensures |Broken(s, i, blank)| > from && Broken(s, i, blank)[..from] == s[..from]
  {
    if blank {
      var init, e := s[..|s| - 1], Escape(s[|s| - 1]);
      var tail := if i + 2 > 76 then [EQ, CR, LF] + e + CRLF else e + CRLF;
      assert Broken(s, i, blank) == init + tail;
      assert forall k :: from < k < |init| && init[k] == CR ==> s[k] == CR && init[k - 1] == s[k - 1];
      NoBlankTail(init, tail, from);
    } else {
      var t := s + CRLF;
      forall k | from < k < |t| && t[k] == CR ensures !IsBlank(t[k - 1]) {
        if k < |s| { assert s[k] == CR; }
      }
    }
  }

  /** `t` is `s` with the byte c written after it: it reads as c, and ends in a blank only if c is one. */
  predicate Adds(s: bytes, t: bytes, c: byte) {
    && s <= t && |t| > |s| && (IsBlank(t[|t| - 1]) <==> IsBlank(c))
    && (forall from: nat :: from <= |s| && NoBlankEnds(s, from) ==> NoBlankEnds(t, from))
    && (Read(s).Body? ==>
          && Read(t).Body? && (Read(t).blanks != [] <==> IsBlank(c))
          && Read(t).out + Read(t).blanks == Read(s).out + Read(s).blanks + [c])
  }

  lemma AddsBody(s: bytes, t: bytes, c: byte)
    requires Adds(s, t, c) && Read(s).Body?
    ensures Read(t).Body?
  {
  }

  function Room(s: bytes, full: bool): bytes {
    if full then s + [EQ, CR, LF] else s
  }

  lemma RoomReads(s: bytes, full: bool)
    requires Read(s).Body?
    ensures Read(Room(s, full)).Body?
    ensures Read(Room(s, full)).out + Read(Room(s, full)).blanks == Read(s).out + Read(s).blanks
  {
    hide Read;
    ReadSoftBreak(s);
  }

  lemma NoBlankTail(s: bytes, tail: bytes, from: nat)
    requires NoBlankEnds(s, from) && from <= |s|
    requires forall k :: 0 <= k < |tail| && tail[k] == CR ==> k > 0 && !IsBlank(tail[k - 1])
    ensures NoBlankEnds(s + tail, from)
  {
    var t := s + tail;
    forall k | from < k < |t| && t[k] == CR ensures !IsBlank(t[k - 1]) {
      if k >= |s| { assert tail[k - |s|] == CR; } else { assert s[k] == CR; }
    }
  }

  lemma AddsPlain(s: bytes, full: bool, c: byte)
    requires Plain(c)
    ensures Adds(s, Room(s, full) + [c], c)
  {
    hide Read;
    var t := Room(s, full) + [c];
    var tail := if full then [EQ, CR, LF, c] else [c];
    assert t == s + tail;
    forall from: nat | from <= |s| && NoBlankEnds(s, from) ensures NoBlankEnds(t, from) {
      NoBlankTail(s, tail, from);
    }
    if Read(s).Body? {
      RoomReads(s, full);
      ReadAdd(Room(s, full), c);
      PlainStep(Read(Room(s, full)), c);
    }
  }

  lemma PlainStep(d: Decoder, c: byte)
    requires d.Body? && Plain(c)
    ensures Step(d, c).Body? && (Step(d, c).blanks != [] <==> IsBlank(c))
    ensures Step(d, c).out + Step(d, c).blanks == d.out + d.blanks + [c]
  {
  }

  lemma AddsEscape(s: bytes, full: bool, c: byte)
    requires !Plain(c)
    ensures Adds(s, Room(s, full) + Escape(c), c)
  {
    hide Read, Column, Short, Lines;
    var t := Room(s, full) + Escape(c);
    var tail := if full then [EQ, CR, LF] + Escape(c) else Escape(c);
    assert t == s + tail;
    forall from: nat | from <= |s| && NoBlankEnds(s, from) ensures NoBlankEnds(t, from) {
      NoBlankTail(s, tail, from);
    }
    if Read(s).Body? {
      RoomReads(s, full);
      AddEscape(Room(s, full), c);
    }
  }

  // ---------------------------------------------------------------- what Write keeps

  /** `t` extends `was`, no hard break after `was` has a blank before it, and `blank` says whether the
      last byte since `was` is a blank. */
  predicate Within(was: bytes, t: bytes, blank: bool) {
    && was <= t && NoBlankEnds(t, |was|)
    && (blank ==> |t| > |was|)
    && (|t| > |was| ==> (blank <==> IsBlank(t[|t| - 1])))
  }

  /** What a decoder that stands at d has read once `kept` has been written after it: blanks that were
      last are lost if a line break comes next, for a new Write does not know of them. */
  function Joined(d: Decoder, kept: bytes): bytes
    requires d.Body?
  {
    if kept != [] && kept[0] == CR then d.out + kept else d.out + d.blanks + kept
  }

  /** Of what is to be kept in all, `rest` is still to be written after `t`. */
  predicate Reads(was: bytes, t: bytes, rest: bytes, kept: bytes, blank: bool) {
    && Read(was).Body? && Read(t).Body?
    && if t == was then rest == kept
       else (blank <==> Read(t).blanks != []) && Read(t).out + Read(t).blanks + rest == Joined(Read(was), kept)
  }

  lemma Start(s: bytes, p: bytes)
    requires Read(s).Body?
    ensures Within(s, s, false) && Reads(s, s, Kept(p[0..], false), Kept(p, false), false)
  {
    assert p[0..] == p;
  }

  lemma KeptStep(p: bytes, k: nat, cr: bool)
    requires k < |p|
    ensures Kept(p[k..], cr) ==
      if p[k] == CR then Kept(p[k + 1..], true)
      else if p[k] == LF || cr then CRLF + Kept(p[k + 1..], false)
      else [p[k]] + Kept(p[k + 1..], false)
  {
    assert p[k..][1..] == p[k + 1..];
  }

  lemma KeptNothing(p: bytes, cr: bool)
    ensures Kept(p[|p|..], cr) == if cr then CRLF + [] else []
  {
  }

  /** The byte at k, as the end of what has been taken so far. */
  lemma LastOf(p: bytes, k: nat, cr: bool)
    requires k < |p| && (cr ==> k > 0 && p[k - 1] == CR)
    ensures EndsInBlank(p[..k + 1]) <==> IsBlank(p[k])
    ensures p[k] == LF ==> !EndsInBlank(p[..k + 1])
    ensures Clean(p) && cr ==> p[k] == LF
  {
    assert p[..k + 1][k] == p[k];
  }

  lemma BlankGrows(was: bytes, t: bytes, blank: bool)
    requires Within(was, t, blank)
    ensures blank ==> t != was
  {
  }

  lemma LastIs(p: bytes, cr: bool)
    requires cr ==> p != [] && p[|p| - 1] == CR
    ensures p[..|p|] == p && (cr ==> !EndsInBlank(p))
  {
  }

  lemma AddsWithin(was: bytes, s: bytes, t: bytes, c: byte, blank: bool)
    requires Within(was, s, blank) && Adds(s, t, c)
    ensures Within(was, t, IsBlank(c)) && t != was
  {
    hide Read, IsBlank, NoBlankEnds;
  }

  lemma ReadsPut(was: bytes, s: bytes, t: bytes, c: byte, rest: bytes, kept: bytes, blank: bool)
    requires Reads(was, s, [c] + rest, kept, blank) && Within(was, s, blank) && Adds(s, t, c) && c != CR
    ensures Reads(was, t, rest, kept, IsBlank(c))
  {
    hide Read, IsBlank, NoBlankEnds;
    Regroup(Read(s).out + Read(s).blanks, [c], rest);
  }

  lemma Regroup(x: bytes, y: bytes, z: bytes)
    ensures x + (y + z) == x + y + z
  {
  }

  lemma ReadsBreak(was: bytes, s: bytes, i: nat, t: bytes, rest: bytes, kept: bytes, blank: bool)
    requires Reads(was, s, CRLF + rest, kept, blank) && Within(was, s, blank)
    requires (blank ==> s != []) && t == Broken(s, i, blank) && was <= t && t != was
    ensures Reads(was, t, rest, kept, false)
  {
    hide Read, IsBlank, Broken, NoBlankEnds;
    var x := Read(s).out + Read(s).blanks;
    if s == was {
      BrokenPlain(s, i);
      ReadBreak(s);
      Regroup(Read(s).out, CRLF, rest);
      assert Read(s).out + CRLF + [] == Read(s).out + CRLF;
    } else {
      BrokenReads(s, i, blank);
      Regroup(x, CRLF, rest);
      assert x + CRLF + [] == x + CRLF;
    }
  }

  lemma BrokenPlain(s: bytes, i: nat)
    ensures Broken(s, i, false) == s + CRLF
  {
  }

  lemma BrokenBody(s: bytes, i: nat, blank: bool)
    requires Read(s).Body? && (blank ==> s != [] && IsBlank(s[|s| - 1]))
    ensures Read(Broken(s, i, blank)).Body?
  {
    hide Read, IsBlank, Broken;
    if blank {
      BlankReads(s, i);
    } else {
      BrokenPlain(s, i);
      ReadBreak(s);
    }
  }

  lemma BrokenLast(s: bytes, i: nat, blank: bool)
    requires blank ==> s != []
    ensures Broken(s, i, blank) != [] && !IsBlank(Broken(s, i, blank)[|Broken(s, i, blank)| - 1])
  {
  }

  lemma SuffixEnds(was: bytes, t: bytes)
    requires exists blank :: Within(was, t, blank)
    ensures was <= t && NoBlankEnds(t[|was|..], 0)
  {
    var u := t[|was|..];
    forall k | 0 < k < |u| && u[k] == CR ensures !IsBlank(u[k - 1]) {
      assert t[|was| + k] == CR;
    }
  }

  lemma ReadsAll(was: bytes, t: bytes, kept: bytes, blank: bool)
    requires Reads(was, t, [], kept, blank)
    ensures Read(was).Body? && Read(t).Body?
    ensures Read(t).out + Read(t).blanks == Joined(Read(was), kept)
    ensures t != was ==> (blank <==> Read(t).blanks != [])
  {
    hide Read;
    var x := Read(t).out + Read(t).blanks;
    assert x + [] == x;
  }

  /** On a fresh encoder: what is read back is what was kept, but for blanks held back at the end. */
  lemma FreshDecodes(t: bytes, p: bytes, blank: bool)
    requires Reads([], t, [], Kept(p, false), blank) && (t == [] ==> !blank)
    requires Clean(p) ==> (blank <==> EndsInBlank(p))
    ensures Decode(t) == Some(Canonical(p)) <==> Clean(p) && !EndsInBlank(p)
  {
    hide Canonical, Clean, Kept;
    var kept := Kept(p, false);
    ReadsAll([], t, kept, blank);
    KeptExactly(p);
    KeptLoses(p);
    var out, blanks := Read(t).out, Read(t).blanks;
    assert Read([]) == Body([], []) && Joined(Read([]), kept) == kept;
    assert out + blanks == kept && Decode(t) == Some(out);
    assert blank <==> blanks != [];
    assert blanks == [] ==> out == kept;
  }

  /** A text that is not clean comes out shorter. */
  lemma KeptLoses(p: bytes)
    ensures !Clean(p) ==> |Kept(p, false)| < |Canonical(p)|
  {
    KeptCanonical(p, false);
  }

  // ---------------------------------------------------------------- the encoder

  class MessageEncoder {
    var b: bytes
    var i: nat

    /** i is the length of the current line, there is room for a soft break, no line is too long, and
        what has been written is quoted-printable. */
    ghost predicate Valid()
      reads this
    {
      Short(b) && Column(b) == i <= 75 && Read(b).Body?
    }

    constructor ()
      ensures Valid() && b == []
    {
      b, i := [], 0;
    }

    /** String and Bytes (encode.go:100-112) */
    method Take() returns (s: bytes)
      modifies this
      ensures Valid() && s == old(b) && b == []
    {
      i := 0;
      s := b;
      b := [];
    }

    /** insertNl (encode.go:81-98) */
    method InsertNl(issp: bool)
      requires issp ==> b != []
      modifies this
      ensures b == Broken(old(b), old(i), issp) && i == 0
    {
      if issp {
        var lastl := |b| - 1;
        var sp := Escape(b[lastl]);
        if i + 2 > 76 {
          b := b[lastl := EQ];
          b := b + [CR, LF, sp[0], sp[1], sp[2]];
          assert b == old(b)[..lastl] + [EQ, CR, LF] + sp;
        } else {
          b := b[lastl := sp[0]];
          b := b + [sp[1], sp[2]];
          assert b == old(b)[..lastl] + sp;
        }
      }
      b := b + CRLF;
      i := 0;
    }

    /** Appends one byte that stands for itself, or its escape, after a soft break if the line is full
        (encode.go:55-70). */
    method Put(c: byte)
      requires Valid()
      modifies this
      ensures Valid() && Adds(old(b), b, c)
    {
      hide Lines, Short, Column, Read, Adds, Escape;
      if Plain(c) {
        if i + 1 >= 76 {
          AddSoftBreak(b);
          b := b + [EQ, CR, LF];
          i := 0;
        }
        AddChar(b, c);
        b := b + [c];
        i := i + 1;
        AddsPlain(old(b), old(i) + 1 >= 76, c);
      } else {
        if i + 3 >= 76 {
          AddSoftBreak(b);
          b := b + [EQ, CR, LF];
          i := 0;
        }
        AddEscape(b, c);
        b := b + Escape(c);
        i := i + 3;
        AddsEscape(old(b), old(i) + 3 >= 76, c);
      }
      AddsBody(old(b), b, c);
    }

    /** Write (encode.go:31-79).  Whatever was written before, the lines stay short, `i` stays the
        current column, what is there stays there, no hard break of this Write has a blank before it,
        and what is kept of p is read after what was read before.  On a fresh encoder the output decodes
        to p with canonical line breaks exactly if p is clean and does not end in a blank: only before a
        line break are blanks escaped. */
    method Write(p: bytes) returns (written: nat)
      requires Valid()
      modifies this
      ensures written == |p| && Valid() && old(b) <= b && NoBlankEnds(b[|old(b)|..], 0)
      ensures Read(b).out + Read(b).blanks == Joined(Read(old(b)), Kept(p, false))
      ensures if p == [] then b == old(b) else Clean(p) ==> (Read(b).blanks != [] <==> EndsInBlank(p))
      ensures old(b) == [] ==> (Decode(b) == Some(Canonical(p)) <==> Clean(p) && !EndsInBlank(p))
    {
      hide Lines, Short, Column, Read, Decode, Canonical, Clean, Kept, Broken, NoBlankEnds, Within, Reads, Adds,
        IsBlank, Joined;
      ghost var was, kept := b, Kept(p, false);
      var iscr, issp := false, false;
      Start(b, p);
      for k := 0 to |p|
        invariant Valid() && Within(was, b, issp) && Reads(was, b, Kept(p[k..], iscr), kept, issp)
        invariant iscr ==> k > 0 && p[k - 1] == CR
        invariant if k == 0 then b == was else !iscr ==> b != was
        invariant Clean(p) && !iscr ==> (issp <==> EndsInBlank(p[..k]))
      {
        var c := p[k];
        KeptStep(p, k, iscr);
        LastOf(p, k, iscr);
        if c == CR {
          iscr := true;
        } else if c == LF || iscr {
          InsertBreak(was, issp, Kept(p[k + 1..], false), kept);
          iscr, issp := false, false;
        } else {
          ghost var before := b;
          Put(c);
          ReadsPut(was, before, b, c, Kept(p[k + 1..], false), kept, issp);
          AddsWithin(was, before, b, c, issp);
          issp := IsBlank(c);
        }
      }
      KeptNothing(p, iscr);
      if iscr { InsertBreak(was, issp, [], kept); }
      LastIs(p, iscr);
      if iscr { issp := false; }
      SuffixEnds(was, b);
      ReadsAll(was, b, kept, issp);
      BlankGrows(was, b, issp);
      if was == [] { FreshDecodes(b, p, issp); }
      written := |p|;
    }

    /** insertNl within a Write. */
    method InsertBreak(ghost was: bytes, issp: bool, ghost rest: bytes, ghost kept: bytes)
      requires Valid() && Within(was, b, issp) && Reads(was, b, CRLF + rest, kept, issp)
      modifies this
      ensures Valid() && Within(was, b, false) && Reads(was, b, rest, kept, false) && b != was
    {
      hide Lines, Short, Column, Read, Broken, NoBlankEnds, Reads;
      BrokenLines(b, i, issp);
      BrokenEnds(b, i, issp, |was|);
      BrokenLast(b, i, issp);
      BrokenBody(b, i, issp);
      ghost var before, at := b, i;
      InsertNl(issp);
      ReadsBreak(was, before, at, b, rest, kept, issp);
    }
  }

  // ---------------------------------------------------------------- several Writes

  lemma {:induction false} HeldAreBlanks(s: bytes)
    ensures Read(s).Body? ==> Solid(Read(s).blanks) == |Read(s).blanks|
  {
    if s != [] {
      HeldAreBlanks(s[..|s| - 1]);
      var d, c := Read(s[..|s| - 1]), s[|s| - 1];
      if d.Body? && IsBlank(c) { SolidAdd(d.blanks, [c]); }
    }
  }

  /** The decoder that stands at d has read the parts, or has lost a blank between two of them. */
  ghost predicate Tells(d: Decoder, parts: seq<bytes>) {
    && d.Body? && Solid(d.blanks) == |d.blanks|
    && (d.blanks != [] <==> EndsInBlank(Flat(parts)))
    && (KeepsBlanks(parts) ==> d.out + d.blanks == Canonicals(parts))
    && (!KeepsBlanks(parts) ==> Solid(d.out + d.blanks) < Solid(Flat(parts)))
  }

  lemma KeptStarts(p: bytes)
    ensures Kept(p, false) != [] && Kept(p, false)[0] == CR <==> p != [] && IsBreak(p[0])
  {
    if p != [] { KeptCR(p[1..]); }
  }

  lemma {:induction false} KeptCR(p: bytes)
    ensures Kept(p, true) != [] && Kept(p, true)[0] == CR
  {
    if p != [] && p[0] == CR { KeptCR(p[1..]); }
  }

  lemma FlatEnds(s: bytes, p: bytes)
    ensures EndsInBlank(s + p) <==> EndsInBlank(if p == [] then s else p)
  {
    if p == [] { assert s + p == s; }
  }

  lemma JoinedSolid(d: Decoder, kept: bytes)
    requires d.Body? && Solid(d.blanks) == |d.blanks|
    ensures Joined(d, kept) ==
      if kept != [] && kept[0] == CR && d.blanks != [] then d.out + kept else (d.out + d.blanks) + kept
    ensures Solid(Joined(d, kept)) == Solid(d.out + d.blanks) + Solid(kept) -
      (if kept != [] && kept[0] == CR then |d.blanks| else 0)
  {
    hide Solid;
    SolidAdd(d.out, kept);
    SolidAdd(d.out, d.blanks);
    SolidAdd(d.out + d.blanks, kept);
    if d.blanks == [] { assert d.out + d.blanks == d.out; }
  }

  /** One more Write. */
  lemma TellsNext(d: Decoder, d': Decoder, parts: seq<bytes>)
    requires parts != [] && Clean(parts[|parts| - 1])
    requires var before, p := parts[..|parts| - 1], parts[|parts| - 1];
      && Tells(d, before) && d'.Body? && Solid(d'.blanks) == |d'.blanks|
      && d'.out + d'.blanks == Joined(d, Kept(p, false))
      && (p == [] ==> d' == d) && (p != [] ==> (d'.blanks != [] <==> EndsInBlank(p)))
    ensures Tells(d', parts)
  {
    hide Kept, Canonical, Clean, Solid, KeepsBlanks, Joined, IsBreak, EndsInBlank;
    var before, p := parts[..|parts| - 1], parts[|parts| - 1];
    KeptExactly(p);
    KeptStarts(p);
    FlatEnds(Flat(before), p);
    JoinedSolid(d, Kept(p, false));
    KeepsBlanksNext(parts);
    SolidCanonical(p);
    SolidCanonicals(before);
    SolidAdd(Flat(before), p);
  }

  /** What a reader makes of it in the end. */
  lemma TellsWhole(d: Decoder, parts: seq<bytes>)
    requires Tells(d, parts)
    ensures d.out == Canonical(Flat(parts)) <==>
      KeepsBlanks(parts) && KeepsBreaks(parts) && !EndsInBlank(Flat(parts))
  {
    hide Canonical, Solid, KeepsBlanks, KeepsBreaks, EndsInBlank, Canonicals, Flat;
    SolidAdd(d.out, d.blanks);
    SolidCanonical(Flat(parts));
    SolidCanonicals(parts);
    CanonicalsAre(parts);
    if d.blanks == [] { assert d.out + d.blanks == d.out; }
  }

  /** Parts that are not clean lose bytes, and a CR LF cut in two adds some: together they can come out
      right, as in CR CR LF CR and LF. */
  lemma LossMadeUpFor()
    ensures var p: bytes, q: bytes := [CR, CR, LF, CR], [LF];
      !Clean(p) && Splits(p, q) && Kept(p, false) + Kept(q, false) == Canonical(p + q)
  {
    var p: bytes, q: bytes := [CR, CR, LF, CR], [LF];
    assert p[0] == CR && p[1] != LF;
    KeptStep(p, 0, false);
    KeptStep(p, 1, true);
    KeptStep(p, 2, true);
    KeptStep(p, 3, false);
    KeptNothing(p, true);
    assert p[0..] == p && Kept(p, false) == CRLF + CRLF;
    KeptStep(q, 0, false);
    KeptNothing(q, false);
    assert q[0..] == q && Kept(q, false) == CRLF;
    var pq := p + q;
    CanonicalFirst(pq);
    CanonicalFirst(pq[1..]);
    CanonicalFirst(pq[3..]);
    assert pq[1..][2..] == pq[3..] && pq[3..][2..] == [];
  }

  /** Writes the parts to a new encoder.  If each part is clean the output decodes to the whole text with
      canonical line breaks exactly if no part that comes after a blank starts with a line break, no CR LF
      is cut in two, and the text does not end in a blank. */
  method WriteEach(parts: seq<bytes>) returns (me: MessageEncoder)
    ensures fresh(me) && me.Valid()
    ensures (forall k :: 0 <= k < |parts| ==> Clean(parts[k])) ==>
      (Decode(me.b) == Some(Canonical(Flat(parts))) <==>
       KeepsBlanks(parts) && KeepsBreaks(parts) && !EndsInBlank(Flat(parts)))
  {
    hide Lines, Short, Column, Read, Canonical, Clean, Kept, NoBlankEnds, Tells, Joined, EndsInBlank, KeepsBlanks,
      KeepsBreaks, Flat;
    me := new MessageEncoder();
    TellsNothing();
    ghost var clean := forall k :: 0 <= k < |parts| ==> Clean(parts[k]);
    for k := 0 to |parts|
      invariant fresh(me) && me.Valid() && (clean ==> Tells(Read(me.b), parts[..k]))
    {
      ghost var before, upTo := me.b, parts[..k + 1];
      var _ := me.Write(parts[k]);
      assert upTo[..k] == parts[..k] && upTo[k] == parts[k];
      HeldAreBlanks(me.b);
      if clean { TellsNext(Read(before), Read(me.b), upTo); }
    }
    assert parts[..|parts|] == parts;
    if clean { TellsWhole(Read(me.b), parts); }
  }

  lemma TellsNothing()
    ensures Tells(Read([]), [])
  {
  }
}
