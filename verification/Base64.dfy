/** Base64 as section 4 of RFC 4648 gives it, and the mail encoder that wraps it into lines
    (util/mail/mail.go). */
module Base64 {
  import opened Bytes
  import opened Text
  import opened QuotedPrintable

  // ---------------------------------------------------------------- the encoding

  /** The alphabet: A-Z, a-z, 0-9, + and /. */
  function Digit(n: nat): (c: byte)
    requires n < 64
    ensures Value(c) == Some(n) && c != EQ && c != CR && c != LF
  {
    if n < 26 then 65 + n else if n < 52 then 71 + n else if n < 62 then n - 4 else if n == 62 then 43 else 47
  }

  function Value(c: byte): Option<nat> {
    if 65 <= c <= 90 then Some(c - 65)
    else if 97 <= c <= 122 then Some(c - 71)
    else if 48 <= c <= 57 then Some(c + 4)
    else if c == 43 then Some(62)
    else if c == 47 then Some(63)
    else None
  }

  /** Three bytes as four digits. */
  function Group(x: byte, y: byte, z: byte): (r: bytes)
    ensures |r| == 4
  {
    [Digit(x / 4), Digit(x % 4 * 16 + y / 16), Digit(y % 16 * 4 + z / 64), Digit(z % 64)]
  }

  function Encode(s: bytes): bytes {
    if |s| == 0 then []
    else if |s| == 1 then Group(s[0], 0, 0)[..2] + [EQ, EQ]
    else if |s| == 2 then Group(s[0], s[1], 0)[..3] + [EQ]
    else Group(s[0], s[1], s[2]) + Encode(s[3..])
  }

  function EncodedLen(n: nat): nat {
    (n + 2) / 3 * 4
  }

  /** The three bytes four digits stand for. */
  function Bits(a: Option<nat>, b: Option<nat>, c: Option<nat>, d: Option<nat>): Option<bytes> {
    if a.None? || b.None? || c.None? || d.None? then None
    else
      Some([(a.value * 4 + b.value / 16) % 256, (b.value % 16 * 16 + c.value / 4) % 256,
        (c.value % 4 * 64 + d.value) % 256])
  }

  /** The low bits of an incomplete group are not looked at. */
  function Decode(s: bytes): Option<bytes> {
    if |s| == 0 then Some([])
    else if |s| < 4 then None
    else if |s| == 4 && s[2] == EQ && s[3] == EQ then
      var r := Bits(Value(s[0]), Value(s[1]), Some(0), Some(0));
      if r.Some? then Some(r.value[..1]) else None
    else if |s| == 4 && s[3] == EQ then
      var r := Bits(Value(s[0]), Value(s[1]), Value(s[2]), Some(0));
      if r.Some? then Some(r.value[..2]) else None
    else
      var r, rest := Bits(Value(s[0]), Value(s[1]), Value(s[2]), Value(s[3])), Decode(s[4..]);
      if r.Some? && rest.Some? then Some(r.value + rest.value) else None
  }

  lemma Sextets(x: byte, y: byte, z: byte)
    ensures x / 4 < 64 && x % 4 * 16 + y / 16 < 64 && y % 16 * 4 + z / 64 < 64 && z % 64 < 64
    ensures x / 4 * 4 + (x % 4 * 16 + y / 16) / 16 == x
    ensures (x % 4 * 16 + y / 16) % 16 * 16 + (y % 16 * 4 + z / 64) / 4 == y
    ensures (y % 16 * 4 + z / 64) % 4 * 64 + z % 64 == z
  {
    assert (x % 4 * 16 + y / 16) / 16 == x % 4;
    assert (x % 4 * 16 + y / 16) % 16 == y / 16;
    assert (y % 16 * 4 + z / 64) / 4 == y % 16;
    assert (y % 16 * 4 + z / 64) % 4 == z / 64;
  }

  lemma DigitIs(n: nat)
    requires n < 64
    ensures Value(Digit(n)) == Some(n) && Digit(n) != EQ && Digit(n) != CR && Digit(n) != LF
  {
  }

  lemma BitsOf(a: nat, b: nat, c: nat, d: nat, x: byte, y: byte, z: byte)
    requires a * 4 + b / 16 == x && b % 16 * 16 + c / 4 == y && c % 4 * 64 + d == z
    ensures Bits(Some(a), Some(b), Some(c), Some(d)) == Some([x, y, z])
  {
    Low(x);
    Low(y);
    Low(z);
  }

  lemma Low(n: int)
    ensures 0 <= n < 256 ==> n % 256 == n
  {
  }

  lemma GroupBits(x: byte, y: byte, z: byte)
    ensures var g := Group(x, y, z);
      && (forall k :: 0 <= k < 4 ==> g[k] != EQ)
      && Bits(Value(g[0]), Value(g[1]), Value(g[2]), Value(g[3])) == Some([x, y, z])
  {
    hide Value, Digit, Bits;
    Sextets(x, y, z);
    var a, b, c, d := x / 4, x % 4 * 16 + y / 16, y % 16 * 4 + z / 64, z % 64;
    DigitIs(a);
    DigitIs(b);
    DigitIs(c);
    DigitIs(d);
    BitsOf(a, b, c, d, x, y, z);
  }

  lemma ZeroDigits(x: byte, y: byte)
    ensures Value(Group(x, 0, 0)[2]) == Value(Group(x, 0, 0)[3]) == Some(0)
    ensures Value(Group(x, y, 0)[3]) == Some(0)
  {
  }

  lemma DecodeGroup(g: bytes, rest: bytes)
    requires |g| == 4 && forall k :: 0 <= k < 4 ==> g[k] != EQ
    requires Bits(Value(g[0]), Value(g[1]), Value(g[2]), Value(g[3])).Some? && Decode(rest).Some?
    ensures Decode(g + rest) ==
      Some(Bits(Value(g[0]), Value(g[1]), Value(g[2]), Value(g[3])).value + Decode(rest).value)
  {
    hide Value, Bits;
    var s := g + rest;
    assert s[4..] == rest && s[3] == g[3] && s[2] == g[2] && s[1] == g[1] && s[0] == g[0];
  }

  /** Decoding undoes encoding. */
  lemma {:induction false} RoundTrip(s: bytes)
    ensures Decode(Encode(s)) == Some(s)
  {
    hide Value, Bits, Group;
    if |s| == 0 {
    } else if |s| == 1 {
      GroupBits(s[0], 0, 0);
      ZeroDigits(s[0], 0);
      assert [s[0], 0, 0][..1] == s;
    } else if |s| == 2 {
      GroupBits(s[0], s[1], 0);
      ZeroDigits(s[0], s[1]);
      assert [s[0], s[1], 0][..2] == s;
    } else {
      GroupBits(s[0], s[1], s[2]);
      RoundTrip(s[3..]);
      DecodeGroup(Group(s[0], s[1], s[2]), Encode(s[3..]));
      assert s == [s[0], s[1], s[2]] + s[3..];
    }
  }

  lemma {:induction false} EncodeShape(s: bytes)
    ensures |Encode(s)| == EncodedLen(|s|)
    ensures forall k :: 0 <= k < |Encode(s)| ==> Encode(s)[k] != CR && Encode(s)[k] != LF
  {
    hide Digit, Group;
    if |s| >= 1 { GroupPlain(s[0], if |s| > 1 then s[1] else 0, if |s| > 2 then s[2] else 0); }
    if |s| >= 3 { EncodeShape(s[3..]); }
  }

  lemma GroupPlain(x: byte, y: byte, z: byte)
    ensures forall k :: 0 <= k < 4 ==> Group(x, y, z)[k] != CR && Group(x, y, z)[k] != LF
  {
    Sextets(x, y, z);
    DigitIs(x / 4);
    DigitIs(x % 4 * 16 + y / 16);
    DigitIs(y % 16 * 4 + z / 64);
    DigitIs(z % 64);
  }

  lemma EncodeFirst(s: bytes)
    requires |s| >= 3
    ensures Encode(s) == Group(s[0], s[1], s[2]) + Encode(s[3..])
  {
    hide Group;
  }

  lemma EncodeNothing()
    ensures Encode([]) == []
  {
  }

  /** Text cut at a multiple of three bytes can be encoded piece by piece. */
  lemma {:induction false} EncodePieces(s: bytes, t: bytes)
    requires |s| % 3 == 0
    ensures Encode(s + t) == Encode(s) + Encode(t)
  {
    hide Encode, Group;
    if |s| == 0 {
      assert s + t == t;
      EncodeNothing();
    } else {
      EncodePieces(s[3..], t);
      assert (s + t)[3..] == s[3..] + t;
      EncodeFirst(s);
      EncodeFirst(s + t);
      assert Group(s[0], s[1], s[2]) + (Encode(s[3..]) + Encode(t)) ==
        Group(s[0], s[1], s[2]) + Encode(s[3..]) + Encode(t);
    }
  }

  // ---------------------------------------------------------------- lines

  /** The text without its line breaks. */
  function Flat(lines: seq<bytes>): bytes {
    if lines == [] then [] else lines[0] + Flat(lines[1..])
  }

  function Unwrapped(s: bytes): bytes {
    Flat(Lines(s))
  }

  lemma {:induction false} OneLine(s: bytes)
    requires forall k :: 0 <= k < |s| ==> s[k] != CR
    ensures Lines(s) == [s]
  {
    if s != [] {
      OneLine(s[..|s| - 1]);
      assert s == s[..|s| - 1] + [s[|s| - 1]];
    }
  }

  /** The lines after one more character. */
  function Longer(lines: seq<bytes>, c: byte): seq<bytes>
    requires lines != []
  {
    lines[|lines| - 1 := lines[|lines| - 1] + [c]]
  }

  lemma LinesBreak(s: bytes)
    ensures Lines(s + CRLF) == Lines(s) + [[]]
  {
    var t := s + CRLF;
    assert t[..|t| - 2] == s;
  }

  lemma LinesChar(s: bytes, c: byte)
    requires !EndsInBreak(s + [c])
    ensures Lines(s + [c]) == Longer(Lines(s), c)
  {
    var t := s + [c];
    assert t[..|t| - 1] == s;
  }

  lemma LongerAcross(l: seq<bytes>, m: seq<bytes>, c: byte)
    requires m != []
    ensures Longer(l + m, c) == l + Longer(m, c)
  {
  }

  lemma {:induction false} LinesAcross(s: bytes, t: bytes)
    ensures Lines(s + CRLF + t) == Lines(s) + Lines(t)
  {
    hide Lines, Longer;
    if t == [] {
      LinesBreak(s);
      assert s + CRLF + t == s + CRLF;
      OneLine([]);
    } else if EndsInBreak(t) {
      var init := t[..|t| - 2];
      assert t == init + CRLF;
      LinesAcross(s, init);
      LinesBreak(init);
      LinesBreak(s + CRLF + init);
      assert s + CRLF + init + CRLF == s + CRLF + t;
    } else {
      var init, c := t[..|t| - 1], t[|t| - 1];
      assert t == init + [c];
      LinesAcross(s, init);
      assert s + CRLF + init + [c] == s + CRLF + t;
      LinesChar(init, c);
      LinesChar(s + CRLF + init, c);
      LongerAcross(Lines(s), Lines(init), c);
    }
  }

  // ---------------------------------------------------------------- the wrapped form

  /** 57 bytes to a line, a line break between lines and none at the end. */
  function Wrapped(s: bytes): bytes {
    if |s| <= 57 then Encode(s) else Encode(s[..57]) + CRLF + Wrapped(s[57..])
  }

  /** The lines are full but for the last, which is not empty. */
  predicate FullLines(lines: seq<bytes>) {
    && lines != []
    && (forall k :: 0 <= k < |lines| - 1 ==> |lines[k]| == 76)
    && 0 < |lines[|lines| - 1]| <= 76
  }

  /** Any non-empty content gives full lines, as many as 57-byte chunks are needed, and taking the
      line breaks out leaves the encoding of the whole content, although the chunks were encoded one
      by one. */
  lemma {:induction false} WrappedShape(s: bytes)
    requires s != []
    ensures |Wrapped(s)| == EncodedLen(|s|) + ((|s| + 56) / 57 - 1) * 2
    ensures FullLines(Lines(Wrapped(s))) && |Lines(Wrapped(s))| == (|s| + 56) / 57
    ensures Unwrapped(Wrapped(s)) == Encode(s)
  {
    hide Encode, Lines, Flat;
    if |s| <= 57 {
      EncodeShape(s);
      OneLine(Encode(s));
      FlatCons(Encode(s), []);
      assert [Encode(s)] + [] == [Encode(s)] && Encode(s) + [] == Encode(s);
    } else {
      var head, tail := s[..57], s[57..];
      EncodeShape(head);
      OneLine(Encode(head));
      WrappedShape(tail);
      LinesAcross(Encode(head), Wrapped(tail));
      FlatCons(Encode(head), Lines(Wrapped(tail)));
      EncodePieces(head, tail);
      assert s == head + tail;
      Chunks(|s|);
    }
  }

  lemma FlatCons(l: bytes, rest: seq<bytes>)
    ensures Flat([l] + rest) == l + Flat(rest) && Flat([]) == []
  {
    assert ([l] + rest)[1..] == rest;
  }

  lemma Chunks(n: nat)
    requires n > 57
    ensures EncodedLen(n) == 76 + EncodedLen(n - 57) && (n + 56) / 57 == 1 + (n - 57 + 56) / 57
  {
  }

  lemma WrapStep(s: bytes, at: nat)
    requires at + 57 < |s|
    ensures Wrapped(s[at..]) == Encode(s[at..at + 57]) + CRLF + Wrapped(s[at + 57..])
    ensures |Encode(s[at..at + 57])| == 76
  {
    assert s[at..][..57] == s[at..at + 57] && s[at..][57..] == s[at + 57..];
    EncodeShape(s[at..at + 57]);
  }

  // ---------------------------------------------------------------- in place

  /** base64.StdEncoding.Encode on b[lo:hi]: fails unless the destination is large enough. */
  method EncodeInto(b: array<byte>, lo: nat, hi: nat, src: bytes)
    requires lo <= hi <= b.Length && hi - lo >= EncodedLen(|src|)
    modifies b
    ensures b[..] == old(b[..lo]) + Encode(src) + old(b[lo + EncodedLen(|src|)..])
  {
    EncodeShape(src);
    var code := Encode(src);
    forall k | 0 <= k < |code| { b[lo + k] := code[k]; }
  }

  /** EncodeBase64WithNewLine (util/mail/mail.go:582-610).  The caller's slice is exactly filled, its
      lines are at most 76 characters with no break after the last, and what a reader decodes after
      dropping the line breaks is the content. */
  method EncodeBase64WithNewLine(content: bytes) returns (b: array<byte>, size: nat)
    ensures fresh(b) && size == |content| && b[..] == Wrapped(content)
    ensures content == [] ==> b.Length == 0
    ensures content != [] ==> FullLines(Lines(b[..])) && |Lines(b[..])| == (|content| + 56) / 57
    ensures Unwrapped(b[..]) == Encode(content) && Decode(Unwrapped(b[..])) == Some(content)
  {
    hide Encode, Decode, Wrapped, Lines, Flat, Unwrapped, FullLines;
    RoundTrip(content);
    var lcontent := |content|;
    if lcontent != 0 {
      WrappedShape(content);
      var lines := (lcontent + 56) / 57;
      var linesM1 := lines - 1;
      var lb := EncodedLen(lcontent) + linesM1 * 2;
      b := new byte[lb];
      var s, e, s2, e2 := 0, 76, 0, 57;
      assert content[0..] == content && b[..0] + Wrapped(content) == Wrapped(content);
      for i := 0 to linesM1
        invariant s2 == 57 * i && e2 == s2 + 57 && s == 78 * i && e == s + 76
        invariant s <= lb && s2 < lcontent
        invariant |Wrapped(content[s2..])| == lb - s
        invariant b[..s] + Wrapped(content[s2..]) == Wrapped(content)
      {
        WrapStep(content, s2);
        WriteLine(b, s, e, content[s2..e2], Wrapped(content[e2..]));
        s := e + 2;
        e := e + 78;
        s2 := e2;
        e2 := e2 + 57;
      }
      WrappedLast(content, s2);
      ghost var before := b[..s];
      EncodeInto(b, s, lb, content[s2..lcontent]);
      assert b[..] == before + Encode(content[s2..]);
    } else {
      b := new byte[0];
      WrappedNothing();
      assert b[..] == content;
    }
    size := lcontent;
  }

  lemma WrappedLast(s: bytes, at: nat)
    requires |s| - 57 <= at <= |s|
    ensures Wrapped(s[at..]) == Encode(s[at..]) && s[at..|s|] == s[at..]
    ensures |Encode(s[at..])| == EncodedLen(|s| - at)
  {
    EncodeShape(s[at..]);
  }

  lemma WrappedNothing()
    ensures Wrapped([]) == [] && Encode([]) == [] && Unwrapped([]) == []
  {
    FlatCons([], []);
  }

  /** One turn of the loop: a full line and its break; the rest of the buffer is still to come. */
  method WriteLine(b: array<byte>, s: nat, e: nat, src: bytes, ghost rest: bytes)
    requires e == s + 76 && e + 2 <= b.Length && |Encode(src)| == EncodedLen(|src|) == 76
    modifies b
    ensures b[..e + 2] + rest == old(b[..s]) + (Encode(src) + CRLF + rest)
  {
    hide Encode;
    ghost var before := b[..s];
    EncodeInto(b, s, e, src);
    assert b[..e] == before + Encode(src);
    b[e] := CR;
    b[e + 1] := LF;
    assert b[..e + 2] == before + Encode(src) + CRLF;
    Regroup(before, Encode(src), CRLF, rest);
  }

  lemma Regroup(w: bytes, x: bytes, y: bytes, z: bytes)
    ensures w + x + y + z == w + (x + y + z)
  {
  }
}
