/** Quoted-printable as section 6.7 of RFC 2045 reads it: lines, a decoder, canonical line breaks. */
module QuotedPrintable {
  import opened Bytes
  import opened Text

  // ---------------------------------------------------------------- lines

  predicate EndsInBreak(s: bytes) {
    |s| >= 2 && s[|s| - 2] == CR && s[|s| - 1] == LF
  }

  /** The lines of s, without their CRLFs. */
  function Lines(s: bytes): (r: seq<bytes>)
    ensures r != []
  {
    if s == [] then [[]]
    else if EndsInBreak(s) then Lines(s[..|s| - 2]) + [[]]
    else
      var before := Lines(s[..|s| - 1]);
      before[|before| - 1 := before[|before| - 1] + [s[|s| - 1]]]
  }

  /** The length of the line being written. */
  function Column(s: bytes): nat {
    var l := Lines(s);
    |l[|l| - 1]|
  }

  /** No line is longer than 76 characters. */
  predicate Short(s: bytes) {
    forall k :: 0 <= k < |Lines(s)| ==> |Lines(s)[k]| <= 76
  }

  lemma AddChar(s: bytes, c: byte)
    requires c != LF
    ensures Column(s + [c]) == Column(s) + 1
    ensures Short(s + [c]) <==> Short(s) && Column(s) < 76
  {
    var t, l := s + [c], Lines(s);
    assert t[..|t| - 1] == s;
    assert Lines(t) == l[|l| - 1 := l[|l| - 1] + [c]];
    if Short(t) {
      forall k | 0 <= k < |l| ensures |l[k]| <= 76 { assert |Lines(t)[k]| <= 76; }
      assert |Lines(t)[|l| - 1]| <= 76;
    }
  }

  lemma AddBreak(s: bytes)
    ensures Column(s + CRLF) == 0
    ensures Short(s + CRLF) <==> Short(s)
  {
    var t, l := s + CRLF, Lines(s);
    assert t[..|t| - 2] == s;
    assert Lines(t) == l + [[]];
    if Short(t) {
      forall k | 0 <= k < |l| ensures |l[k]| <= 76 { assert |Lines(t)[k]| <= 76; }
    }
  }

  // ---------------------------------------------------------------- decoding

  /** A decoder's state: what it has read, and where it stands.  Blanks are held back until it is
      known that no line break follows, since blanks at the end of a line are not data. */
  datatype Decoder =
    | Body(out: bytes, blanks: bytes)
    | Return(out: bytes)
    | Equals(out: bytes)
    | SoftReturn(out: bytes)
    | Hex(out: bytes, high: byte)
    | Bad

  function HexValue(c: byte): Option<byte> {
    if 48 <= c <= 57 then Some(c - 48) else if 65 <= c <= 70 then Some(c - 55) else None
  }

  function Step(d: Decoder, c: byte): Decoder {
    match d
    case Body(out, blanks) =>
      if c == CR then Return(out)
      else if c == EQ then Equals(out + blanks)
      else if IsBlank(c) then Body(out, blanks + [c])
      else if 33 <= c <= 126 then Body(out + blanks + [c], [])
      else Bad
    case Return(out) => if c == LF then Body(out + CRLF, []) else Bad
    case Equals(out) =>
      if c == CR then SoftReturn(out)
      else if HexValue(c).Some? then Hex(out, HexValue(c).value)
      else Bad
    case SoftReturn(out) => if c == LF then Body(out, []) else Bad
    case Hex(out, high) =>
      if HexValue(c).Some? && high < 16 then Body(out + [high * 16 + HexValue(c).value], []) else Bad
    case Bad => Bad
  }

  function Read(s: bytes): Decoder {
    if s == [] then Body([], []) else Step(Read(s[..|s| - 1]), s[|s| - 1])
  }

  /** The text s stands for, if it is quoted-printable.  Blanks that end the last line are no more
      data than those that end any other (rule 3). */
  function Decode(s: bytes): Option<bytes> {
    match Read(s)
    case Body(out, _) => Some(out)
    case _ => None
  }

  lemma ReadAdd(s: bytes, c: byte)
    ensures Read(s + [c]) == Step(Read(s), c)
  {
    assert (s + [c])[..|s|] == s;
  }

  lemma ReadBreak(s: bytes)
    requires Read(s).Body?
    ensures Read(s + CRLF) == Body(Read(s).out + CRLF, [])
  {
    ReadAdd(s, CR);
    ReadAdd(s + [CR], LF);
    assert s + [CR] + [LF] == s + CRLF;
  }

  lemma ReadSoftBreak(s: bytes)
    requires Read(s).Body?
    ensures Read(s + [EQ, CR, LF]) == Body(Read(s).out + Read(s).blanks, [])
  {
    ReadAdd(s, EQ);
    ReadAdd(s + [EQ], CR);
    ReadAdd(s + [EQ] + [CR], LF);
    assert s + [EQ] + [CR] + [LF] == s + [EQ, CR, LF];
  }

  // ---------------------------------------------------------------- line breaks

  /** Every CR LF pair, lone CR and lone LF becomes CR LF. */
  function Canonical(p: bytes): bytes {
    if p == [] then []
    else if p[0] == CR then CRLF + Canonical(p[if |p| > 1 && p[1] == LF then 2 else 1..])
    else if p[0] == LF then CRLF + Canonical(p[1..])
    else [p[0]] + Canonical(p[1..])
  }

  /** Each CR is followed by LF or is the last byte. */
  predicate Clean(p: bytes) {
    forall k :: 0 <= k < |p| - 1 && p[k] == CR ==> p[k + 1] == LF
  }

  /** What the encoder takes p for, when `cr` says that it has just read a CR: a CR is remembered
      until the next byte, which is then taken for the LF whatever it is. */
  function Kept(p: bytes, cr: bool): bytes {
    if p == [] then (if cr then CRLF else [])
    else if p[0] == CR then Kept(p[1..], true)
    else if p[0] == LF || cr then CRLF + Kept(p[1..], false)
    else [p[0]] + Kept(p[1..], false)
  }

  /** Canonical, with a CR already read. */
  function CanonicalAfter(p: bytes, cr: bool): bytes {
    if cr then CRLF + Canonical(if p != [] && p[0] == LF then p[1..] else p) else Canonical(p)
  }

  predicate CleanAfter(p: bytes, cr: bool) {
    Clean(p) && (cr && p != [] ==> p[0] == LF)
  }

  lemma {:induction false} KeptCanonical(p: bytes, cr: bool)
    ensures CleanAfter(p, cr) ==> Kept(p, cr) == CanonicalAfter(p, cr)
    ensures !CleanAfter(p, cr) ==> |Kept(p, cr)| < |CanonicalAfter(p, cr)|
  {
    if p == [] {
    } else {
      var c, rest := p[0], p[1..];
      KeptCanonical(rest, c == CR);
      CleanTail(p);
      if c == CR {
        assert |rest| > 0 && rest[0] == LF ==> p[2..] == rest[1..];
      }
    }
  }

  lemma CleanTail(p: bytes)
    requires p != []
    ensures Clean(p) <==> Clean(p[1..]) && (p[0] == CR && |p| > 1 ==> p[1] == LF)
  {
    if Clean(p[1..]) && (p[0] == CR && |p| > 1 ==> p[1] == LF) {
      forall k | 0 <= k < |p| - 1 && p[k] == CR ensures p[k + 1] == LF {
        if k > 0 { assert p[1..][k - 1] == CR; }
      }
    }
    if Clean(p) {
      forall k | 0 <= k < |p[1..]| - 1 && p[1..][k] == CR ensures p[1..][k + 1] == LF {
        assert p[k + 1] == CR;
      }
    }
  }

  predicate EndsInBlank(p: bytes) {
    p != [] && IsBlank(p[|p| - 1])
  }

  /** A blank at the end of the data does not read back: the text `a` and a space, encoded as itself. */
  lemma BlankAtTheEnd()
    ensures var p: bytes := [97, 32];
      Clean(p) && EndsInBlank(p) && Read(p) == Body([97], [32]) && Decode(p) == Some([97]) && Canonical(p) == p
  {
    assert [97, 32][..1] == [97] && [97][..0] == [];
    assert Read([97]) == Body([97], []);
    assert Canonical([32]) == [32];
  }

  /** The encoder keeps the text, up to the form of its line breaks, exactly when every CR is
      followed by LF or is last; otherwise it loses bytes. */
  lemma KeptExactly(p: bytes)
    ensures Kept(p, false) == Canonical(p) <==> Clean(p)
  {
    KeptCanonical(p, false);
  }

  // ---------------------------------------------------------------- a text in parts

  function Flat(parts: seq<bytes>): bytes {
    if parts == [] then [] else Flat(parts[..|parts| - 1]) + parts[|parts| - 1]
  }

  /** The canonical forms of the parts, one after the other. */
  function Canonicals(parts: seq<bytes>): bytes {
    if parts == [] then [] else Canonicals(parts[..|parts| - 1]) + Canonical(parts[|parts| - 1])
  }

  predicate IsBreak(c: byte) {
    c == CR || c == LF
  }

  /** No part that comes after a blank starts with a line break. */
  predicate KeepsBlanks(parts: seq<bytes>) {
    forall k :: 0 <= k < |parts| && parts[k] != [] && IsBreak(parts[k][0]) ==> !EndsInBlank(Flat(parts[..k]))
  }

  /** `s` and `t` meet in the middle of a CR LF. */
  predicate Splits(s: bytes, t: bytes) {
    s != [] && s[|s| - 1] == CR && t != [] && t[0] == LF
  }

  predicate KeepsBreaks(parts: seq<bytes>) {
    forall k :: 0 <= k < |parts| ==> !Splits(Flat(parts[..k]), parts[k])
  }

  /** How many bytes are no part of a line break. */
  function Solid(s: bytes): nat {
    if s == [] then 0 else (if IsBreak(s[0]) then 0 else 1) + Solid(s[1..])
  }

  lemma {:induction false} SolidAdd(s: bytes, t: bytes)
    ensures Solid(s + t) == Solid(s) + Solid(t)
  {
    if s == [] {
      assert s + t == t;
    } else {
      SolidAdd(s[1..], t);
      assert (s + t)[1..] == s[1..] + t;
    }
  }

  lemma {:induction false} SolidCanonical(p: bytes)
    ensures Solid(Canonical(p)) == Solid(p)
    decreases p
  {
    if p != [] {
      assert Solid(CRLF) == 0 by { assert CRLF[1..] == [LF] && [LF][1..] == []; }
      if IsBreak(p[0]) {
        var rest := p[if p[0] == CR && |p| > 1 && p[1] == LF then 2 else 1..];
        SolidCanonical(rest);
        SolidAdd(CRLF, Canonical(rest));
        if |p| > 1 { assert p[1..][1..] == p[2..]; }
      } else {
        SolidCanonical(p[1..]);
        assert ([p[0]] + Canonical(p[1..]))[1..] == Canonical(p[1..]);
      }
    }
  }

  lemma {:induction false} SolidCanonicals(parts: seq<bytes>)
    ensures Solid(Canonicals(parts)) == Solid(Flat(parts))
  {
    if parts != [] {
      var before, last := parts[..|parts| - 1], parts[|parts| - 1];
      SolidCanonicals(before);
      SolidCanonical(last);
      SolidAdd(Flat(before), last);
      SolidAdd(Canonicals(before), Canonical(last));
    }
  }

  function FirstLength(p: bytes): (n: nat)
    requires p != []
    ensures 1 <= n <= |p|
  {
    if p[0] == CR && |p| > 1 && p[1] == LF then 2 else 1
  }

  function FirstForm(c: byte): bytes {
    if IsBreak(c) then CRLF else [c]
  }

  lemma CanonicalFirst(p: bytes)
    requires p != []
    ensures Canonical(p) == FirstForm(p[0]) + Canonical(p[FirstLength(p)..])
  {
  }

  lemma CutLater(s: bytes, t: bytes)
    requires s != [] && !(Splits(s, t) && |s| == 1)
    ensures var rest := s[FirstLength(s)..];
      && (s + t)[FirstLength(s + t)..] == rest + t
      && (Splits(s, t) <==> Splits(rest, t))
  {
  }

  lemma CutInTheMiddle(s: bytes, t: bytes)
    requires Splits(s, t) && |s| == 1
    ensures |Canonical(s + t)| < |Canonical(s) + Canonical(t)|
  {
    assert s == [CR] && (s + t)[2..] == t[1..];
  }

  lemma CutBefore(t: bytes)
    ensures !Splits([], t) && Canonical([]) == []
  {
  }

  /** The line breaks of a text cut in two are those of the halves, but for a CR LF cut in the middle,
      which becomes two breaks. */
  lemma {:induction false} CanonicalCut(s: bytes, t: bytes)
    ensures !Splits(s, t) ==> Canonical(s + t) == Canonical(s) + Canonical(t)
    ensures Splits(s, t) ==> |Canonical(s + t)| < |Canonical(s) + Canonical(t)|
    decreases s
  {
    hide Canonical, Splits, FirstLength, FirstForm;
    if s == [] {
      assert s + t == t;
      CutBefore(t);
    } else if Splits(s, t) && |s| == 1 {
      CutInTheMiddle(s, t);
    } else {
      var rest := s[FirstLength(s)..];
      CanonicalCut(rest, t);
      CutLater(s, t);
      CanonicalFirst(s);
      CanonicalFirst(s + t);
      assert (s + t)[0] == s[0];
      assert FirstForm(s[0]) + Canonical(rest) + Canonical(t) == FirstForm(s[0]) + (Canonical(rest) + Canonical(t));
    }
  }

  /** The canonical forms of the parts make that of the whole exactly if no CR LF is cut. */
  lemma {:induction false} CanonicalsAre(parts: seq<bytes>)
    ensures KeepsBreaks(parts) ==> Canonicals(parts) == Canonical(Flat(parts))
    ensures !KeepsBreaks(parts) ==> |Canonicals(parts)| > |Canonical(Flat(parts))|
  {
    if parts != [] {
      var before, last := parts[..|parts| - 1], parts[|parts| - 1];
      CanonicalsAre(before);
      CanonicalCut(Flat(before), last);
      KeepsBreaksNext(parts);
    }
  }

  lemma KeepsBreaksNext(parts: seq<bytes>)
    requires parts != []
    ensures var before, last := parts[..|parts| - 1], parts[|parts| - 1];
      KeepsBreaks(parts) <==> KeepsBreaks(before) && !Splits(Flat(before), last)
  {
    hide Flat, Splits;
    var before := parts[..|parts| - 1];
    assert forall k :: 0 <= k < |before| ==> before[..k] == parts[..k];
    if KeepsBreaks(before) && !Splits(Flat(before), parts[|parts| - 1]) {
      forall k | 0 <= k < |parts| ensures !Splits(Flat(parts[..k]), parts[k]) {
        if k < |before| { assert !Splits(Flat(before[..k]), before[k]); }
      }
    }
    if KeepsBreaks(parts) {
      forall k | 0 <= k < |before| ensures !Splits(Flat(before[..k]), before[k]) {
        assert !Splits(Flat(parts[..k]), parts[k]);
      }
    }
  }

  lemma KeepsBlanksNext(parts: seq<bytes>)
    requires parts != []
    ensures var before, last := parts[..|parts| - 1], parts[|parts| - 1];
      KeepsBlanks(parts) <==>
      KeepsBlanks(before) && !(last != [] && IsBreak(last[0]) && EndsInBlank(Flat(before)))
  {
    hide Flat, IsBreak, EndsInBlank;
    var before := parts[..|parts| - 1];
    assert forall k :: 0 <= k < |before| ==> before[..k] == parts[..k] && before[k] == parts[k];
  }
}
