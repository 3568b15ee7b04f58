/** HOTP and TOTP (auth/otp/otp.go).  The keyed hash is a parameter: from the eight bytes of a counter
    to a digest. */
module Otp {
  import opened Bytes
  import opened Integers
  import opened Text

  const TWO_31: int := 0x8000_0000

  type Mac = bytes -> bytes

  // ---------------------------------------------------------------- section 5.3 of RFC 4226

  function BigEndian(n: nat, k: nat): (r: bytes)
    ensures |r| == k
  {
    if k == 0 then [] else BigEndian(n / 256, k - 1) + [n % 256]
  }

  function FromBigEndian(s: bytes): nat {
    if s == [] then 0 else FromBigEndian(s[..|s| - 1]) * 256 + s[|s| - 1]
  }

  function Power10(d: nat): (p: nat)
    ensures p > 0
  {
    if d == 0 then 1 else 10 * Power10(d - 1)
  }

  /** The last d decimal digits of n. */
  function Fixed(n: nat, d: nat): (r: bytes)
    ensures |r| == d
  {
    if d == 0 then [] else Fixed(n / 10, d - 1) + [48 + n % 10]
  }

  /** DT: the four bytes at the offset the low bits of byte `at` give, without the sign bit. */
  function Truncated(ha: bytes, at: nat): (n: nat)
    requires 19 <= at < |ha|
    ensures n < TWO_31
  {
    var offset := ha[at] % 16;
    FromBigEndian(ha[offset..offset + 4]) % TWO_31
  }

  /** The HOTP value for a counter: the offset is in the last byte of the digest. */
  function Hotp(mac: Mac, digits: nat, counter: uint64): bytes
    requires |mac(BigEndian(counter, 8))| >= 20
  {
    var ha := mac(BigEndian(counter, 8));
    Fixed(Truncated(ha, |ha| - 1) % Power10(digits), digits)
  }

  /** What PasswordAt computes: the offset is in byte 19. */
  function Password(mac: Mac, digits: nat, counter: uint64): (r: bytes)
    requires |mac(BigEndian(counter, 8))| >= 20
    ensures |r| == digits
  {
    Fixed(Truncated(mac(BigEndian(counter, 8)), 19) % Power10(digits), digits)
  }

  /** For 20-byte digests that is the HOTP value. */
  lemma PasswordIsHotp(mac: Mac, digits: nat, counter: uint64)
    requires |mac(BigEndian(counter, 8))| == 20
    ensures Password(mac, digits, counter) == Hotp(mac, digits, counter)
  {
  }

  /** For every longer size, such as SHA-256 and SHA-512 have, there are hashes for which it is not. */
  lemma LongDigestsDiffer(n: nat, digits: nat) returns (mac: Mac, counter: uint64)
    requires n > 20 && (digits == 6 || digits == 8)
    ensures forall s :: |mac(s)| == n
    ensures Password(mac, digits, counter) != Hotp(mac, digits, counter)
  {
    hide Fixed, Power10, FromBigEndian;
    var ha: bytes := seq(n, i => if i == n - 1 then 1 else if i == 4 then 7 else 0);
    mac, counter := _ => ha, 0;
    assert ha[0..4] == [0, 0, 0, 0] && ha[1..5] == [0, 0, 0, 7];
    FromBigEndianFour(0, 0, 0, 0);
    FromBigEndianFour(0, 0, 0, 7);
    assert Truncated(ha, 19) == 0 && Truncated(ha, n - 1) == 7;
    SmallDigits(digits);
  }

  lemma SmallDigits(digits: nat)
    requires digits == 6 || digits == 8
    ensures Fixed(0 % Power10(digits), digits) != Fixed(7 % Power10(digits), digits)
  {
    OneDigit(0, digits);
    OneDigit(7, digits);
  }

  lemma OneDigit(n: nat, d: nat)
    requires n < 10 && d > 0
    ensures n % Power10(d) == n && Fixed(n, d)[d - 1] == 48 + n
  {
    hide Power10, Fixed;
    TenAtLeast(d);
    SmallMod(n, Power10(d));
    LastDigit(n, d);
  }

  lemma TenAtLeast(d: nat)
    requires d > 0
    ensures Power10(d) >= 10
  {
  }

  lemma SmallMod(n: nat, p: nat)
    requires n < p
    ensures n % p == n
  {
  }

  lemma LastDigit(n: nat, d: nat)
    requires d > 0
    ensures Fixed(n, d)[d - 1] == 48 + n % 10
  {
    hide Power10;
    assert |Fixed(n / 10, d - 1)| == d - 1;
  }

  lemma FromBigEndianFour(a: byte, b: byte, c: byte, d: byte)
    ensures FromBigEndian([a, b, c, d]) == ((a * 256 + b) * 256 + c) * 256 + d
  {
    assert [a, b, c, d][..3] == [a, b, c] && [a, b, c][..2] == [a, b] && [a, b][..1] == [a] && [a][..0] == [];
    assert FromBigEndian([a]) == a;
    assert FromBigEndian([a, b]) == a * 256 + b;
    assert FromBigEndian([a, b, c]) == (a * 256 + b) * 256 + c;
  }

  // ---------------------------------------------------------------- decimal digits

  /** fmt.Sprintf("%010d", n) */
  function Padded(n: nat): bytes {
    Zeros(10 - |Digits(n)|) + Digits(n)
  }

  function Zeros(k: int): bytes {
    if k <= 0 then [] else [48] + Zeros(k - 1)
  }

  lemma {:induction false} ZerosLast(k: nat)
    ensures Zeros(k + 1) == Zeros(k) + [48]
  {
    if k > 0 { ZerosLast(k - 1); }
  }

  lemma {:induction false} FixedZero(d: nat)
    ensures Fixed(0, d) == Zeros(d)
  {
    if d > 0 {
      FixedZero(d - 1);
      ZerosLast(d - 1);
    }
  }

  /** A number of at most d digits, filled up with zeros, is its last d digits. */
  lemma {:induction false} PaddedIsFixed(n: nat, d: nat)
    requires n < Power10(d) && d > 0
    ensures |Digits(n)| <= d && Zeros(d - |Digits(n)|) + Digits(n) == Fixed(n, d)
  {
    if n < 10 {
      FixedZero(d - 1);
    } else {
      assert n / 10 < Power10(d - 1);
      assert d > 1;
      PaddedIsFixed(n / 10, d - 1);
      var k := d - |Digits(n)|;
      assert Zeros(k) + (Digits(n / 10) + [48 + n % 10]) == Zeros(k) + Digits(n / 10) + [48 + n % 10];
    }
  }

  /** The last digits of the last digits. */
  lemma {:induction false} FixedSuffix(n: nat, d: nat, k: nat)
    requires d <= k
    ensures Fixed(n, k)[k - d..] == Fixed(n, d)
  {
    if d > 0 {
      FixedSuffix(n / 10, d - 1, k - 1);
      var rest := Fixed(n / 10, k - 1);
      assert (rest + [48 + n % 10])[k - d..] == rest[k - d..] + [48 + n % 10];
    }
  }

  lemma ModStep(n: nat, p: nat)
    requires p > 0
    ensures n % (10 * p) == n % 10 + 10 * (n / 10 % p)
    ensures n % (10 * p) / 10 == n / 10 % p && n % (10 * p) % 10 == n % 10
  {
    var q, r := n / 10 / p, n / 10 % p;
    var low := n % 10 + 10 * r;
    assert n / 10 == p * q + r;
    assert n == 10 * p * q + low;
    assert 0 <= low < 10 * p;
    Remainder(10 * p, q, low);
  }

  /** The last d digits are those of the number modulo 10 to the d. */
  lemma {:induction false} FixedMod(n: nat, d: nat)
    ensures Fixed(n % Power10(d), d) == Fixed(n, d)
  {
    if d > 0 {
      ModStep(n, Power10(d - 1));
      FixedMod(n / 10, d - 1);
    }
  }

  /** Different numbers below 10 to the d have different forms. */
  lemma {:induction false} FixedReads(n: nat, m: nat, d: nat)
    requires n < Power10(d) && m < Power10(d) && Fixed(n, d) == Fixed(m, d)
    ensures n == m
  {
    if d > 0 {
      var x, y := Fixed(n, d), Fixed(m, d);
      assert x[..d - 1] == Fixed(n / 10, d - 1) && y[..d - 1] == Fixed(m / 10, d - 1);
      assert x[d - 1] == 48 + n % 10 && y[d - 1] == 48 + m % 10;
      FixedReads(n / 10, m / 10, d - 1);
    }
  }

  /** Cutting the ten-digit form down to its last `digits` characters is taking the number modulo 10
      to the digits and filling up with zeros. */
  lemma CutIsMod(n: nat, digits: nat)
    requires n < TWO_31 && digits <= 10
    ensures |Padded(n)| == 10 && Padded(n)[10 - digits..] == Fixed(n % Power10(digits), digits)
  {
    assert Power10(10) == 10_000_000_000 by { assert Power10(5) == 100_000; }
    PaddedIsFixed(n, 10);
    FixedSuffix(n, digits, 10);
    FixedMod(n, digits);
  }

  // ---------------------------------------------------------------- verifying

  /** uint64(window + 1): how many factors verifyOTP tries. */
  function Tries(window: int64): (n: nat)
    ensures n < TWO_64 && (0 <= window < TWO_63 - 1 ==> n == window + 1)
  {
    (window + 1) % TWO_64
  }

  ghost predicate Digests(mac: Mac) {
    forall s :: |mac(s)| >= 20
  }

  /** The factor d steps away from the counter gives the password. */
  predicate Matches(mac: Mac, digits: nat, password: bytes, counter: nat, d: int)
    requires Digests(mac)
  {
    Password(mac, digits, Wrap(counter + d)) == password
  }

  /** The least i from `from` up to n whose factor counter + i matches. */
  function Least(mac: Mac, digits: nat, password: bytes, counter: nat, from: nat, n: nat): Option<nat>
    requires Digests(mac)
    decreases n - from
  {
    if from >= n then None
    else if Matches(mac, digits, password, counter, from) then Some(from)
    else Least(mac, digits, password, counter, from + 1, n)
  }

  lemma {:induction false} LeastIs(mac: Mac, digits: nat, password: bytes, counter: nat, from: nat, n: nat)
    requires Digests(mac)
    ensures var r := Least(mac, digits, password, counter, from, n);
      && (r.Some? ==> from <= r.value < n && Matches(mac, digits, password, counter, r.value))
      && (forall i :: from <= i < n && (r.None? || i < r.value) ==> !Matches(mac, digits, password, counter, i))
    decreases n - from
  {
    hide Matches, Tries;
    if from < n { LeastIs(mac, digits, password, counter, from + 1, n); }
  }

  lemma {:induction false} LeastWraps(mac: Mac, digits: nat, password: bytes, counter: nat, from: nat, n: nat)
    requires Digests(mac)
    ensures Least(mac, digits, password, counter % TWO_64, from, n) == Least(mac, digits, password, counter, from, n)
    decreases n - from
  {
    hide Matches, Tries;
    if from < n {
      MatchesWraps(mac, digits, password, counter, from);
      LeastWraps(mac, digits, password, counter, from + 1, n);
    }
  }

  lemma MatchesWraps(mac: Mac, digits: nat, password: bytes, counter: nat, i: nat)
    requires Digests(mac)
    ensures Matches(mac, digits, password, counter % TWO_64, i) <==> Matches(mac, digits, password, counter, i)
  {
    hide Password;
    WrapSum(counter, i);
  }

  lemma WrapSum(counter: nat, i: nat)
    ensures (counter % TWO_64 + i) % TWO_64 == (counter + i) % TWO_64
  {
  }

  // ---------------------------------------------------------------- runs

  /** The factors a run of Verify accepts, from a counter that wraps at 2^64. */
  function Accepted(mac: Mac, digits: nat, window: int64, counter: uint64, passwords: seq<bytes>): seq<uint64>
    requires Digests(mac)
    decreases |passwords|
  {
    if passwords == [] then []
    else
      var r := Least(mac, digits, passwords[0], counter, 0, Tries(window));
      if r.None? then Accepted(mac, digits, window, counter, passwords[1..])
      else [Wrap(counter + r.value)] + Accepted(mac, digits, window, Wrap(counter + r.value + 1), passwords[1..])
  }

  /** The same, from a counter that does not wrap. */
  function Unbounded(mac: Mac, digits: nat, window: int64, counter: nat, passwords: seq<bytes>): seq<nat>
    requires Digests(mac)
    decreases |passwords|
  {
    if passwords == [] then []
    else
      var r := Least(mac, digits, passwords[0], counter, 0, Tries(window));
      if r.None? then Unbounded(mac, digits, window, counter, passwords[1..])
      else [counter + r.value] + Unbounded(mac, digits, window, counter + r.value + 1, passwords[1..])
  }

  lemma {:induction false} AcceptedIsUnbounded(mac: Mac, digits: nat, window: int64, counter: nat,
                                               passwords: seq<bytes>)
    requires Digests(mac)
    ensures Reduces(Accepted(mac, digits, window, Wrap(counter), passwords),
                    Unbounded(mac, digits, window, counter, passwords))
    decreases |passwords|
  {
    hide Least, Tries, Wrap, Reduces;
    if passwords == [] {
      NothingReduces();
    } else {
      LeastWraps(mac, digits, passwords[0], counter, 0, Tries(window));
      WrapIs(counter);
      var r := Least(mac, digits, passwords[0], counter, 0, Tries(window));
      var next := if r.None? then counter else counter + r.value + 1;
      AcceptedIsUnbounded(mac, digits, window, next, passwords[1..]);
      if r.Some? {
        WrapAgain(counter, r.value);
        WrapAgain(counter, r.value + 1);
        ReducesFirst(counter + r.value, Accepted(mac, digits, window, Wrap(next), passwords[1..]),
          Unbounded(mac, digits, window, next, passwords[1..]));
      }
    }
  }

  /** uint64 arithmetic */
  function Wrap(n: int): uint64 {
    n % TWO_64
  }

  lemma WrapIs(n: int)
    ensures Wrap(n) == n % TWO_64
  {
  }

  lemma WrapAgain(counter: nat, i: nat)
    ensures Wrap(Wrap(counter) + i) == Wrap(counter + i)
  {
    WrapSum(counter, i);
  }

  ghost predicate Reduces(a: seq<uint64>, u: seq<nat>) {
    |a| == |u| && forall k :: 0 <= k < |a| ==> a[k] == Wrap(u[k])
  }

  lemma NothingReduces()
    ensures Reduces([], [])
  {
  }

  lemma ReducesFirst(x: nat, a: seq<uint64>, u: seq<nat>)
    requires Reduces(a, u)
    ensures Reduces([Wrap(x)] + a, [x] + u)
  {
    hide Wrap;
    assert forall k :: 0 < k < |[x] + u| ==> ([x] + u)[k] == u[k - 1];
    assert forall k :: 0 < k < |[Wrap(x)] + a| ==> ([Wrap(x)] + a)[k] == a[k - 1];
  }

  /** s goes up, from `low` on to less than `high`, and never passes over n numbers or more. */
  ghost predicate Climbs(s: seq<nat>, low: nat, high: int, n: nat) {
    && (forall k :: 0 <= k < |s| ==> low <= s[k] < high)
    && (forall j, k :: 0 <= j < k < |s| ==> s[j] < s[k])
    && (s != [] ==> s[0] < n + low)
    && (forall j, k :: 0 <= j < k == j + 1 < |s| ==> s[k] < n + s[j] + 1)
  }

  lemma {:induction false} UnboundedClimbs(mac: Mac, digits: nat, window: int64, counter: nat, passwords: seq<bytes>)
    requires Digests(mac)
    ensures Climbs(Unbounded(mac, digits, window, counter, passwords),
                   counter, counter + |passwords| * Tries(window), Tries(window))
    decreases |passwords|
  {
    hide Least, Tries, Climbs, Matches, Wrap;
    if passwords == [] {
      NothingClimbs(counter, counter, Tries(window));
    } else {
      var n, rest := Tries(window), passwords[1..];
      LeastBound(mac, digits, passwords[0], counter, n);
      var r := Least(mac, digits, passwords[0], counter, 0, n);
      var next := if r.None? then counter else counter + r.value + 1;
      UnboundedClimbs(mac, digits, window, next, rest);
      OneMore(|rest|, n);
      assert |passwords| == |rest| + 1;
      ClimbFurther(Unbounded(mac, digits, window, next, rest), next, next + |rest| * n, counter + |passwords| * n, n);
      if r.Some? {
        ClimbFirst(counter + r.value, Unbounded(mac, digits, window, next, rest),
          counter, counter + |passwords| * n, n);
      }
    }
  }

  lemma OneMore(k: nat, n: nat)
    ensures (k + 1) * n == k * n + n && k * n >= 0
  {
  }

  lemma NothingClimbs(low: nat, high: int, n: nat)
    ensures Climbs([], low, high, n)
  {
  }

  lemma LeastBound(mac: Mac, digits: nat, password: bytes, counter: nat, n: nat)
    requires Digests(mac)
    ensures var r := Least(mac, digits, password, counter, 0, n); r.Some? ==> r.value < n
  {
    hide Least;
    LeastIs(mac, digits, password, counter, 0, n);
  }

  lemma ClimbFurther(s: seq<nat>, low: nat, high: int, high': int, n: nat)
    requires Climbs(s, low, high, n) && high <= high'
    ensures Climbs(s, low, high', n)
  {
  }

  lemma ClimbFirst(x: nat, rest: seq<nat>, low: nat, high: int, n: nat)
    requires low <= x < high && x < low + n && Climbs(rest, x + 1, high, n)
    ensures Climbs([x] + rest, low, high, n)
  {
    var s := [x] + rest;
    assert forall k :: 0 < k < |s| ==> s[k] == rest[k - 1];
  }

  ghost predicate Ascending(s: seq<nat>, low: nat) {
    && (forall k :: 0 <= k < |s| ==> low <= s[k])
    && (forall j, k :: 0 <= j < k < |s| ==> s[j] < s[k])
  }

  /** The factors a run accepts go up strictly, from the counter on, exactly if the counter does not
      pass 2^64, and they certainly do if it starts that far below. */
  lemma AcceptedAscend(mac: Mac, digits: nat, window: int64, counter: uint64, passwords: seq<bytes>)
    requires Digests(mac)
    ensures
      var a := Accepted(mac, digits, window, counter, passwords);
      var u := Unbounded(mac, digits, window, counter, passwords);
      && (Ascending(a, counter) <==> u == [] || u[|u| - 1] < TWO_64)
      && (counter + |passwords| * Tries(window) <= TWO_64 ==> Ascending(a, counter))
  {
    hide Accepted, Unbounded, Tries, Reduces, Climbs, Ascending;
    AcceptedIsUnbounded(mac, digits, window, counter, passwords);
    UnboundedClimbs(mac, digits, window, counter, passwords);
    TriesBound(window);
    ReducedAscends(Accepted(mac, digits, window, counter, passwords),
      Unbounded(mac, digits, window, counter, passwords),
      counter, counter + |passwords| * Tries(window), Tries(window));
  }

  lemma ReducedAscends(a: seq<uint64>, u: seq<nat>, counter: uint64, high: int, n: nat)
    requires Reduces(a, u) && Climbs(u, counter, high, n) && n < TWO_64
    ensures Ascending(a, counter) <==> u == [] || u[|u| - 1] < TWO_64
    ensures high <= TWO_64 ==> Ascending(a, counter)
  {
    if u != [] && u[|u| - 1] >= TWO_64 {
      WrapShows(a, u, counter, high, n, |u| - 1);
    } else {
      assert forall k :: 0 <= k < |u| ==> u[k] <= u[|u| - 1] < TWO_64;
    }
  }

  lemma TriesBound(window: int64)
    ensures Tries(window) < TWO_64
  {
  }

  /** The first number to pass 2^64 comes out smaller than the one before it. */
  lemma {:induction false} WrapShows(a: seq<uint64>, u: seq<nat>, counter: uint64, high: int, n: nat, k: nat)
    requires Reduces(a, u) && Climbs(u, counter, high, n) && n < TWO_64
    requires k < |u| && u[k] >= TWO_64
    ensures !Ascending(a, counter)
  {
    if k > 0 && u[k - 1] >= TWO_64 {
      WrapShows(a, u, counter, high, n, k - 1);
    } else if k > 0 {
      assert a[k] == u[k] - TWO_64 && a[k - 1] == u[k - 1];
      assert a[k] <= a[k - 1];
    } else {
      assert a[0] == u[0] - TWO_64;
    }
  }

  /** A factor is accepted a second time only after the counter has gone all the way round. */
  lemma NoneAcceptedTwice(mac: Mac, digits: nat, window: int64, counter: uint64, passwords: seq<bytes>, j: nat, k: nat)
    requires Digests(mac)
    requires j < k < |Accepted(mac, digits, window, counter, passwords)|
    requires Accepted(mac, digits, window, counter, passwords)[j] ==
      Accepted(mac, digits, window, counter, passwords)[k]
    ensures |Unbounded(mac, digits, window, counter, passwords)| > k
    ensures Unbounded(mac, digits, window, counter, passwords)[k] >=
      Unbounded(mac, digits, window, counter, passwords)[j] + TWO_64
  {
    hide Accepted, Unbounded, Tries;
    AcceptedIsUnbounded(mac, digits, window, counter, passwords);
    UnboundedClimbs(mac, digits, window, counter, passwords);
    var u := Unbounded(mac, digits, window, counter, passwords);
    SameRemainder(u[j], u[k]);
  }

  lemma SameRemainder(x: nat, y: nat)
    requires x < y && Wrap(x) == Wrap(y)
    ensures y >= x + TWO_64
  {
  }

  // ---------------------------------------------------------------- the verifiers

  class HOTP {
    const mac: Mac
    const c: array<byte>
    var counter: uint64
    var window: int64
    var digits: nat

    ghost predicate Valid()
      reads this
    {
      c.Length == 8 && digits in {0, 6, 8} && Digests(mac)
    }

    /** NewHOTP (otp.go:313-326) */
    constructor (mac: Mac)
      requires Digests(mac)
      ensures Valid() && fresh(c) && this.mac == mac && counter == 0 && window == 100 && digits == 6
    {
      this.mac := mac;
      c := new byte[8];
      counter, window, digits := 0, 100, 6;
    }

    /** Digits (otp.go:136-141) */
    function Digits(): (d: nat)
      reads this
      requires Valid()
      ensures d == 6 || d == 8
    {
      if digits == 0 then 6 else digits
    }

    /** SetDigits (otp.go:128-134) */
    method SetDigits(d: int) returns (ok: bool)
      requires Valid()
      modifies this
      ensures Valid() && counter == old(counter) && window == old(window)
      ensures (ok <==> d == 6 || d == 8) && digits == if ok then d else old(digits)
    {
      if d == 6 || d == 8 {
        digits := d;
        return true;
      }
      return false;
    }

    /** PasswordAt (otp.go:183-195).  The counter goes through the scratch buffer; no slice is out of
        range, whatever the digest. */
    method PasswordAt(counter: uint64) returns (r: bytes)
      requires Valid()
      modifies c
      ensures r == Password(mac, Digits(), counter)
    {
      hide Fixed, Power10, FromBigEndian, Padded;
      var be := BigEndian(counter, 8);
      forall k | 0 <= k < 8 { c[k] := be[k]; }
      assert c[..] == be;
      var ha := mac(c[..]);
      var offset := (ha[18] as int * 256 + ha[19]) % 16;
      assert offset == ha[19] % 16;
      var password32 := FromBigEndian(ha[offset..offset + 4]) % TWO_31;
      assert password32 == Truncated(ha, 19);
      CutIsMod(password32, Digits());
      r := Padded(password32)[10 - Digits()..10];
      assert r == Padded(password32)[10 - Digits()..];
    }

    /** verifyOTP (otp.go:238-254) */
    method VerifyOTP(password: bytes, counter: uint64, window: int64) returns (r: int64)
      requires Valid()
      modifies c
      ensures var least := Least(mac, Digits(), password, counter, 0, Tries(window));
        if least.None? then r == -1 else r != -1 && Wrap(r) == least.value
    {
      hide Password, Matches, Least;
      if |password| != Digits() {
        NoLengthNoMatch(mac, Digits(), password, counter, 0, Tries(window));
        return -1;
      }
      var maxcount := (window + 1) % TWO_64;
      assert maxcount == Tries(window);
      for i := 0 to maxcount
        invariant Least(mac, Digits(), password, counter, 0, maxcount) ==
          Least(mac, Digits(), password, counter, i, maxcount)
      {
        LeastStep(mac, Digits(), password, counter, i, maxcount);
        var ourpassword := PasswordAt(Wrap(counter + i));
        if ourpassword == password {
          SignedBack(i);
          return (i + TWO_63) % TWO_64 - TWO_63;
        }
      }
      LeastStep(mac, Digits(), password, counter, maxcount, maxcount);
      return -1;
    }

    /** Verify (otp.go:167-173).  It accepts exactly if some factor in the window gives the password,
        and then moves just past the least one; the search may run through the whole range of int64
        and still comes out right. */
    method Verify(password: bytes) returns (ok: bool)
      requires Valid()
      modifies this, c
      ensures Valid() && digits == old(digits) && window == old(window)
      ensures var least := Least(mac, Digits(), password, old(counter), 0, Tries(window));
        && (ok <==> least.Some?)
        && counter == if ok then Wrap(old(counter) + least.value + 1) else old(counter)
    {
      hide Least;
      var count := VerifyOTP(password, counter, window);
      if count != -1 {
        counter := Wrap(counter + Wrap(Wrap(count) + 1));
        return true;
      }
      return false;
    }

    /** VerifyAt (otp.go:163-165) */
    method VerifyAt(password: bytes, counter: uint64) returns (ok: bool)
      requires Valid()
      modifies c
      ensures ok <==> Matches(mac, Digits(), password, counter, 0)
    {
      hide Password;
      var count := VerifyOTP(password, counter, 0);
      return count != -1;
    }

    /** Any sequence of Verify calls accepts the factors of the run. */
    method VerifyEach(passwords: seq<bytes>) returns (ghost factors: seq<uint64>, accepted: nat)
      requires Valid()
      modifies this, c
      ensures Valid() && digits == old(digits) && window == old(window)
      ensures factors == Accepted(mac, Digits(), window, old(counter), passwords) && accepted == |factors|
    {
      hide Least, Tries, Accepted, Wrap;
      factors, accepted := [], 0;
      assert passwords[0..] == passwords;
      for k := 0 to |passwords|
        invariant Valid() && digits == old(digits) && window == old(window) && accepted == |factors|
        invariant factors + Accepted(mac, Digits(), window, counter, passwords[k..])
          == Accepted(mac, Digits(), window, old(counter), passwords)
      {
        AcceptedStep(mac, Digits(), window, counter, passwords, k);
        ghost var was := counter;
        ghost var least := Least(mac, Digits(), passwords[k], counter, 0, Tries(window));
        var ok := Verify(passwords[k]);
        if ok {
          ghost var f := Wrap(was + least.value);
          Regroup(factors, [f], Accepted(mac, Digits(), window, counter, passwords[k + 1..]));
          factors := factors + [f];
          accepted := accepted + 1;
        }
      }
      AcceptedNothing(mac, Digits(), window, counter, passwords);
    }
  }

  lemma AcceptedStep(mac: Mac, digits: nat, window: int64, counter: uint64, passwords: seq<bytes>, k: nat)
    requires Digests(mac) && k < |passwords|
    ensures Accepted(mac, digits, window, counter, passwords[k..]) ==
      var r := Least(mac, digits, passwords[k], counter, 0, Tries(window));
      if r.None? then Accepted(mac, digits, window, counter, passwords[k + 1..])
      else [Wrap(counter + r.value)] + Accepted(mac, digits, window, Wrap(counter + r.value + 1), passwords[k + 1..])
  {
    hide Least, Tries, Wrap;
    assert passwords[k..][0] == passwords[k] && passwords[k..][1..] == passwords[k + 1..];
  }

  lemma AcceptedNothing(mac: Mac, digits: nat, window: int64, counter: uint64, passwords: seq<bytes>)
    requires Digests(mac)
    ensures Accepted(mac, digits, window, counter, passwords[|passwords|..]) == []
  {
  }

  lemma Regroup(x: seq<uint64>, y: seq<uint64>, z: seq<uint64>)
    ensures x + (y + z) == x + y + z
  {
  }

  lemma LeastStep(mac: Mac, digits: nat, password: bytes, counter: nat, i: nat, n: nat)
    requires Digests(mac)
    ensures Least(mac, digits, password, counter, i, n) ==
      if i >= n then None
      else if Password(mac, digits, Wrap(counter + i)) == password then Some(i)
      else Least(mac, digits, password, counter, i + 1, n)
  {
    hide Password;
  }

  /** int(i) and back */
  lemma SignedBack(i: uint64)
    ensures ((i + TWO_63) % TWO_64 - TWO_63) % TWO_64 == i
    ensures (i + TWO_63) % TWO_64 - TWO_63 == -1 <==> i == TWO_64 - 1
  {
  }

  lemma NoLengthNoMatch(mac: Mac, digits: nat, password: bytes, counter: nat, from: nat, n: nat)
    requires Digests(mac) && |password| != digits
    ensures Least(mac, digits, password, counter, from, n) == None
    decreases n - from
  {
    hide Password;
    if from < n {
      NoLengthNoMatch(mac, digits, password, counter, from + 1, n);
      PasswordSize(mac, digits, Wrap(counter + from));
    }
  }

  lemma PasswordSize(mac: Mac, digits: nat, counter: uint64)
    requires Digests(mac)
    ensures |Password(mac, digits, counter)| == digits
  {
  }

  class TOTP {
    const hotp: HOTP
    var interval: uint64

    /** NewTOTP (otp.go:339-355) */
    constructor (mac: Mac)
      requires Digests(mac)
      ensures fresh(hotp) && fresh(hotp.c) && hotp.Valid() && hotp.mac == mac && hotp.digits == 6 && hotp.window == 2
      ensures interval == 30
    {
      var h := new HOTP(mac);
      h.window := 2;
      hotp, interval := h, 30;
    }

    /** Verify (otp.go:275-291).  It accepts exactly if a time step at most `window` away from the
        current one, either way, gives the password; nothing is remembered of it. */
    method Verify(password: bytes, now: uint64) returns (ok: bool)
      requires hotp.Valid() && interval != 0
      modifies hotp.c
      ensures ok <==> exists d: int ::
        && (d == 0 || -(hotp.window as int) <= d <= hotp.window)
        && Matches(hotp.mac, hotp.Digits(), password, now / interval, d)
    {
      hide Matches;
      var counter := now / interval;
      ok := hotp.VerifyAt(password, counter);
      if !ok && hotp.window > 0 {
        var window := hotp.window;
        for i := 0 to window
          invariant !ok
          invariant forall d: int :: -i <= d <= i ==> !Matches(hotp.mac, hotp.Digits(), password, counter, d)
        {
          Around(hotp.mac, hotp.Digits(), password, counter, i + 1);
          ok := hotp.VerifyAt(password, Wrap(counter + i + 1));
          if ok { return; }
          Around(hotp.mac, hotp.Digits(), password, counter, -i - 1);
          ok := hotp.VerifyAt(password, Wrap(counter - i - 1));
          if ok { return; }
        }
      }
    }
  }

  lemma Around(mac: Mac, digits: nat, password: bytes, counter: uint64, d: int)
    requires Digests(mac)
    ensures Matches(mac, digits, password, counter, d) <==> Matches(mac, digits, password, Wrap(counter + d), 0)
  {
    hide Password;
    assert Wrap(Wrap(counter + d) + 0) == Wrap(counter + d);
  }
}
