/** CSRFGate (sec/sec.go): issuing and verifying request tokens.  HMAC, the AES key stream and the
    sources of randomness are parameters. */
module Csrf {
  import opened Bytes
  import opened Integers
  import opened Text
  import Base64

  const TIMESTAMP: nat := 5
  const RAND: nat := 16
  const MAC: nat := 20
  const BLOCK: nat := 16

  const TWO_40: int := 0x100_0000_0000

  /** An int64 as a computation of n leaves it. */
  function Wrap(n: int): (r: int64)
    ensures (r - n) % TWO_64 == 0
    ensures -TWO_63 <= n < TWO_63 ==> r == n
  {
    (n + TWO_63) % TWO_64 - TWO_63
  }

  /** Go's division, which rounds toward zero. */
  function Quot(a: int, b: int): int
    requires b != 0
  {
    if a >= 0 then a / b else -(-a / b)
  }

  /** strconv.FormatInt(n, 10) */
  function Decimal(n: int): bytes {
    if n < 0 then [45] + Digits(-n) else Digits(n)
  }

  // ---------------------------------------------------------------- little-endian numbers

  function LittleEndian(n: nat, k: nat): (r: bytes)
    ensures |r| == k
  {
    if k == 0 then [] else [n % 256] + LittleEndian(n / 256, k - 1)
  }

  function FromLittleEndian(s: bytes): nat {
    if s == [] then 0 else s[0] + 256 * FromLittleEndian(s[1..])
  }

  function Power256(k: nat): (p: nat)
    ensures p > 0
  {
    if k == 0 then 1 else 256 * Power256(k - 1)
  }

  lemma {:induction false} LittleEndianPrefix(n: nat, j: nat, k: nat)
    requires j <= k
    ensures LittleEndian(n, k)[..j] == LittleEndian(n, j)
  {
    if j > 0 {
      LittleEndianPrefix(n / 256, j - 1, k - 1);
      var rest := LittleEndian(n / 256, k - 1);
      assert ([n % 256] + rest)[..j] == [n % 256] + rest[..j - 1];
    }
  }

  /** Cutting a number to k bytes and filling up with zeros keeps it modulo 256 to the k. */
  lemma {:induction false} ReadBack(n: nat, k: nat, zeros: nat)
    ensures FromLittleEndian(LittleEndian(n, k) + seq(zeros, _ => 0)) == n % Power256(k)
  {
    var fill: bytes := seq(zeros, _ => 0);
    if k == 0 {
      assert LittleEndian(n, 0) + fill == fill;
      ZerosAreNothing(zeros);
      assert n % 1 == 0;
    } else {
      ReadBack(n / 256, k - 1, zeros);
      var rest := LittleEndian(n / 256, k - 1);
      assert ([n % 256] + rest + fill)[1..] == rest + fill;
      ModStep(n, Power256(k - 1));
    }
  }

  lemma {:induction false} ZerosAreNothing(zeros: nat)
    ensures FromLittleEndian(seq(zeros, _ => 0)) == 0
  {
    if zeros > 0 {
      ZerosAreNothing(zeros - 1);
      assert seq(zeros, _ => 0)[1..] == seq(zeros - 1, _ => 0);
    }
  }

  lemma ModStep(n: nat, p: nat)
    requires p > 0
    ensures n % (256 * p) == n % 256 + 256 * (n / 256 % p)
  {
    var q, r := n / 256 / p, n / 256 % p;
    assert n == (256 * p) * q + (n % 256 + 256 * r);
    Remainder(256 * p, q, n % 256 + 256 * r);
  }

  // ---------------------------------------------------------------- encryption

  /** HMAC-SHA1 under the gate's token key, SHA-512, and the AES key stream under the gate's key. */
  datatype Env = Env(mac: bytes -> bytes, sha512: bytes -> bytes, stream: (bytes, nat) -> bytes)

  ghost predicate Sizes(env: Env) {
    && (forall s :: |env.mac(s)| == MAC)
    && (forall s :: |env.sha512(s)| == 64)
    && (forall s, n {:trigger env.stream(s, n)} :: |env.stream(s, n)| == n)
  }

  function Xor(x: byte, y: byte): byte {
    Power2Is8();
    XorBits(x, y, 8)
  }

  /** Bit by bit, for numbers of k bits. */
  function XorBits(x: nat, y: nat, k: nat): (r: nat)
    ensures r < Power2(k)
  {
    if k == 0 then 0 else (if x % 2 == y % 2 then 0 else 1) + 2 * XorBits(x / 2, y / 2, k - 1)
  }

  function Power2(k: nat): nat {
    if k == 0 then 1 else 2 * Power2(k - 1)
  }

  lemma {:induction false} XorBitsTwice(x: nat, y: nat, k: nat)
    requires x < Power2(k)
    ensures XorBits(XorBits(x, y, k), y, k) == x
  {
    if k > 0 {
      XorBitsTwice(x / 2, y / 2, k - 1);
      var bit, rest := if x % 2 == y % 2 then 0 else 1, XorBits(x / 2, y / 2, k - 1);
      assert (bit + 2 * rest) / 2 == rest && (bit + 2 * rest) % 2 == bit;
    }
  }

  lemma XorTwice(x: byte, y: byte)
    ensures Xor(Xor(x, y), y) == x
  {
    Power2Is8();
    XorBitsTwice(x, y, 8);
  }

  lemma Power2Is8()
    ensures Power2(8) == 256
  {
    assert Power2(4) == 16;
  }

  function XorAll(s: bytes, key: bytes): (r: bytes)
    requires |s| == |key|
    ensures |r| == |s| && forall i :: 0 <= i < |s| ==> r[i] == Xor(s[i], key[i])
  {
    seq(|s|, i requires 0 <= i < |s| => Xor(s[i], key[i]))
  }

  lemma XorAllTwice(s: bytes, key: bytes)
    requires |s| == |key|
    ensures XorAll(XorAll(s, key), key) == s
  {
    forall i | 0 <= i < |s| ensures XorAll(XorAll(s, key), key)[i] == s[i] {
      XorTwice(s[i], key[i]);
    }
  }

  /** AesCtrEncryptBase64 (sec/aes.go:18-30, 93-99): fails if there is no randomness for the nonce. */
  function Encrypt(env: Env, nonce: Option<bytes>, msg: bytes): Option<bytes>
    requires Sizes(env)
  {
    if nonce.None? then None
    else Some(Base64.Encode(nonce.value + XorAll(msg, env.stream(nonce.value, |msg|))))
  }

  /** base64's DecodeString skips line breaks. */
  function WithoutBreaks(s: bytes): bytes {
    if s == [] then []
    else if s[0] == CR || s[0] == LF then WithoutBreaks(s[1..])
    else [s[0]] + WithoutBreaks(s[1..])
  }

  lemma {:induction false} NothingToSkip(s: bytes)
    requires forall k :: 0 <= k < |s| ==> s[k] != CR && s[k] != LF
    ensures WithoutBreaks(s) == s
  {
    if s != [] { NothingToSkip(s[1..]); }
  }

  /** AesCtrDecryptBase64 (sec/aes.go:34-48, 103-109) */
  function Decrypt(env: Env, text: bytes): Option<bytes>
    requires Sizes(env)
  {
    var raw := Base64.Decode(WithoutBreaks(text));
    if raw.None? || |raw.value| < BLOCK then None
    else
      var nonce, body := raw.value[..BLOCK], raw.value[BLOCK..];
      Some(XorAll(body, env.stream(nonce, |body|)))
  }

  lemma DecryptEncrypt(env: Env, nonce: bytes, msg: bytes)
    requires Sizes(env) && |nonce| == BLOCK
    ensures Decrypt(env, Encrypt(env, Some(nonce), msg).value) == Some(msg)
  {
    hide Base64.Encode, Base64.Decode, XorAll;
    var body := XorAll(msg, env.stream(nonce, |msg|));
    XorSize(msg, env.stream(nonce, |msg|));
    XorAllTwice(msg, env.stream(nonce, |msg|));
    var raw := nonce + body;
    assert raw[..BLOCK] == nonce && raw[BLOCK..] == body;
    Base64.RoundTrip(raw);
    Base64.EncodeShape(raw);
    NothingToSkip(Base64.Encode(raw));
  }

  lemma XorSize(s: bytes, key: bytes)
    requires |s| == |key|
    ensures |XorAll(s, key)| == |s|
  {
  }

  // ---------------------------------------------------------------- what a token says

  /** csrfIterToken (sec.go:279-286) */
  function IterToken(env: Env, iteration: int): bytes {
    env.mac(Decimal(iteration))
  }

  /** What is encrypted into a token issued at time t. */
  function Issued(env: Env, life: int, t: int64, rand: bytes): bytes
    requires life != 0
  {
    LittleEndian(t % TWO_64, TIMESTAMP) + rand + IterToken(env, Wrap(Quot(t, life)))
  }

  /** A decrypted form token is accepted at `now` from the machine whose cookie decrypts to `mine`. */
  predicate Accepted(env: Env, life: int, msg: bytes, mine: bytes, now: int64)
    requires life != 0
  {
    && |msg| > TIMESTAMP + RAND
    && var made := FromLittleEndian(msg[..TIMESTAMP] + [0, 0, 0]);
      && made <= now <= Wrap(made + life)
      && msg[TIMESTAMP..TIMESTAMP + RAND] == mine
      && (msg[TIMESTAMP + RAND..] == IterToken(env, Wrap(Quot(now, life)))
          || msg[TIMESTAMP + RAND..] == IterToken(env, Wrap(Wrap(Quot(now, life)) - 1)))
  }

  /** The time a token issued at t says. */
  lemma StampOf(t: int64)
    ensures FromLittleEndian(LittleEndian(t % TWO_64, TIMESTAMP) + [0, 0, 0]) == t % TWO_40
  {
    hide LittleEndian, FromLittleEndian, Power256;
    ReadBack(t % TWO_64, 5, 3);
    assert seq(3, _ => 0) == [0, 0, 0];
    Power256Five();
    ModMod(t);
  }

  lemma Power256Five()
    ensures Power256(5) == TWO_40
  {
    assert Power256(1) == 256 && Power256(2) == 0x1_0000;
    assert Power256(3) == 0x100_0000 && Power256(4) == 0x1_0000_0000;
  }

  lemma ModMod(t: int)
    ensures t % TWO_64 % TWO_40 == t % TWO_40
  {
  }

  lemma QuotNear(t: nat, now: nat, life: nat)
    requires t <= now <= t + life && life > 0
    ensures now / life == t / life || now / life == t / life + 1
  {
    var q, r := t / life, t % life;
    assert t == life * q + r;
    assert life * (q + 1) == life * q + life;
    if now < life * (q + 1) {
      Remainder(life, q, now - life * q);
    } else if now < life * (q + 1) + life {
      Remainder(life, q + 1, now - life * (q + 1));
    }
  }

  /** The parts of an issued token. */
  lemma Fields(env: Env, life: int, t: int64, rand: bytes)
    requires Sizes(env) && |rand| == RAND && life != 0
    ensures var msg := Issued(env, life, t, rand);
      && |msg| == TIMESTAMP + RAND + MAC
      && FromLittleEndian(msg[..TIMESTAMP] + [0, 0, 0]) == t % TWO_40
      && msg[TIMESTAMP..TIMESTAMP + RAND] == rand
      && msg[TIMESTAMP + RAND..] == IterToken(env, Wrap(Quot(t, life)))
  {
    hide LittleEndian, FromLittleEndian, Wrap, Quot, Decimal;
    var stamp, iter := LittleEndian(t % TWO_64, TIMESTAMP), IterToken(env, Wrap(Quot(t, life)));
    var msg := Issued(env, life, t, rand);
    assert |stamp| == TIMESTAMP by { StampSize(t); }
    assert msg == stamp + rand + iter;
    assert msg[..TIMESTAMP] == stamp && msg[TIMESTAMP..TIMESTAMP + RAND] == rand && msg[TIMESTAMP + RAND..] == iter;
    StampOf(t);
  }

  lemma StampSize(t: int64)
    ensures |LittleEndian(t % TWO_64, TIMESTAMP)| == TIMESTAMP
  {
  }

  /** A token issued at t, with its cookie, is accepted at exactly the times from t to t + life,
      as long as t fits into five bytes; if t + life does not fit into 64 bits it is never accepted. */
  lemma AcceptedForItsLife(env: Env, life: int, t: int64, rand: bytes, now: int64)
    requires Sizes(env) && |rand| == RAND && 0 < life < TWO_63 && 0 <= t < TWO_40
    ensures Accepted(env, life, Issued(env, life, t, rand), rand, now) <==> t <= now <= t + life && t + life < TWO_63
  {
    hide LittleEndian, FromLittleEndian, Issued, IterToken, Wrap, Quot;
    Fields(env, life, t, rand);
    assert t % TWO_40 == t;
    StillRunning(t, life, now);
    if t <= now <= t + life {
      SameIteration(t, now, life);
    }
  }

  lemma StillRunning(t: nat, life: nat, now: int64)
    requires t < TWO_40 && life < TWO_63
    ensures t <= now <= Wrap(t + life) <==> t <= now <= t + life && t + life < TWO_63
  {
  }

  /** Within its life a token carries the current iteration or the one before. */
  lemma SameIteration(t: int64, now: int64, life: int)
    requires 0 <= t <= now <= t + life && life > 0
    ensures Wrap(Quot(t, life)) == Wrap(Quot(now, life)) || Wrap(Quot(t, life)) == Wrap(Wrap(Quot(now, life)) - 1)
  {
    QuotNear(t, now, life);
    QuotSmall(t, life);
    QuotSmall(now, life);
  }

  lemma QuotSmall(n: int64, life: int)
    requires 0 <= n && life > 0
    ensures Quot(n, life) == n / life && 0 <= n / life <= n
    ensures Wrap(n / life) == n / life && (n / life > 0 ==> Wrap(n / life - 1) == n / life - 1)
  {
    Scale(n / life, 1, life);
    assert n / life * life <= n;
  }

  /** From 2^40 seconds on the five bytes are short of the time, and a gate whose tokens live less
      than that rejects every token it issues. */
  lemma RejectedOnceTimeOutgrowsIt(env: Env, life: int, t: int64, rand: bytes, now: int64)
    requires Sizes(env) && |rand| == RAND && 0 < life < TWO_40 && TWO_40 <= t <= now
    ensures !Accepted(env, life, Issued(env, life, t, rand), rand, now)
  {
    hide LittleEndian, FromLittleEndian, Issued, IterToken, Quot;
    Fields(env, life, t, rand);
  }

  /** Whatever the time and the life, a token issued at t is accepted, from t on, until the time its five
      bytes say, plus its life; if that does not fit into 64 bits it is never accepted. */
  lemma AcceptedByItsStamp(env: Env, life: int, t: int64, rand: bytes, now: int64)
    requires Sizes(env) && |rand| == RAND && 0 < life < TWO_63 && 0 <= t <= now
    ensures Accepted(env, life, Issued(env, life, t, rand), rand, now) <==>
      now <= t % TWO_40 + life && t % TWO_40 + life < TWO_63
  {
    hide LittleEndian, FromLittleEndian, Issued, IterToken, Wrap, Quot;
    Fields(env, life, t, rand);
    assert 0 <= t % TWO_40 <= t;
    StillRunning(t % TWO_40, life, now);
    if now <= t % TWO_40 + life {
      SameIteration(t, now, life);
    }
  }

  /** A token is only good with the cookie it was issued with. */
  lemma BoundToItsCookie(env: Env, life: int, t: int64, rand: bytes, mine: bytes, now: int64)
    requires Sizes(env) && |rand| == RAND && life != 0
    ensures Accepted(env, life, Issued(env, life, t, rand), mine, now) ==> mine == rand
  {
    hide LittleEndian, FromLittleEndian, Issued, IterToken;
    Fields(env, life, t, rand);
  }

  // ---------------------------------------------------------------- the gate

  /** What a request's form token and cookie, if it has them, amount to. */
  predicate FormAccepted(env: Env, life: int, form: bytes, cookie: Option<bytes>, now: int64)
    requires Sizes(env) && life != 0
  {
    && form != [] && cookie.Some?
    && Decrypt(env, form).Some? && Decrypt(env, cookie.value).Some?
    && Accepted(env, life, Decrypt(env, form).value, Decrypt(env, cookie.value).value, now)
  }

  /** A token's random part: the cookie's, if the cookie holds one, else new random bytes, else, if
      there are none to be had, bytes hashed from the time. */
  function RandPart(env: Env, life: int, now: int64, cookie: Option<bytes>, rand: Option<bytes>): bytes
    requires Sizes(env) && life != 0
  {
    if Keeps(env, cookie) then Decrypt(env, cookie.value).value
    else if rand.Some? then rand.value
    else env.sha512(Decimal(now) + IterToken(env, Wrap(Quot(now, life))))[..RAND]
  }

  predicate Keeps(env: Env, cookie: Option<bytes>)
    requires Sizes(env)
  {
    cookie.Some? && Decrypt(env, cookie.value).Some? && |Decrypt(env, cookie.value).value| == RAND
  }

  datatype RequestBody = RequestBody(value: bytes, cookie: bytes)

  /** What the gate hands out at time t is accepted, sent back together, at exactly the times from t
      to t + life. */
  lemma HandedOutIsAccepted(env: Env, life: int, t: int64, rand: bytes, crb: RequestBody, now: int64)
    requires Sizes(env) && |rand| == RAND && 0 < life < TWO_63 && 0 <= t < TWO_40
    requires Decrypt(env, crb.value) == Some(Issued(env, life, t, rand)) && Decrypt(env, crb.cookie) == Some(rand)
    ensures FormAccepted(env, life, crb.value, Some(crb.cookie), now) <==> t <= now <= t + life && t + life < TWO_63
  {
    hide Issued, Accepted;
    AcceptedForItsLife(env, life, t, rand, now);
    NothingDecrypts(env);
  }

  lemma NothingDecrypts(env: Env)
    requires Sizes(env)
    ensures Decrypt(env, []).None?
  {
  }

  /** NewCSRFGate (sec.go:56-73): no gate without both keys. */
  method NewCSRFGate(env: Env, key: Option<bytes>, token: Option<bytes>, tokenlife: int64) returns (gate: CSRFGate?)
    requires Sizes(env)
    ensures gate == null <==> key.None? || token.None?
    ensures gate != null ==>
      fresh(gate) && gate.env == env && gate.life == (if tokenlife == 0 then 14400 else tokenlife)
  {
    if key.None? || token.None? { return null; }
    gate := new CSRFGate(env, tokenlife);
  }

  class CSRFGate {
    const env: Env
    const life: int64

    /** NewCSRFGate (sec.go:56-73) */
    constructor (env: Env, tokenlife: int64)
      requires Sizes(env)
      ensures this.env == env && life == (if tokenlife == 0 then 14400 else tokenlife) && life != 0
    {
      this.env := env;
      life := if tokenlife == 0 then 14400 else tokenlife;
    }

    /** CSRFToken (sec.go:84-171).  `rand` and the nonces are what the random source yields; `written`
        is the cookie set on the response. */
    method CSRFToken(now: int64, cookie: Option<bytes>, rand: Option<bytes>, nonce: Option<bytes>,
                     nonce2: Option<bytes>)
      returns (crb: Option<RequestBody>, written: Option<bytes>)
      requires Sizes(env) && life != 0
      requires (rand.Some? ==> |rand.value| == RAND) && (nonce.Some? ==> |nonce.value| == BLOCK)
      requires nonce2.Some? ==> |nonce2.value| == BLOCK
      ensures crb.None? <==> nonce.None? || (!Keeps(env, cookie) && nonce2.None?)
      ensures crb.Some? ==>
        var mine := RandPart(env, life, now, cookie, rand);
        && |mine| == RAND
        && Decrypt(env, crb.value.value) == Some(Issued(env, life, now, mine))
        && Decrypt(env, crb.value.cookie) == Some(mine)
      ensures crb.Some? && Keeps(env, cookie) ==> Some(crb.value.cookie) == cookie && written.None?
      ensures crb.Some? && !Keeps(env, cookie) ==> written == Some(crb.value.cookie)
      ensures crb.None? ==> written.None?
    {
      hide Decrypt, Encrypt, Issued, LittleEndian, Decimal;
      var currentToken := IterToken(env, Wrap(Quot(now, life)));
      var randToken := [];
      var writeCookie := false;
      var err := true;
      written := None;
      if cookie.Some? {
        var dec := Decrypt(env, cookie.value);
        err := dec.None?;
        if dec.Some? { randToken := dec.value; }
      }
      if err || |randToken| != RAND {
        if rand.Some? {
          randToken := rand.value;
        } else {
          randToken := HashFill(Decimal(now) + currentToken);
        }
        writeCookie := true;
      }
      var msg := Message(now, randToken, currentToken);
      IssuedIs(env, life, now, randToken);
      var value := Encrypt(env, nonce, msg);
      EncryptFails(env, nonce, msg);
      if value.None? { return None, None; }
      DecryptEncrypt(env, nonce.value, msg);
      if writeCookie {
        var enc := Encrypt(env, nonce2, randToken);
        EncryptFails(env, nonce2, randToken);
        if enc.None? { return None, None; }
        DecryptEncrypt(env, nonce2.value, randToken);
        written := enc;
        crb := Some(RequestBody(value.value, enc.value));
      } else {
        crb := Some(RequestBody(value.value, cookie.value));
      }
    }

    /** The stand-in for random bytes (sec.go:108-130). */
    method HashFill(seed: bytes) returns (randToken: bytes)
      requires Sizes(env)
      ensures randToken == env.sha512(seed)[..RAND]
    {
      var lenToFill := RAND;
      var msgToHash := seed;
      randToken := [];
      while lenToFill > 0
        invariant (lenToFill == RAND && randToken == [] && msgToHash == seed)
          || (lenToFill == 0 && randToken == env.sha512(seed)[..RAND])
      {
        var h := env.sha512(msgToHash);
        var fillLen := if lenToFill > 64 then 64 else lenToFill;
        lenToFill := lenToFill - fillLen;
        randToken := randToken + h[..fillLen];
        msgToHash := h;
      }
    }

    /** The message buffer (sec.go:136-145): all eight bytes of the time are written at its front, and
        the random bytes go over the last three. */
    method Message(now: int64, randToken: bytes, currentToken: bytes) returns (msg: bytes)
      requires |currentToken| >= MAC && |randToken| == RAND
      ensures msg == LittleEndian(now % TWO_64, TIMESTAMP) + randToken + currentToken
    {
      hide LittleEndian;
      var buf := new byte[TIMESTAMP + RAND + |currentToken|];
      var tstamp := LittleEndian(now % TWO_64, 8);
      assert |tstamp| == 8 by { LittleEndianSize(now % TWO_64, 8); }
      forall k | 0 <= k < 8 { buf[k] := tstamp[k]; }
      forall k | 0 <= k < RAND { buf[TIMESTAMP + k] := randToken[k]; }
      forall k | 0 <= k < |currentToken| { buf[TIMESTAMP + RAND + k] := currentToken[k]; }
      msg := buf[..];
      LittleEndianPrefix(now % TWO_64, TIMESTAMP, 8);
      assert msg[..TIMESTAMP] == tstamp[..TIMESTAMP];
      assert msg == tstamp[..TIMESTAMP] + randToken + currentToken;
    }

    /** VerifyCSRFToken (sec.go:174-240).  A header must repeat the cookie; a form token is decrypted. */
    method VerifyCSRFToken(header: bytes, form: bytes, cookie: Option<bytes>, now: int64) returns (valid: bool)
      requires Sizes(env) && life != 0
      ensures valid <==> if header != [] then cookie == Some(header) else FormAccepted(env, life, form, cookie, now)
    {
      hide Decrypt, Decimal;
      if header != [] {
        return cookie.Some? && header == cookie.value;
      }
      if form == [] { return false; }
      var result := Decrypt(env, form);
      if result.None? || |result.value| <= TIMESTAMP + RAND { return false; }
      var lenTNC := TIMESTAMP + RAND;
      var tcreated := result.value[0..TIMESTAMP];
      var ckietoken := result.value[TIMESTAMP..lenTNC];
      var reqtoken := result.value[lenTNC..];
      tcreated := tcreated + [0, 0, 0];
      var tcreated64 := FromLittleEndian(tcreated);
      if Wrap(tcreated64 + life) < now || tcreated64 > now { return false; }
      if cookie.None? { return false; }
      var dec := Decrypt(env, cookie.value);
      if dec.None? || dec.value != ckietoken { return false; }
      var iteration := Wrap(Quot(now, life));
      return reqtoken == IterToken(env, iteration) || reqtoken == IterToken(env, Wrap(iteration - 1));
    }
  }

  lemma LittleEndianSize(n: nat, k: nat)
    ensures |LittleEndian(n, k)| == k
  {
  }

  lemma IssuedIs(env: Env, life: int, t: int64, rand: bytes)
    requires life != 0
    ensures Issued(env, life, t, rand) ==
      LittleEndian(t % TWO_64, TIMESTAMP) + rand + IterToken(env, Wrap(Quot(t, life)))
  {
  }

  lemma EncryptFails(env: Env, nonce: Option<bytes>, msg: bytes)
    requires Sizes(env)
    ensures Encrypt(env, nonce, msg).None? <==> nonce.None?
  {
  }
}
