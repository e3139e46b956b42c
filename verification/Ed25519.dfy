/**
 * Ed25519 with BLAKE2b: signing, verifying, and the challenge signatures of enrollment.
 *
 * The steps are those of sections 5.1.5 to 5.1.7 of RFC 8032, with the hash replaced. The curve and
 * the hashes are parameters.
 */
module Ed25519 {
  import opened Wrappers
  import opened Bits
  import opened Group

  /** The curve, BLAKE2b-512 and BLAKE2b-256. */
  datatype Suite<!P> = Suite(curve: Curve<P>, sum64: seq<byte> -> Bytes64, sum32: seq<byte> -> Bytes32)

  /** h[0] &= 248; h[31] &= 63; h[31] |= 64: a multiple of 8 between 2^254 and 2^255. */
  function Clamped(h: Bytes32): Bytes32 {
    h[0 := h[0] - h[0] % 8][31 := h[31] % 64 + 64]
  }

  /** The secret scalar and the prefix of the nonce. */
  function ExpandedScalar<P>(s: Suite<P>, pk: Bytes32): (nat, Bytes32) {
    var h := s.sum64(pk);
    (FromLE(Clamped(h[..32])) % L, h[32..])
  }

  function Public<P>(s: Suite<P>, pk: Bytes32): Bytes32 {
    s.curve.encode(Mul(s.curve, ExpandedScalar(s, pk).0, s.curve.base))
  }

  /** Sixty-four uniform bytes reduced modulo L. */
  function Uniform(b: Bytes64): nat {
    FromLE(b) % L
  }

  /** H is taken over R || A || message. */
  function Transcript(r: seq<byte>, pub: seq<byte>, msg: seq<byte>): seq<byte> {
    r + pub + msg
  }

  function Sign<P>(s: Suite<P>, pk: Bytes32, msg: seq<byte>): Bytes64 {
    var g := s.curve;
    var (a, prefix) := ExpandedScalar(s, pk);
    var pub := g.encode(Mul(g, a, g.base));
    var r := Uniform(s.sum64(prefix + msg));
    var rb := g.encode(Mul(g, r, g.base));
    var k := Uniform(s.sum64(Transcript(rb, pub, msg)));
    rb + ToLE((k * a + r) % L, 32)
  }

  function CanonicalScalar(b: Bytes32): Option<nat> {
    if FromLE(b) < L then Some(FromLE(b)) else None
  }

  predicate Verify<P(==)>(s: Suite<P>, pub: Bytes32, msg: seq<byte>, sig: Bytes64) {
    var g := s.curve;
    var a := g.decode(pub);
    var r := g.decode(sig[..32]);
    var scalar := CanonicalScalar(sig[32..]);
    a.Some? && r.Some? && scalar.Some? &&
    var k := Uniform(s.sum64(Transcript(sig[..32], pub, msg)));
    Mul(g, scalar.value, g.base) == g.add(r.value, Mul(g, k, a.value))
  }

  // ---------- what accepting means ----------

  /** [S]B = R + [k]A, with k the hash of the bytes of R, of A and of the message. */
  ghost predicate Equation<P>(s: Suite<P>, pub: Bytes32, msg: seq<byte>, sig: Bytes64, a: P, r: P) {
    && s.curve.decode(pub) == Some(a) && s.curve.decode(sig[..32]) == Some(r) && FromLE(sig[32..]) < L
    && Mul(s.curve, FromLE(sig[32..]), s.curve.base) ==
       s.curve.add(r, Mul(s.curve, FromLE(s.sum64(sig[..32] + pub + msg)) % L, a))
  }

  /** Two points and a scalar below L that satisfy the equation over exactly these bytes: nothing else is accepted. */
  lemma AcceptedMeans<P(!new)>(s: Suite<P>, pub: Bytes32, msg: seq<byte>, sig: Bytes64)
    ensures Verify(s, pub, msg, sig) <==> exists a, r :: Equation(s, pub, msg, sig, a, r)
  {
    hide Mul, FromLE;
    if Verify(s, pub, msg, sig) {
      assert Equation(s, pub, msg, sig, s.curve.decode(pub).value, s.curve.decode(sig[..32]).value);
    }
  }

  lemma HashOf<P>(s: Suite<P>, r: seq<byte>, pub: seq<byte>, msg: seq<byte>)
    ensures Uniform(s.sum64(Transcript(r, pub, msg))) == FromLE(s.sum64(r + pub + msg)) % L
  {
    hide FromLE;
  }

  /** The bytes hashed determine R, the key and the message. */
  lemma TranscriptBinds(r: Bytes32, pub: Bytes32, msg: seq<byte>, r': Bytes32, pub': Bytes32, msg': seq<byte>)
    ensures r + pub + msg == r' + pub' + msg' <==> r == r' && pub == pub' && msg == msg'
  {
    var x, y := r + pub + msg, r' + pub' + msg';
    assert x[..32] == r && x[32..64] == pub && x[64..] == msg;
    assert y[..32] == r' && y[32..64] == pub' && y[64..] == msg';
  }

  // ---------- the equation ----------

  /** [(k*a + r) mod L]B = [r]B + [k]([a]B). */
  lemma SigningEquation<P(!new)>(g: Curve<P>, k: nat, a: nat, r: nat)
    requires Lawful(g)
    ensures Mul(g, (k * a + r) % L, g.base) == g.add(Mul(g, r, g.base), Mul(g, k, Mul(g, a, g.base)))
  {
    hide Lawful, Mul;
    MulMod(g, k * a + r);
    MulAdds(g, k * a, r, g.base);
    MulMul(g, k, a, g.base);
    Commutes(g, Mul(g, k * a, g.base), Mul(g, r, g.base));
  }

  /**
   * For a public key made from a private one, and a nonce point [r]B, exactly one 32-byte scalar is
   * accepted: the one that signing computes.
   */
  lemma AcceptsExactlyOneScalar<P(!new)>(s: Suite<P>, pk: Bytes32, msg: seq<byte>, r: nat, scalar: Bytes32)
    requires Lawful(s.curve)
    ensures var g := s.curve;
            var rb := g.encode(Mul(g, r, g.base));
            var k := FromLE(s.sum64(rb + Public(s, pk) + msg)) % L;
            Verify(s, Public(s, pk), msg, rb + scalar) <==> scalar == ToLE((k * ExpandedScalar(s, pk).0 + r) % L, 32)
  {
    hide Lawful, Mul, FromLE, ToLE, ExpandedScalar, Uniform;
    var g := s.curve;
    var a := ExpandedScalar(s, pk).0;
    var rb := g.encode(Mul(g, r, g.base));
    var pub := Public(s, pk);
    assert (rb + scalar)[..32] == rb && (rb + scalar)[32..] == scalar;
    var k := Uniform(s.sum64(Transcript(rb, pub, msg)));
    HashOf(s, rb, pub, msg);
    hide Transcript;
    var right := (k * a + r) % L;
    Decodes(g, Mul(g, a, g.base));
    Decodes(g, Mul(g, r, g.base));
    SigningEquation(g, k, a, r);
    ScalarsFit(right);
    ToLEOfFromLE(scalar);
    if FromLE(scalar) < L {
      MulInjective(g, FromLE(scalar), right);
    }
  }

  /** Every signature verifies under the public key of the key that made it. */
  lemma SignVerifies<P(!new)>(s: Suite<P>, pk: Bytes32, msg: seq<byte>)
    requires Lawful(s.curve)
    ensures Verify(s, Public(s, pk), msg, Sign(s, pk, msg))
  {
    hide Verify, Lawful;
    var g := s.curve;
    var (a, prefix) := ExpandedScalar(s, pk);
    var r := Uniform(s.sum64(prefix + msg));
    var rb := g.encode(Mul(g, r, g.base));
    var k := Uniform(s.sum64(Transcript(rb, Public(s, pk), msg)));
    AcceptsExactlyOneScalar(s, pk, msg, r, ToLE((k * a + r) % L, 32));
  }

  /** The nonce of a signature is the hash of the key's second half and the message, so it changes with the message. */
  lemma NonceIsHashed<P(!new)>(s: Suite<P>, pk: Bytes32, msg: seq<byte>)
    requires Lawful(s.curve)
    ensures s.curve.decode(Sign(s, pk, msg)[..32]) ==
            Some(Mul(s.curve, FromLE(s.sum64(s.sum64(pk)[32..] + msg)) % L, s.curve.base))
  {
    hide Lawful, Mul, FromLE, ToLE, Clamped;
    Decodes(s.curve, Mul(s.curve, FromLE(s.sum64(s.sum64(pk)[32..] + msg)) % L, s.curve.base));
  }

  /** The public key is the clamped first half of the key's hash times the base point, not reduced. */
  lemma PublicIsClampedMultiple<P(!new)>(s: Suite<P>, pk: Bytes32)
    requires Lawful(s.curve)
    ensures s.curve.decode(Public(s, pk)) == Some(Mul(s.curve, FromLE(Clamped(s.sum64(pk)[..32])), s.curve.base))
  {
    hide Lawful, Mul, FromLE, Clamped;
    MulMod(s.curve, FromLE(Clamped(s.sum64(pk)[..32])));
    Decodes(s.curve, Mul(s.curve, FromLE(Clamped(s.sum64(pk)[..32])) % L, s.curve.base));
  }

  /**
   * A signature of one message passes for another exactly if the two hashes lead to the same scalar; in
   * particular there is no message it is not tied to.
   */
  lemma PassesForAnother<P(!new)>(s: Suite<P>, pk: Bytes32, msg: seq<byte>, other: seq<byte>)
    requires Lawful(s.curve)
    ensures var sig := Sign(s, pk, msg);
            var a := ExpandedScalar(s, pk).0;
            var r := FromLE(s.sum64(s.sum64(pk)[32..] + msg)) % L;
            Verify(s, Public(s, pk), other, sig) <==>
            (FromLE(s.sum64(sig[..32] + Public(s, pk) + msg)) % L * a + r) % L ==
            (FromLE(s.sum64(sig[..32] + Public(s, pk) + other)) % L * a + r) % L
  {
    hide Verify, Lawful, Mul, FromLE, ToLE, Clamped;
    var g := s.curve;
    var (a, prefix) := ExpandedScalar(s, pk);
    var r := FromLE(s.sum64(prefix + msg)) % L;
    var rb: Bytes32 := g.encode(Mul(g, r, g.base));
    var pub: Bytes32 := Public(s, pk);
    var mine := (FromLE(s.sum64(rb + pub + msg)) % L * a + r) % L;
    var theirs := (FromLE(s.sum64(rb + pub + other)) % L * a + r) % L;
    assert Sign(s, pk, msg) == rb + ToLE(mine, 32);
    AcceptsExactlyOneScalar(s, pk, other, r, ToLE(mine, 32));
    ScalarsFit(mine);
    ScalarsFit(theirs);
  }

  /** Only scalars below L are accepted, so with R, key and message fixed there is one signature. */
  lemma OneScalarPerNonce<P(!new)>(s: Suite<P>, pub: Bytes32, msg: seq<byte>, sig: Bytes64, other: Bytes64)
    requires Lawful(s.curve) && sig[..32] == other[..32]
    ensures Verify(s, pub, msg, sig) && Verify(s, pub, msg, other) ==> sig == other
  {
    hide Lawful, Mul, FromLE, ToLE, Uniform;
    if Verify(s, pub, msg, sig) && Verify(s, pub, msg, other) {
      MulInjective(s.curve, FromLE(sig[32..]), FromLE(other[32..]));
      ToLEOfFromLE(sig[32..]);
      ToLEOfFromLE(other[32..]);
      assert sig == sig[..32] + sig[32..] && other == other[..32] + other[32..];
    }
  }

  // ---------- the enrollment challenge ----------

  /** "nora-auth-v1". */
  const AUTH_DOMAIN: seq<byte> := [110, 111, 114, 97, 45, 97, 117, 116, 104, 45, 118, 49]

  /** The bytes of a text of single-byte characters. */
  function Ascii(text: string): seq<byte> {
    seq(|text|, i requires 0 <= i < |text| => text[i] as int % 256)
  }

  function AuthPreimage(nonce: seq<byte>, account: Bytes32): seq<byte> {
    AUTH_DOMAIN + nonce + account
  }

  function AuthChallengeDigest<P>(s: Suite<P>, nonce: seq<byte>, account: Bytes32): Bytes32 {
    s.sum32(AuthPreimage(nonce, account))
  }

  /** What is hashed determines the nonce and the account: no other challenge has the same preimage. */
  lemma PreimageBinds(nonce: seq<byte>, account: Bytes32, nonce': seq<byte>, account': Bytes32)
    ensures AuthPreimage(nonce, account) == AuthPreimage(nonce', account') <==> nonce == nonce' && account == account'
  {
    var x, y := AuthPreimage(nonce, account), AuthPreimage(nonce', account');
    assert x[|AUTH_DOMAIN|..|x| - 32] == nonce && x[|x| - 32..] == account;
    assert y[|AUTH_DOMAIN|..|y| - 32] == nonce' && y[|y| - 32..] == account';
  }

  /** An answer is accepted exactly if the equation holds over the hash of the domain, the nonce and the account. */
  lemma ChallengeMeans<P(!new)>(s: Suite<P>, account: Bytes32, nonce: seq<byte>, sig: Bytes64)
    ensures VerifyChallenge(s, account, nonce, sig) <==>
            exists a, r :: Equation(s, account, s.sum32(Ascii("nora-auth-v1") + nonce + account), sig, a, r)
  {
    assert AUTH_DOMAIN == Ascii("nora-auth-v1");
    hide Verify, Equation, Ascii;
    AcceptedMeans(s, account, AuthChallengeDigest(s, nonce, account), sig);
  }

  function SignChallenge<P>(s: Suite<P>, pk: Bytes32, nonce: seq<byte>): Bytes64 {
    Sign(s, pk, AuthChallengeDigest(s, nonce, Public(s, pk)))
  }

  predicate VerifyChallenge<P(==)>(s: Suite<P>, account: Bytes32, nonce: seq<byte>, sig: Bytes64) {
    Verify(s, account, AuthChallengeDigest(s, nonce, account), sig)
  }

  lemma ChallengeVerifies<P(!new)>(s: Suite<P>, pk: Bytes32, nonce: seq<byte>)
    requires Lawful(s.curve)
    ensures VerifyChallenge(s, Public(s, pk), nonce, SignChallenge(s, pk, nonce))
  {
    SignVerifies(s, pk, AuthChallengeDigest(s, nonce, Public(s, pk)));
  }

  // ---------- derived keys ----------

  function BigEndian32(n: nat): (b: seq<byte>)
    requires n < 0x1_0000_0000
    ensures |b| == 4
  {
    [n / 0x100_0000, n / 0x1_0000 % 256, n / 0x100 % 256, n % 256]
  }

  function KeyPreimage(seed: Bytes32, index: nat): seq<byte>
    requires index < 0x1_0000_0000
  {
    seed + BigEndian32(index)
  }

  function DeriveKey<P>(s: Suite<P>, seed: Bytes32, index: nat): Bytes32
    requires index < 0x1_0000_0000
  {
    s.sum32(KeyPreimage(seed, index))
  }

  lemma BigEndianValue(n: nat)
    requires n < 0x1_0000_0000
    ensures var b: seq<nat> := BigEndian32(n); n == 0x100_0000 * b[0] + 0x1_0000 * b[1] + 0x100 * b[2] + b[3]
  {
    assert n / 0x1_0000 == 0x100 * (n / 0x100_0000) + n / 0x1_0000 % 256;
    assert n / 0x100 == 0x100 * (n / 0x1_0000) + n / 0x100 % 256;
  }

  /** Different seeds or indices never hash the same bytes, so keys that coincide are a hash collision. */
  lemma DerivationBinds(seed: Bytes32, index: nat, seed': Bytes32, index': nat)
    requires index < 0x1_0000_0000 && index' < 0x1_0000_0000
    ensures KeyPreimage(seed, index) == KeyPreimage(seed', index') <==> seed == seed' && index == index'
  {
    var x, y := KeyPreimage(seed, index), KeyPreimage(seed', index');
    assert x[..32] == seed && y[..32] == seed';
    assert x[32..] == BigEndian32(index) && y[32..] == BigEndian32(index');
    hide BigEndian32;
    BigEndianValue(index);
    BigEndianValue(index');
  }

  /** A derived key is the hash of the seed followed by the index as four bytes, the highest first. */
  lemma DeriveKeyHashes<P>(s: Suite<P>, seed: Bytes32, index: nat, bytes: seq<byte>)
    requires index < 0x1_0000_0000 && |bytes| == 36 && bytes[..32] == seed
    requires var b: seq<nat> := bytes; index == 0x100_0000 * b[32] + 0x1_0000 * b[33] + 0x100 * b[34] + b[35]
    ensures DeriveKey(s, seed, index) == s.sum32(bytes)
  {
    BigEndianValue(index);
    assert bytes[32..] == BigEndian32(index);
    assert bytes == seed + BigEndian32(index);
  }

  /** 2^254. */
  const TOP_BIT: nat := 0x4000_0000_0000_0000_0000_0000_0000_0000_0000_0000_0000_0000_0000_0000_0000_0000

  /** Clamping clears the three lowest bits and the highest, and sets the one below the highest. */
  lemma ClampShape(h: Bytes32)
    ensures FromLE(Clamped(h)) == FromLE(h) % TOP_BIT - FromLE(h) % 8 + TOP_BIT
  {
    hide FromLE, Power;
    var c := Clamped(h);
    ThreeParts(h);
    ThreeParts(c);
    TopBit();
    assert c[1..31] == h[1..31];
    var p, m := Power(256, 31), FromLE(h[1..31]);
    assert m < Power(256, 30) by { FromLEBound(h[1..31]); }
    Remainder(h[0] + 256 * m, p, h[31]);
    LowBits(h[0], m, Power(256, 30), h[31]);
    Lifted(p, h[31] % 64);
  }

  lemma TopBit()
    ensures Power(256, 31) == 256 * Power(256, 30) && 64 * Power(256, 31) == TOP_BIT
  {
    assert Power(256, 4) == 0x1_0000_0000;
    hide Power;
    PowerAdds(256, 4, 4);
    PowerAdds(256, 8, 4);
    PowerAdds(256, 12, 12);
    PowerAdds(256, 24, 4);
    Thirty();
  }

  lemma Thirty()
    requires Power(256, 28) == 0x1_0000_0000_0000_0000_0000_0000_0000_0000_0000_0000_0000_0000_0000_0000
    ensures Power(256, 31) == 256 * Power(256, 30) && 64 * Power(256, 31) == TOP_BIT
  {
    hide Power;
    OnePower(28);
    OnePower(29);
    OnePower(30);
  }

  lemma OnePower(n: nat)
    ensures Power(256, n + 1) == 256 * Power(256, n)
  {
  }

  lemma ThreeParts(b: Bytes32)
    ensures FromLE(b) == b[0] + 256 * FromLE(b[1..31]) + Power(256, 31) * b[31]
  {
    hide FromLE, Power;
    assert b == b[..31] + [b[31]] && b[..31] == [b[0]] + b[1..31];
    FromLEAppend(b[..31], [b[31]]);
    FromLEAppend([b[0]], b[1..31]);
    OneByte(b[0]);
    OneByte(b[31]);
  }

  lemma OneByte(x: byte)
    ensures FromLE([x]) == x && Power(256, 1) == 256
  {
    assert [x][1..] == [];
  }

  /** What is left modulo 64 * p of a number whose part above p is `last`. */
  lemma Remainder(low: nat, p: nat, last: byte)
    requires low < p
    ensures (low + p * last) % (64 * p) == low + p * (last % 64)
  {
    var d, e := last / 64, last % 64;
    assert last == 64 * d + e;
    Spread(p, d, e);
    Below(p, e);
    ModUnique(low + p * last, d, 64 * p, low + p * e);
  }

  lemma Spread(p: nat, d: nat, e: nat)
    ensures p * (64 * d + e) == d * (64 * p) + p * e
  {
  }

  lemma Below(p: nat, e: nat)
    requires e < 64
    ensures p * e <= p * 63
  {
  }

  lemma LowBits(first: byte, m: nat, q: nat, last: byte)
    ensures (first + 256 * m + 256 * q * last) % 8 == first % 8
  {
    Folded(m, q, last);
    EightsDrop(first, 32 * m + 32 * (q * last));
  }

  lemma Folded(m: nat, q: nat, last: nat)
    ensures 256 * m + 256 * q * last == 8 * (32 * m + 32 * (q * last))
  {
  }

  lemma EightsDrop(x: nat, t: nat)
    ensures (x + 8 * t) % 8 == x % 8
  {
  }

  lemma Lifted(p: nat, e: nat)
    ensures p * (e + 64) == p * e + 64 * p
  {
  }
}
