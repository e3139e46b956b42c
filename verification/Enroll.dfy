/** Enrollment: which of the announced accounts a connection ends up bound to. */
module Enroll {
  import opened Wrappers
  import opened Bits
  import opened Group
  import opened Ed25519
  import opened Address
  import Bindings
  import Routing
  import RoutingTheorems

  // ---------- hexadecimal ----------

  const HEX := "0123456789abcdef"

  function HexValue(c: char): Option<nat> {
    if '0' <= c <= '9' then Some(c as int - '0' as int)
    else if 'a' <= c <= 'f' then Some(c as int - 'a' as int + 10)
    else if 'A' <= c <= 'F' then Some(c as int - 'A' as int + 10)
    else None
  }

  function EncodeHex(b: seq<byte>): (s: string)
    ensures |s| == 2 * |b|
  {
    if b == [] then "" else [HEX[b[0] / 16], HEX[b[0] % 16]] + EncodeHex(b[1..])
  }

  function DecodeHex(s: string): Option<seq<byte>> {
    if s == "" then Some([])
    else if |s| == 1 then None
    else
      match (HexValue(s[0]), HexValue(s[1]), DecodeHex(s[2..]))
      case (Some(hi), Some(lo), Some(rest)) =>
        HexBelow(s[0]);
        HexBelow(s[1]);
        Some([hi * 16 + lo] + rest)
      case _ => None
  }

  lemma HexBelow(c: char)
    ensures HexValue(c).Some? ==> HexValue(c).value < 16
  {
  }

  lemma HexDigit(n: nat)
    requires n < 16
    ensures HexValue(HEX[n]) == Some(n)
  {
  }

  lemma DecodeNothing()
    ensures DecodeHex("") == Some([])
  {
  }

  /** Decoding a digit pair in front of a text that decodes. */
  lemma DecodePair(n: nat, text: string, rest: seq<byte>)
    requires n < 256 && DecodeHex(text) == Some(rest)
    ensures DecodeHex([HEX[n / 16], HEX[n % 16]] + text) == Some([n] + rest)
  {
    var s := [HEX[n / 16], HEX[n % 16]] + text;
    assert HexValue(s[0]) == Some(n / 16) && HexValue(s[1]) == Some(n % 16) by {
      hide DecodeHex, HexValue;
      HexDigit(n / 16);
      HexDigit(n % 16);
    }
    assert s[2..] == text;
    hide HexValue;
  }

  lemma {:induction false} DecodeOfEncodeHex(b: seq<byte>)
    ensures DecodeHex(EncodeHex(b)) == Some(b)
  {
    hide DecodeHex, HexValue;
    if b == [] {
      DecodeNothing();
    } else {
      DecodeOfEncodeHex(b[1..]);
      DecodePair(b[0], EncodeHex(b[1..]), b[1..]);
      assert b == [b[0]] + b[1..];
    }
  }

  /** The text with its capital digits made small. */
  function LowerHex(s: string): string {
    seq(|s|, i requires 0 <= i < |s| => if 'A' <= s[i] <= 'F' then (s[i] as int + 32) as char else s[i])
  }

  lemma DigitExactly(c: char, n: nat)
    requires n < 16
    ensures HexValue(c) == Some(n) <==> LowerHex([c])[0] == HEX[n]
  {
  }

  lemma PairExactly(s: string, n: nat)
    requires |s| >= 2 && n < 256
    ensures HexValue(s[0]) == Some(n / 16) && HexValue(s[1]) == Some(n % 16) <==> LowerHex(s)[..2] == [HEX[n / 16], HEX[n % 16]]
  {
    DigitExactly(s[0], n / 16);
    DigitExactly(s[1], n % 16);
    assert LowerHex(s)[0] == LowerHex([s[0]])[0] && LowerHex(s)[1] == LowerHex([s[1]])[0];
    hide HexValue;
    var low := LowerHex(s);
    assert low[..2] == [low[0], low[1]];
  }

  lemma PairStep(s: string, b: seq<byte>)
    requires |s| >= 2 && b != []
    ensures DecodeHex(s) == Some(b) <==>
            HexValue(s[0]) == Some(b[0] / 16) && HexValue(s[1]) == Some(b[0] % 16) && DecodeHex(s[2..]) == Some(b[1..])
  {
    HexBelow(s[0]);
    HexBelow(s[1]);
    hide HexValue;
    assert b == [b[0]] + b[1..];
    if DecodeHex(s) == Some(b) {
      var hi, lo := HexValue(s[0]).value, HexValue(s[1]).value;
      assert (hi * 16 + lo) / 16 == hi && (hi * 16 + lo) % 16 == lo;
      assert b[0] == hi * 16 + lo && DecodeHex(s[2..]).value == b[1..];
    }
  }

  /** A text decodes to exactly the bytes it writes out in digits of either case, two a byte. */
  lemma {:induction false} DecodesExactly(s: string, b: seq<byte>)
    ensures DecodeHex(s) == Some(b) <==> LowerHex(s) == EncodeHex(b)
  {
    if b == [] || |s| < 2 {
      EndsExactly(s, b);
    } else {
      hide DecodeHex, HexValue;
      DecodesExactly(s[2..], b[1..]);
      PairStep(s, b);
      PairExactly(s, b[0]);
      var low, text := LowerHex(s), EncodeHex(b);
      assert low == low[..2] + low[2..] && low[2..] == LowerHex(s[2..]);
      assert text == text[..2] + text[2..] && text[..2] == [HEX[b[0] / 16], HEX[b[0] % 16]] && text[2..] == EncodeHex(b[1..]);
    }
  }

  lemma EndsExactly(s: string, b: seq<byte>)
    requires b == [] || |s| < 2
    ensures DecodeHex(s) == Some(b) <==> LowerHex(s) == EncodeHex(b)
  {
    assert |LowerHex(s)| == |s|;
  }

  // ---------- one account ----------

  /** The hashes and the curve an enrollment relies on. */
  datatype Env<!P> = Env(suite: Suite<P>, sum5: seq<byte> -> Digest5)

  /** Whether the hex signature proves control of the address over this nonce. */
  predicate VerifyAccountSig<P(==)>(env: Env<P>, addr: string, nonce: seq<byte>, sigHex: string) {
    var pub := Parsed(addr, env.sum5);
    var raw := DecodeHex(sigHex);
    pub.Ok? && raw.Some? && |raw.value| == 64 && VerifyChallenge(env.suite, pub.value, nonce, raw.value)
  }

  function AccountOf<P>(env: Env<P>, pk: Bytes32): string {
    AddressOf(Public(env.suite, pk), env.sum5)
  }

  /** The hex signature an honest device sends for the account of `pk`. */
  function HonestAnswer<P>(env: Env<P>, pk: Bytes32, nonce: seq<byte>): string {
    EncodeHex(SignChallenge(env.suite, pk, nonce))
  }

  /**
   * The address is a spelling of a key, the text writes out 64 bytes R and S in hex, and these satisfy
   * [S]B = R + [k]A over the hash of the domain, this nonce and this key.
   */
  ghost predicate SignedFor<P(!new)>(env: Env<P>, addr: string, nonce: seq<byte>, sigHex: string) {
    exists pub: Key, sig: Bytes64, a, r ::
      IsSpelling(addr, pub, env.sum5) && LowerHex(sigHex) == EncodeHex(sig) &&
      Equation(env.suite, pub, env.suite.sum32(Ascii("nora-auth-v1") + nonce + pub), sig, a, r)
  }

  /** The check passes exactly those. */
  lemma CheckMeans<P(!new)>(env: Env<P>, addr: string, nonce: seq<byte>, sigHex: string)
    ensures VerifyAccountSig(env, addr, nonce, sigHex) <==> SignedFor(env, addr, nonce, sigHex)
  {
    hide Parsed, IsSpelling, DecodeHex, EncodeHex, LowerHex, VerifyChallenge, Equation, Ascii;
    if VerifyAccountSig(env, addr, nonce, sigHex) {
      var pub, sig := Parsed(addr, env.sum5).value, DecodeHex(sigHex).value;
      Address.ParsesExactly(addr, pub, env.sum5);
      DecodesExactly(sigHex, sig);
      ChallengeMeans(env.suite, pub, nonce, sig);
    }
    if pub: Key, sig: Bytes64, a, r :|
      IsSpelling(addr, pub, env.sum5) && LowerHex(sigHex) == EncodeHex(sig) &&
      Equation(env.suite, pub, env.suite.sum32(Ascii("nora-auth-v1") + nonce + pub), sig, a, r) {
      Address.ParsesExactly(addr, pub, env.sum5);
      DecodesExactly(sigHex, sig);
      ChallengeMeans(env.suite, pub, nonce, sig);
    }
  }

  /** Under a key's own address, and for any nonce point, exactly one scalar enrolls it. */
  lemma OneScalarEnrolls<P(!new)>(env: Env<P>, pk: Bytes32, nonce: seq<byte>, r: nat, scalar: Bytes32, sigHex: string)
    requires Lawful(env.suite.curve)
    requires LowerHex(sigHex) == EncodeHex(env.suite.curve.encode(Mul(env.suite.curve, r, env.suite.curve.base)) + scalar)
    ensures var s := env.suite; var pub := Public(s, pk); var addr := AccountOf(env, pk);
            var rb := s.curve.encode(Mul(s.curve, r, s.curve.base));
            var k := FromLE(s.sum64(rb + pub + s.sum32(Ascii("nora-auth-v1") + nonce + pub))) % L;
            addr in Proven(env, [addr], map[addr := sigHex], nonce) <==> scalar == ToLE((k * ExpandedScalar(s, pk).0 + r) % L, 32)
  {
    hide Lawful, AddressOf, Parsed, Public, Verify, ExpandedScalar, ToLE, FromLE, Mul, DecodeHex, EncodeHex, LowerHex;
    var s := env.suite;
    var pub, addr := Public(s, pk), AccountOf(env, pk);
    var rb: Bytes32 := s.curve.encode(Mul(s.curve, r, s.curve.base));
    assert AUTH_DOMAIN == Ascii("nora-auth-v1");
    hide Ascii;
    ParseOfAddress(pub, env.sum5);
    DecodesExactly(sigHex, rb + scalar);
    AcceptsExactlyOneScalar(s, pk, AuthChallengeDigest(s, nonce, pub), r, scalar);
    ProvenExactly(env, [addr], map[addr := sigHex], nonce, addr);
  }

  lemma HonestAnswerVerifies<P(!new)>(env: Env<P>, pk: Bytes32, nonce: seq<byte>)
    requires Lawful(env.suite.curve)
    ensures VerifyAccountSig(env, AccountOf(env, pk), nonce, HonestAnswer(env, pk, nonce))
  {
    hide Lawful, AddressOf, Parsed, Public, SignChallenge, VerifyChallenge;
    ParseOfAddress(Public(env.suite, pk), env.sum5);
    DecodeOfEncodeHex(SignChallenge(env.suite, pk, nonce));
    ChallengeVerifies(env.suite, pk, nonce);
  }

  // ---------- the exchange ----------

  predicate Proves<P(==)>(env: Env<P>, signatures: map<string, string>, nonce: seq<byte>, addr: string) {
    addr in signatures && VerifyAccountSig(env, addr, nonce, signatures[addr])
  }

  /** The announced accounts that proved control, in the order announced. */
  function Proven<P(==)>(env: Env<P>, announced: seq<string>, signatures: map<string, string>, nonce: seq<byte>): seq<string> {
    if announced == [] then []
    else
      var n := |announced| - 1;
      Proven(env, announced[..n], signatures, nonce) +
      if Proves(env, signatures, nonce, announced[n]) then [announced[n]] else []
  }

  datatype Hello = Hello(deviceID: string, accounts: seq<string>)

  datatype EnrollError = ExpectedHello | NoAccounts | ExpectedAuth | NoneProven

  /** `hello` and `auth` are None when the frame read was not of the expected type. */
  method DoEnroll<P(==, !new)>(env: Env<P>, serial: nat, hello: Option<Hello>, nonce: seq<byte>, auth: Option<map<string, string>>)
      returns (r: Result<Bindings.AgentConn, EnrollError>)
    ensures r.Ok? <==> hello.Some? && auth.Some? && Proven(env, hello.value.accounts, auth.value, nonce) != []
    ensures r.Ok? ==> r.value == Bindings.AgentConn(serial, hello.value.deviceID, Proven(env, hello.value.accounts, auth.value, nonce))
    ensures r.Ok? ==> r.value.accounts != [] && forall addr :: addr in r.value.accounts ==>
              addr in hello.value.accounts && addr in auth.value && SignedFor(env, addr, nonce, auth.value[addr])
    ensures r.Err? ==> r.error == if hello.None? then ExpectedHello else if hello.value.accounts == [] then NoAccounts
                                  else if auth.None? then ExpectedAuth else NoneProven
  {
    if hello.None? {
      return Err(ExpectedHello);
    }
    var announced := hello.value.accounts;
    if |announced| == 0 {
      return Err(NoAccounts);
    }
    if auth.None? {
      return Err(ExpectedAuth);
    }
    var signatures := auth.value;
    var proven := [];
    for i := 0 to |announced|
      invariant proven == Proven(env, announced[..i], signatures, nonce)
    {
      var addr := announced[i];
      assert announced[..i + 1][..i] == announced[..i];
      if addr in signatures && VerifyAccountSig(env, addr, nonce, signatures[addr]) {
        proven := proven + [addr];
      }
    }
    assert announced[..|announced|] == announced;
    if |proven| == 0 {
      return Err(NoneProven);
    }
    forall addr
      ensures addr in proven ==> addr in announced && addr in signatures && SignedFor(env, addr, nonce, signatures[addr])
    {
      ProvenIsSound(env, announced, signatures, nonce, addr);
    }
    r := Ok(Bindings.AgentConn(serial, hello.value.deviceID, proven));
  }

  lemma {:induction false} ProvenExactly<P>(env: Env<P>, announced: seq<string>, signatures: map<string, string>, nonce: seq<byte>, addr: string)
    ensures addr in Proven(env, announced, signatures, nonce) <==> addr in announced && Proves(env, signatures, nonce, addr)
  {
    if announced != [] {
      hide Proves;
      var n := |announced| - 1;
      ProvenExactly(env, announced[..n], signatures, nonce, addr);
      assert announced == announced[..n] + [announced[n]];
    }
  }

  /** An account is proven exactly if it was announced and its answer is a signature over this nonce by its key. */
  lemma ProvenIsSound<P(!new)>(env: Env<P>, announced: seq<string>, signatures: map<string, string>, nonce: seq<byte>, addr: string)
    ensures addr in Proven(env, announced, signatures, nonce) <==>
            addr in announced && addr in signatures && SignedFor(env, addr, nonce, signatures[addr])
  {
    hide VerifyAccountSig, SignedFor, Proven;
    ProvenExactly(env, announced, signatures, nonce, addr);
    if addr in signatures {
      CheckMeans(env, addr, nonce, signatures[addr]);
    }
  }

  /** If every announced address is a key's own and carries that key's honest answer, all are proven. */
  lemma {:induction false} HonestEnrollmentIsComplete<P(!new)>(
    env: Env<P>, pks: seq<Bytes32>, announced: seq<string>, signatures: map<string, string>, nonce: seq<byte>)
    requires Lawful(env.suite.curve) && |announced| == |pks|
    requires forall i :: 0 <= i < |pks| ==> announced[i] == AccountOf(env, pks[i])
    requires forall i :: 0 <= i < |pks| ==>
               announced[i] in signatures && signatures[announced[i]] == HonestAnswer(env, pks[i], nonce)
    ensures Proven(env, announced, signatures, nonce) == announced
  {
    hide Lawful, AccountOf, HonestAnswer, VerifyAccountSig;
    if announced != [] {
      var n := |announced| - 1;
      HonestEnrollmentIsComplete(env, pks[..n], announced[..n], signatures, nonce);
      HonestAnswerVerifies(env, pks[n], nonce);
      assert announced == announced[..n] + [announced[n]];
    }
  }

  // ---------- enrollment meets routing ----------

  /**
   * In any run of the hub, a connection that was ever sent a call's question, and that came out of
   * an enrollment, signed that enrollment's nonce with a key whose address is the call's account.
   */
  lemma QuestionsReachProvenDevicesOnly<P(!new)>(
    env: Env<P>, acts: seq<Routing.Action>, a: Bindings.AgentConn, m: Routing.Msg,
    announced: seq<string>, signatures: map<string, string>, nonce: seq<byte>)
    requires Routing.Legal(acts) && m in Routing.LogOf(Routing.After(acts).logs, a) && (m.Request? || m.Query?)
    requires a.accounts == Proven(env, announced, signatures, nonce)
    ensures exists c :: 0 <= c < |Routing.After(acts).calls| &&
              var call := Routing.After(acts).calls[c];
              && m == Routing.Question(call) && call.account in announced && call.account in signatures
              && SignedFor(env, call.account, nonce, signatures[call.account])
  {
    hide SignedFor, Proven;
    RoutingTheorems.NoAnswerBeforeItsWaiter(acts, a, m);
    var c :| 0 <= c < |Routing.After(acts).calls| &&
      var call := Routing.After(acts).calls[c];
      m == Routing.Question(call) && call.account in a.accounts;
    ProvenIsSound(env, announced, signatures, nonce, Routing.After(acts).calls[c].account);
  }
}
