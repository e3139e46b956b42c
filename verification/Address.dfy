/**
 * Account addresses: printing, parsing, and exactly which strings parse as a key.
 *
 * BLAKE2b with a five-byte output is a parameter: any function from bytes to five bytes.
 */
module Address {
  import opened Wrappers
  import opened Bits
  import opened Base32
  import opened Sequences

  type Key = k: seq<byte> | |k| == 32 witness Zeros32()

  type Digest5 = d: seq<byte> | |d| == 5 witness [0, 0, 0, 0, 0]

  function Zeros32(): (k: seq<byte>)
    ensures |k| == 32
  {
    seq(32, _ => 0)
  }

  const NANO := "nano_"
  const XRB := "xrb_"

  datatype AddressError = BadPrefix | BadLength | BadKey(e: DecodeError) | BadChecksumText(e: DecodeError) | WrongChecksum

  // ---------- what the printer and the parser compute ----------

  function ChecksumText(pk: Key, blake: seq<byte> -> Digest5): string {
    Encoded(Reverse(blake(pk)), 0)
  }

  function AddressOf(pk: Key, blake: seq<byte> -> Digest5): string {
    NANO + Encoded(pk, 4) + ChecksumText(pk, blake)
  }

  function Stripped(addr: string): Option<string> {
    if NANO <= addr then Some(addr[5..]) else if XRB <= addr then Some(addr[4..]) else None
  }

  function Parsed(addr: string, blake: seq<byte> -> Digest5): Result<Key, AddressError> {
    match Stripped(addr)
    case None => Err(BadPrefix)
    case Some(text) =>
      if |text| != 60 then Err(BadLength)
      else
        match Decoded(text[..52], 4)
        case Err(e) => Err(BadKey(e))
        case Ok(pub) =>
          DecodeIsReduction(text[..52], 4);
          match Decoded(text[52..], 0)
          case Err(e) => Err(BadChecksumText(e))
          case Ok(sum) => if Reverse(sum) == blake(pub) then Ok(pub) else Err(WrongChecksum)
  }

  method PrintAddress(pk: Key, blake: seq<byte> -> Digest5) returns (addr: string)
    ensures addr == AddressOf(pk, blake)
  {
    var account := EncodeBase32(pk, 4);
    var digest := blake(pk);
    var cs := new byte[5](i requires 0 <= i < 5 => digest[i]);
    assert cs[..] == digest;
    ReverseBytes(cs);
    var checksum := EncodeBase32(cs[..], 0);
    addr := NANO + account + checksum;
  }

  method ParseAddress(addr: string, blake: seq<byte> -> Digest5) returns (r: Result<Key, AddressError>)
    ensures r == Parsed(addr, blake)
  {
    hide Decoded, Values, Digits, Pow2;
    var text;
    if NANO <= addr {
      text := addr[5..];
    } else if XRB <= addr {
      text := addr[4..];
    } else {
      return Err(BadPrefix);
    }
    if |text| != 60 {
      return Err(BadLength);
    }
    var pub := DecodeBase32(text[..52], 4);
    if pub.Err? {
      return Err(BadKey(pub.error));
    }
    DecodeIsReduction(text[..52], 4); // so the source's check that 32 bytes came out never fires
    var got := DecodeBase32(text[52..], 0);
    if got.Err? {
      return Err(BadChecksumText(got.error));
    }
    var sum := got.value;
    var reversed := new byte[|sum|](i requires 0 <= i < |sum| => sum[i]);
    assert reversed[..] == sum;
    ReverseBytes(reversed);
    var same := BytesEqual(reversed[..], blake(pub.value));
    if !same {
      return Err(WrongChecksum);
    }
    r := Ok(pub.value);
  }

  // ---------- the pad bits ----------

  /** The first five bits of a digit string, and the rest. */
  lemma ExpandHead(ds: seq<nat>)
    requires ds != []
    ensures Expand(ds, 5) == Low(ds[0], 5) + Expand(ds[1..], 5)
  {
    assert ds == [ds[0]] + ds[1..];
    ExpandAppend([ds[0]], ds[1..], 5);
    ExpandSnoc([], ds[0], 5);
    assert Expand([], 5) == [] && [] + [ds[0]] == [ds[0]];
  }

  lemma LowLast(x: nat)
    ensures Low(x, 5)[4..] == [x % 2]
  {
    assert Low(x, 5) == Low(x / 2, 4) + [x % 2];
  }

  lemma AfterPad(ds: seq<nat>)
    requires ds != []
    ensures |Expand(ds, 5)| >= 4 && Expand(ds, 5)[4..] == [ds[0] % 2] + Expand(ds[1..], 5)
  {
    hide Expand, Low;
    ExpandHead(ds);
    LowLast(ds[0]);
  }

  lemma ExpandInjective(ds: seq<nat>, es: seq<nat>)
    requires AllBelow(ds, 32) && AllBelow(es, 32) && Expand(ds, 5) == Expand(es, 5)
    ensures ds == es
  {
    assert Pow2(5) == 32;
    RegroupOfExpand(ds, 5);
    RegroupOfExpand(es, 5);
  }

  /** Two digit strings agree after their first four bits iff they differ in those bits only. */
  lemma SameAfterPad(ds: seq<nat>, es: seq<nat>)
    requires ds != [] && |ds| == |es| && AllBelow(ds, 32) && AllBelow(es, 32)
    ensures |Expand(ds, 5)| >= 4 && |Expand(es, 5)| >= 4
    ensures Expand(ds, 5)[4..] == Expand(es, 5)[4..] <==> ds[0] % 2 == es[0] % 2 && ds[1..] == es[1..]
  {
    hide Expand;
    AfterPad(ds);
    AfterPad(es);
    var a, b := Expand(ds, 5)[4..], Expand(es, 5)[4..];
    if a == b {
      assert ds[0] % 2 == a[0] == b[0] == es[0] % 2;
      assert Expand(ds[1..], 5) == a[1..] == b[1..] == Expand(es[1..], 5);
      ExpandInjective(ds[1..], es[1..]);
    }
  }

  /** The key part of an address decodes to `pk` iff its bits after the pad are those of `pk`. */
  lemma DecodesTo(body: string, pk: Key)
    requires |body| == 52
    ensures Decoded(body, 4) == Ok(pk) <==>
            Spelled(body) && |Expand(Values(body), 5)| == 260 && Expand(Values(body), 5)[4..] == Expand(pk, 8)
  {
    hide Expand, Regroup, Values;
    assert Regroup(Expand(pk, 8), 8) == pk by {
      assert Pow2(8) == 256;
      RegroupOfExpand(pk, 8);
    }
    if Decoded(body, 4).Ok? {
      DecodedBits(body, 4);
    }
    if Spelled(body) {
      ExpandLength(Values(body), 5);
    }
  }

  /** The canonical digits of a key: 52 of them, the first at most 1. */
  lemma CanonicalDigits(pk: Key)
    ensures |EncodedDigits(pk, 4)| == 52 && AllBelow(EncodedDigits(pk, 4), 32)
    ensures EncodedDigits(pk, 4)[0] < 2
    ensures Expand(EncodedDigits(pk, 4), 5)[4..] == Expand(pk, 8)
    ensures |Expand(pk, 8)| == 256
  {
    hide Expand, Regroup, Low;
    var ds := EncodedDigits(pk, 4);
    EncodeIsBaseConversion(pk, 4);
    EncodedBelow(pk, 4);
    EncodedBits(pk, 4);
    ExpandHead(ds);
    ExpandLength(pk, 8);
    assert Padded(pk, 4)[..4] == Zeros(4);
    assert Low(ds[0], 5)[..4] == Padded(pk, 4)[..4];
    TopBitsZero(ds[0]);
  }

  lemma TopBitsZero(d: nat)
    requires d < 32 && Low(d, 5)[..4] == Zeros(4)
    ensures d < 2
  {
    assert Low(d, 5) == Low(d / 2, 4) + [d % 2];
    assert Low(d / 2, 4) == Zeros(4);
    assert Pow2(4) == 16;
    ValueOfLow(d / 2, 4);
    ValueOfZeros(4);
  }

  // ---------- the spellings of a key ----------

  /** The canonical text with pad bits `t` in the first character. */
  function Respelled(pk: Key, t: nat, blake: seq<byte> -> Digest5): string
    requires t < 16
  {
    CanonicalDigits(pk);
    var ds := EncodedDigits(pk, 4);
    Spell(ds[0 := ds[0] + 2 * t]) + ChecksumText(pk, blake)
  }

  /** Either prefix, and any of the sixteen values of the four discarded bits. */
  ghost predicate IsSpelling(addr: string, pk: Key, blake: seq<byte> -> Digest5) {
    exists prefix, t :: (prefix == "nano_" || prefix == "xrb_") && 0 <= t < 16 && addr == prefix + Respelled(pk, t, blake)
  }

  lemma KeyPart(body: string, pk: Key)
    requires |body| == 52
    ensures Decoded(body, 4) == Ok(pk) <==>
            exists t :: 0 <= t < 16 && |EncodedDigits(pk, 4)| == 52 && AllBelow(EncodedDigits(pk, 4), 2 * 16) &&
              EncodedDigits(pk, 4)[0] < 2 &&
              body == Spell(EncodedDigits(pk, 4)[0 := EncodedDigits(pk, 4)[0] + 2 * t])
  {
    hide Expand, Regroup, EncodedDigits, Values, Spell;
    var ds := EncodedDigits(pk, 4);
    CanonicalDigits(pk);
    DecodesTo(body, pk);
    if Decoded(body, 4) == Ok(pk) {
      SpellValues(body);
      var es := Values(body);
      SameAfterPad(es, ds);
      var t := (es[0] - ds[0]) / 2;
      assert es[0] == ds[0] + 2 * t && 0 <= t < 16;
      assert es == [es[0]] + es[1..] == ds[0 := ds[0] + 2 * t];
    }
    if t :| 0 <= t < 16 && body == Spell(ds[0 := ds[0] + 2 * t]) {
      var es := ds[0 := ds[0] + 2 * t];
      ValuesSpell(es);
      SameAfterPad(es, ds);
      assert es[1..] == ds[1..];
      ExpandLength(es, 5);
      assert |Expand(es, 5)| == 260;
    }
  }

  lemma ChecksumPart(text: string, pk: Key, blake: seq<byte> -> Digest5)
    requires |text| == 8
    ensures Decoded(text, 0).Ok? && Reverse(Decoded(text, 0).value) == blake(pk) <==> text == ChecksumText(pk, blake)
  {
    hide Decoded, Encoded, Reverse;
    if Decoded(text, 0).Ok? {
      EncodeOfDecode(text);
      ReverseTwice(Decoded(text, 0).value);
    }
    DecodeOfEncode(Reverse(blake(pk)), 0);
    ReverseTwice(blake(pk));
  }

  lemma TextParts(text: string, pk: Key, blake: seq<byte> -> Digest5)
    requires |text| == 60
    ensures Decoded(text[..52], 4) == Ok(pk) && Decoded(text[52..], 0).Ok? && Reverse(Decoded(text[52..], 0).value) == blake(pk)
            <==> exists t :: 0 <= t < 16 && text == Respelled(pk, t, blake)
  {
    hide Decoded, Reverse, Spell, EncodedDigits, ChecksumText;
    KeyPart(text[..52], pk);
    ChecksumPart(text[52..], pk, blake);
    CanonicalDigits(pk);
    var ds := EncodedDigits(pk, 4);
    if t :| 0 <= t < 16 && text == Respelled(pk, t, blake) {
      var body := Spell(ds[0 := ds[0] + 2 * t]);
      assert text[..52] == body && text[52..] == ChecksumText(pk, blake);
    }
    if t :| 0 <= t < 16 && text[..52] == Spell(ds[0 := ds[0] + 2 * t]) && text[52..] == ChecksumText(pk, blake) {
      assert text == text[..52] + text[52..] == Respelled(pk, t, blake);
    }
  }

  lemma SpellingLength(pk: Key, t: nat, blake: seq<byte> -> Digest5)
    requires t < 16
    ensures |Respelled(pk, t, blake)| == 60
  {
    hide Encoded, EncodedDigits, Expand, Digits, Pow2, Values, Spelled;
    CanonicalDigits(pk);
    EncodeIsBaseConversion(Reverse(blake(pk)), 0);
    EncodedSpelling(Reverse(blake(pk)), 0);
  }

  /** A string parses as `pk` exactly when it is one of the spellings of `pk`. */
  lemma ParsesExactly(addr: string, pk: Key, blake: seq<byte> -> Digest5)
    ensures Parsed(addr, blake) == Ok(pk) <==> IsSpelling(addr, pk, blake)
  {
    hide Decoded, Reverse, Respelled;
    if Stripped(addr).Some? && |Stripped(addr).value| == 60 {
      TextParts(Stripped(addr).value, pk, blake);
    }
    if Parsed(addr, blake) == Ok(pk) {
      var text := Stripped(addr).value;
      var t :| 0 <= t < 16 && text == Respelled(pk, t, blake);
      var prefix := if NANO <= addr then NANO else XRB;
      assert addr == prefix + text;
    }
    if IsSpelling(addr, pk, blake) {
      var prefix, t :| (prefix == "nano_" || prefix == "xrb_") && 0 <= t < 16 && addr == prefix + Respelled(pk, t, blake);
      SpellingLength(pk, t, blake);
      PrefixStrips(prefix, Respelled(pk, t, blake));
    }
  }

  lemma PrefixStrips(prefix: string, text: string)
    requires prefix == NANO || prefix == XRB
    ensures Stripped(prefix + text) == Some(text)
  {
    if prefix == XRB {
      assert (XRB + text)[0] == 'x';
      assert !(NANO <= XRB + text);
    }
    assert (prefix + text)[|prefix|..] == text;
  }

  /** The printed address is the spelling with no pad bits, and parses back. */
  lemma ParseOfAddress(pk: Key, blake: seq<byte> -> Digest5)
    ensures AddressOf(pk, blake) == "nano_" + Respelled(pk, 0, blake)
    ensures Parsed(AddressOf(pk, blake), blake) == Ok(pk)
  {
    hide EncodedDigits, Expand, ChecksumText, Parsed;
    CanonicalDigits(pk);
    var ds := EncodedDigits(pk, 4);
    assert ds[0 := ds[0] + 2 * 0] == ds;
    EncodedBelow(pk, 4);
    assert AddressOf(pk, blake) == NANO + Respelled(pk, 0, blake);
    assert IsSpelling(AddressOf(pk, blake), pk, blake);
    ParsesExactly(AddressOf(pk, blake), pk, blake);
  }

  // ---------- there are thirty-two of them ----------

  function SpellingNo(pk: Key, n: nat, blake: seq<byte> -> Digest5): string
    requires n < 32
  {
    if n < 16 then NANO + Respelled(pk, n, blake) else XRB + Respelled(pk, n - 16, blake)
  }

  ghost function Spellings(pk: Key, blake: seq<byte> -> Digest5): set<string> {
    set n | 0 <= n < 32 :: SpellingNo(pk, n, blake)
  }

  lemma RespelledDiffer(pk: Key, t: nat, u: nat, blake: seq<byte> -> Digest5)
    requires t < 16 && u < 16 && Respelled(pk, t, blake) == Respelled(pk, u, blake)
    ensures t == u
  {
    hide EncodedDigits, Expand, ChecksumText;
    CanonicalDigits(pk);
    var ds := EncodedDigits(pk, 4);
    assert Respelled(pk, t, blake)[0] == ALPHABET[ds[0] + 2 * t];
    assert Respelled(pk, u, blake)[0] == ALPHABET[ds[0] + 2 * u];
    CharValueExact(ALPHABET[ds[0] + 2 * t]);
  }

  lemma SpellingsDiffer(pk: Key, m: nat, n: nat, blake: seq<byte> -> Digest5)
    requires m < n < 32
    ensures SpellingNo(pk, m, blake) != SpellingNo(pk, n, blake)
  {
    hide Respelled;
    var a, b := SpellingNo(pk, m, blake), SpellingNo(pk, n, blake);
    if a == b {
      var t, u := if m < 16 then m else m - 16, if n < 16 then n else n - 16;
      assert a[0] == (if m < 16 then 'n' else 'x') && b[0] == (if n < 16 then 'n' else 'x');
      assert Respelled(pk, t, blake) == a[if m < 16 then 5 else 4..] == b[if n < 16 then 5 else 4..] == Respelled(pk, u, blake);
      RespelledDiffer(pk, t, u, blake);
    }
  }

  lemma {:induction false} SpellingCount(pk: Key, n: nat, blake: seq<byte> -> Digest5)
    requires n <= 32
    ensures |set k | 0 <= k < n :: SpellingNo(pk, k, blake)| == n
  {
    hide SpellingNo;
    if n > 0 {
      SpellingCount(pk, n - 1, blake);
      var before := set k | 0 <= k < n - 1 :: SpellingNo(pk, k, blake);
      var last := SpellingNo(pk, n - 1, blake);
      if last in before {
        var k :| 0 <= k < n - 1 && SpellingNo(pk, k, blake) == last;
        SpellingsDiffer(pk, k, n - 1, blake);
      }
      assert (set k | 0 <= k < n :: SpellingNo(pk, k, blake)) == before + {last};
    }
  }

  lemma Numbered(addr: string, pk: Key, blake: seq<byte> -> Digest5)
    ensures IsSpelling(addr, pk, blake) <==> addr in Spellings(pk, blake)
  {
    hide Respelled;
    if IsSpelling(addr, pk, blake) {
      var prefix, t :| (prefix == "nano_" || prefix == "xrb_") && 0 <= t < 16 && addr == prefix + Respelled(pk, t, blake);
      var n := if prefix == NANO then t else t + 16;
      assert addr == SpellingNo(pk, n, blake);
    }
  }

  /** Exactly thirty-two strings parse as a given key. */
  lemma ThirtyTwoSpellings(pk: Key, blake: seq<byte> -> Digest5)
    ensures |Spellings(pk, blake)| == 32
    ensures forall addr :: addr in Spellings(pk, blake) <==> Parsed(addr, blake) == Ok(pk)
  {
    SpellingCount(pk, 32, blake);
    hide Parsed, IsSpelling, SpellingNo;
    forall addr
      ensures addr in Spellings(pk, blake) <==> Parsed(addr, blake) == Ok(pk)
    {
      ParsesExactly(addr, pk, blake);
      Numbered(addr, pk, blake);
    }
  }
}
