/**
 * Nano base32: the alphabet, the two bit loops, and what they compute.
 *
 * The loops are proved against Encoded and Decoded, which speak of bit strings cut into groups; the
 * theorems compare those with positional notation in bases 32 and 256. A Go string is a sequence of
 * bytes; here a char stands for one byte.
 */
module Base32 {
  import opened Wrappers
  import opened Bits
  import opened Sequences

  const ALPHABET := "13456789abcdefghijkmnopqrstuwxyz"

  lemma AlphabetIncreases(i: nat, j: nat)
    requires i < j < 32
    ensures ALPHABET[i] < ALPHABET[j]
  {
  }

  /** The digits and small letters but 0, 2, l and v. */
  lemma AlphabetOmits(c: char)
    ensures |ALPHABET| == 32
    ensures c in ALPHABET <==> ('0' <= c <= '9' || 'a' <= c <= 'z') && c != '0' && c != '2' && c != 'l' && c != 'v'
  {
    if ('0' <= c <= '9' || 'a' <= c <= 'z') && c != '0' && c != '2' && c != 'l' && c != 'v' {
      var v: nat := if c <= '1' then 0 else if c <= '9' then c as int - '2' as int
                    else if c < 'l' then c as int - 'a' as int + 8 else if c < 'v' then c as int - 'a' as int + 7 else c as int - 'a' as int + 6;
      assert ALPHABET[v] == c;
    }
  }

  /** The position of `c` in the alphabet: a non-negative entry of the reverse table. */
  function CharValue(c: char): Option<nat> {
    Position(ALPHABET, c)
  }

  function Position(s: string, c: char): Option<nat> {
    if s == "" then None
    else if s[|s| - 1] == c then Some(|s| - 1)
    else Position(s[..|s| - 1], c)
  }

  lemma {:induction false} PositionExact(s: string, c: char)
    ensures Position(s, c).Some? <==> c in s
    ensures Position(s, c).Some? ==> Position(s, c).value < |s| && s[Position(s, c).value] == c
  {
    if s != "" {
      PositionExact(s[..|s| - 1], c);
      assert s == s[..|s| - 1] + [s[|s| - 1]];
    }
  }

  lemma CharValueExact(c: char)
    ensures CharValue(c).Some? <==> c in ALPHABET
    ensures CharValue(c).Some? ==> CharValue(c).value < 32 && ALPHABET[CharValue(c).value] == c
    ensures forall v :: 0 <= v < 32 && ALPHABET[v] == c ==> CharValue(c) == Some(v)
  {
    PositionExact(ALPHABET, c);
    forall v | 0 <= v < 32 && ALPHABET[v] == c
      ensures CharValue(c) == Some(v)
    {
      var p := CharValue(c).value;
      if p < v {
        AlphabetIncreases(p, v);
      } else if v < p {
        AlphabetIncreases(v, p);
      }
    }
  }

  // ---------- strings and digits ----------

  function Spell(ds: seq<nat>): (s: string)
    requires AllBelow(ds, 32)
    ensures |s| == |ds|
  {
    seq(|ds|, i requires 0 <= i < |ds| => ALPHABET[ds[i]])
  }

  predicate Spelled(s: string) {
    forall i :: 0 <= i < |s| ==> CharValue(s[i]).Some?
  }

  function Values(s: string): (ds: seq<nat>)
    requires Spelled(s)
    ensures |ds| == |s|
  {
    seq(|s|, i requires 0 <= i < |s| => CharValue(s[i]).value)
  }

  lemma SpellValues(s: string)
    requires Spelled(s)
    ensures AllBelow(Values(s), 32) && Spell(Values(s)) == s
  {
    forall i | 0 <= i < |s|
      ensures Values(s)[i] < 32 && ALPHABET[Values(s)[i]] == s[i]
    {
      CharValueExact(s[i]);
    }
  }

  lemma ValuesSpell(ds: seq<nat>)
    requires AllBelow(ds, 32)
    ensures Spelled(Spell(ds)) && Values(Spell(ds)) == ds
  {
    forall i | 0 <= i < |ds|
      ensures CharValue(Spell(ds)[i]) == Some(ds[i])
    {
      CharValueExact(Spell(ds)[i]);
    }
  }

  // ---------- what the codec computes ----------

  /** The bits `encodeBase32` reads: `pad` zeros, then the data. */
  function Padded(data: seq<byte>, pad: nat): seq<nat> {
    Zeros(pad) + Expand(data, 8)
  }

  function EncodedDigits(data: seq<byte>, pad: nat): seq<nat> {
    Regroup(Padded(data, pad), 5)
  }

  lemma PaddedBits(data: seq<byte>, pad: nat)
    ensures |Padded(data, pad)| == pad + 8 * |data| && AllBits(Padded(data, pad))
  {
    ExpandIsBits(data, 8);
    ExpandLength(data, 8);
  }

  lemma EncodedBelow(data: seq<byte>, pad: nat)
    ensures AllBelow(EncodedDigits(data, pad), 32)
  {
    PaddedBits(data, pad);
    RegroupBelow(Padded(data, pad), 5);
    assert Pow2(5) == 32;
  }

  function Encoded(data: seq<byte>, pad: nat): string {
    EncodedBelow(data, pad);
    Spell(EncodedDigits(data, pad))
  }

  datatype DecodeError = NotByteAligned | InvalidCharacter

  /** A negative multiple of eight would make the source ask for a negative length. */
  predicate Decodable(s: string, pad: nat) {
    5 * |s| >= pad || (5 * |s| - pad) % 8 != 0
  }

  function Decoded(s: string, pad: nat): Result<seq<byte>, DecodeError>
    requires Decodable(s, pad)
  {
    if (5 * |s| - pad) % 8 != 0 then Err(NotByteAligned)
    else if !Spelled(s) then Err(InvalidCharacter)
    else
      DecodedBytes(Values(s), pad);
      ExpandLength(Values(s), 5);
      Ok(Regroup(Expand(Values(s), 5)[pad..], 8))
  }

  lemma DecodedBytes(ds: seq<nat>, pad: nat)
    requires pad <= 5 * |ds|
    ensures |Expand(ds, 5)| == 5 * |ds|
    ensures forall i :: 0 <= i < |Regroup(Expand(ds, 5)[pad..], 8)| ==> Regroup(Expand(ds, 5)[pad..], 8)[i] < 256
  {
    ExpandIsBits(ds, 5);
    ExpandLength(ds, 5);
    RegroupBelow(Expand(ds, 5)[pad..], 8);
    assert Pow2(8) == 256;
  }

  lemma {:induction false} WholeInFives(n: nat)
    ensures Whole(n, 5) <==> n % 5 == 0
  {
    if n >= 5 {
      WholeInFives(n - 5);
    }
  }

  lemma {:induction false} WholeInEights(n: nat)
    ensures Whole(n, 8) <==> n % 8 == 0
  {
    if n >= 8 {
      WholeInEights(n - 8);
    }
  }

  // ---------- positional notation ----------

  /** The digits of an encoding denote, in base 32, the number the bytes denote in base 256. */
  lemma EncodeIsBaseConversion(data: seq<byte>, pad: nat)
    requires (pad + 8 * |data|) % 5 == 0
    ensures 5 * |EncodedDigits(data, pad)| == pad + 8 * |data|
    ensures Digits(32, EncodedDigits(data, pad)) == Digits(256, data)
  {
    var bits := Padded(data, pad);
    PaddedBits(data, pad);
    WholeInFives(|bits|);
    RegroupLength(bits, 5);
    ExpandOfRegroup(bits, 5);
    EncodedBelow(data, pad);
    assert Pow2(5) == 32 && Pow2(8) == 256;
    ValueOfExpand(EncodedDigits(data, pad), 5);
    ValueOfExpand(data, 8);
    ValueAppend(Zeros(pad), Expand(data, 8));
    ValueOfZeros(pad);
  }

  /** Decoding keeps the base-32 value modulo 256 to the output length: the pad bits are dropped. */
  lemma DecodeIsReduction(s: string, pad: nat)
    requires Decodable(s, pad) && Decoded(s, pad).Ok?
    ensures var out := Decoded(s, pad).value;
            && 8 * |out| == 5 * |s| - pad
            && Digits(256, out) == Digits(32, Values(s)) % Pow2(8 * |out|)
  {
    hide Expand, Regroup;
    var bits := Expand(Values(s), 5);
    var out := Decoded(s, pad).value;
    ExpandIsBits(Values(s), 5);
    ExpandLength(Values(s), 5);
    DecodedBits(s, pad);
    assert Value(bits) == Digits(32, Values(s)) by {
      assert Pow2(5) == 32;
      SpellValues(s);
      ValueOfExpand(Values(s), 5);
    }
    assert Value(Expand(out, 8)) == Digits(256, out) by {
      assert Pow2(8) == 256;
      ValueOfExpand(out, 8);
    }
    ValueDrop(bits, pad);
  }

  lemma DecodedBits(s: string, pad: nat)
    requires Decodable(s, pad) && Decoded(s, pad).Ok?
    ensures |Expand(Values(s), 5)| == 5 * |s| && pad <= 5 * |s|
    ensures Expand(Decoded(s, pad).value, 8) == Expand(Values(s), 5)[pad..]
    ensures 8 * |Decoded(s, pad).value| == 5 * |s| - pad
  {
    hide Expand, Regroup;
    var bits := Expand(Values(s), 5);
    ExpandLength(Values(s), 5);
    ExpandIsBits(Values(s), 5);
    WholeInEights(|bits[pad..]|);
    RegroupLength(bits[pad..], 8);
    ExpandOfRegroup(bits[pad..], 8);
  }

  // ---------- round trips ----------

  lemma EncodedBits(data: seq<byte>, pad: nat)
    requires (pad + 8 * |data|) % 5 == 0
    ensures Expand(EncodedDigits(data, pad), 5) == Padded(data, pad)
    ensures Padded(data, pad)[pad..] == Expand(data, 8)
  {
    PaddedBits(data, pad);
    WholeInFives(|Padded(data, pad)|);
    ExpandOfRegroup(Padded(data, pad), 5);
  }

  lemma DecodeOfEncode(data: seq<byte>, pad: nat)
    requires (pad + 8 * |data|) % 5 == 0
    ensures Decodable(Encoded(data, pad), pad) && Decoded(Encoded(data, pad), pad) == Ok(data)
  {
    hide Encoded, EncodedDigits, Expand, Regroup, Padded, Values, Spelled;
    assert |Encoded(data, pad)| == |EncodedDigits(data, pad)| && 5 * |Encoded(data, pad)| == pad + 8 * |data| &&
           Spelled(Encoded(data, pad)) && Values(Encoded(data, pad)) == EncodedDigits(data, pad) by {
      EncodedSpelling(data, pad);
      EncodeIsBaseConversion(data, pad);
    }
    EncodedBits(data, pad);
    assert Regroup(Expand(data, 8), 8) == data by {
      assert Pow2(8) == 256;
      RegroupOfExpand(data, 8);
    }
  }

  lemma EncodedSpelling(data: seq<byte>, pad: nat)
    ensures |Encoded(data, pad)| == |EncodedDigits(data, pad)|
    ensures Spelled(Encoded(data, pad)) && Values(Encoded(data, pad)) == EncodedDigits(data, pad)
  {
    EncodedBelow(data, pad);
    ValuesSpell(EncodedDigits(data, pad));
  }

  /** With no pad bits the codec is one to one: what decodes is exactly what was encoded. */
  lemma EncodeOfDecode(s: string)
    requires Decoded(s, 0).Ok?
    ensures Encoded(Decoded(s, 0).value, 0) == s
  {
    var ds := Values(s);
    var bits := Expand(ds, 5);
    SpellValues(s);
    ExpandLength(ds, 5);
    ExpandIsBits(ds, 5);
    assert bits[0..] == bits;
    WholeInEights(|bits|);
    ExpandOfRegroup(bits, 8);
    assert Padded(Decoded(s, 0).value, 0) == bits;
    assert Pow2(5) == 32;
    RegroupOfExpand(ds, 5);
  }

  // ---------- the loops ----------

  lemma {:induction false} ByteBitAt(data: seq<byte>, j: nat)
    requires j < 8 * |data|
    ensures |Expand(data, 8)| == 8 * |data| && Expand(data, 8)[j] == Bit(data[j / 8], 7 - j % 8)
  {
    var n := |data| - 1;
    ExpandLength(data, 8);
    ExpandLength(data[..n], 8);
    if j < 8 * n {
      ByteBitAt(data[..n], j);
    } else {
      assert j / 8 == n && j % 8 == j - 8 * n;
      LowAt(data[n], 8, 7 - j % 8);
    }
  }

  /** The closure `bitAt`: bit `i` of the padded data. */
  function BitAt(data: seq<byte>, padBits: nat, i: nat): (b: nat)
    requires i < padBits + 8 * |data|
    ensures |Padded(data, padBits)| == padBits + 8 * |data| && b == Padded(data, padBits)[i] && b < 2
  {
    ExpandLength(data, 8);
    var j := i - padBits;
    if j < 0 then 0
    else
      ByteBitAt(data, j);
      Bit(data[j / 8], 7 - j % 8)
  }

  lemma ValueSnoc(bits: seq<nat>, b: nat)
    ensures Value(bits + [b]) == 2 * Value(bits) + b
  {
    assert (bits + [b])[..|bits|] == bits;
  }

  /** Five more bits are one more digit. */
  lemma DigitMore(bits: seq<nat>, i: nat)
    requires i + 5 <= |bits| && AllBits(bits)
    ensures Value(bits[i..i + 5]) < 32
    ensures Regroup(bits[..i + 5], 5) == Regroup(bits[..i], 5) + [Value(bits[i..i + 5])]
  {
    LowOfValue(bits[i..i + 5]);
    assert Pow2(5) == 32;
    assert bits[..i + 5] == bits[..i] + bits[i..i + 5];
    RegroupSnoc(bits[..i], bits[i..i + 5]);
  }

  method EncodeBase32(data: seq<byte>, padBits: nat) returns (s: string)
    requires (padBits + 8 * |data|) % 5 == 0
    ensures s == Encoded(data, padBits)
  {
    hide Regroup, Digits, Expand, Padded, Spell, BitAt;
    var total := padBits + |data| * 8;
    ghost var bits := Padded(data, padBits);
    PaddedBits(data, padBits);
    s := "";
    var i := 0;
    ghost var ds: seq<nat> := [];
    assert ds == Regroup(bits[..0], 5) && s == Spell(ds) by { EmptyRegroup(bits); }
    while i < total
      invariant i <= total && i % 5 == 0
      invariant ds == Regroup(bits[..i], 5) && AllBelow(ds, 32) && s == Spell(ds)
    {
      var v := 0;
      assert bits[i..i] == [];
      assert v == Value([]) by { EmptyRegroup(bits); }
      for k := 0 to 5
        invariant v == Value(bits[i..i + k])
      {
        assert bits[i..i + k + 1] == bits[i..i + k] + [bits[i + k]];
        ValueSnoc(bits[i..i + k], bits[i + k]);
        v := 2 * v + BitAt(data, padBits, i + k);
      }
      DigitMore(bits, i);
      SpellSnoc(ds, v);
      s := s + [ALPHABET[v]];
      ds := ds + [v];
      i := i + 5;
    }
    assert bits[..i] == bits;
    assert ds == EncodedDigits(data, padBits);
    EncodedBelow(data, padBits);
  }

  lemma EmptyRegroup(bits: seq<nat>)
    ensures Regroup(bits[..0], 5) == [] && Spell([]) == "" && Value([]) == 0
  {
  }

  lemma SpellSnoc(ds: seq<nat>, v: nat)
    requires AllBelow(ds, 32) && v < 32
    ensures Spell(ds + [v]) == Spell(ds) + [ALPHABET[v]]
  {
  }

  lemma OrBitAt(x: byte, k: nat, b: nat, m: nat)
    requires k < 8 && m < 8 && b < 2 && Bit(x, k) == 0
    ensures OrBit(x, k, b) < 256
    ensures Bit(OrBit(x, k, b), m) == if m == k then b else Bit(x, m)
  {
    assert Pow2(8) == 256;
    LowOr(x, 8, k, b);
    LowAt(x, 8, m);
    LowAt(OrBit(x, k, b), 8, m);
  }

  /** OR-ing a bit into a cleared position changes the bit string at that position only. */
  lemma OrBitSets(data: seq<byte>, pos: nat, b: nat)
    requires pos < 8 * |data| && b < 2 && |Expand(data, 8)| == 8 * |data| && Expand(data, 8)[pos] == 0
    ensures OrBit(data[pos / 8], 7 - pos % 8, b) < 256
    ensures Expand(data[pos / 8 := OrBit(data[pos / 8], 7 - pos % 8, b)], 8) == Expand(data, 8)[pos := b]
  {
    hide Expand, Bit, OrBit;
    var q, k := pos / 8, 7 - pos % 8;
    ByteBitAt(data, pos);
    OrBitAt(data[q], k, b, 0);
    var after: seq<byte> := data[q := OrBit(data[q], k, b)];
    ExpandLength(after, 8);
    forall j | 0 <= j < 8 * |data|
      ensures Expand(after, 8)[j] == Expand(data, 8)[pos := b][j]
    {
      ByteBitAt(data, j);
      ByteBitAt(after, j);
      if j / 8 == q {
        OrBitAt(data[q], k, b, 7 - j % 8);
      }
    }
  }

  /** What the output holds once the bits `seen` have been read. */
  ghost function Landed(seen: seq<nat>, pad: nat, outBits: nat): seq<nat>
    requires |seen| <= pad + outBits
  {
    if |seen| <= pad then Zeros(outBits) else seen[pad..] + Zeros(outBits - (|seen| - pad))
  }

  lemma LandedSnoc(seen: seq<nat>, b: nat, pad: nat, outBits: nat)
    requires |seen| < pad + outBits
    ensures if |seen| < pad then Landed(seen + [b], pad, outBits) == Landed(seen, pad, outBits)
            else && |Landed(seen, pad, outBits)| == outBits && Landed(seen, pad, outBits)[|seen| - pad] == 0
                 && Landed(seen + [b], pad, outBits) == Landed(seen, pad, outBits)[|seen| - pad := b]
  {
  }

  lemma LandedStart(s: string, pad: nat, outBits: nat)
    ensures Spelled(s[..0]) && Expand(Values(s[..0]), 5) == [] && Landed([], pad, outBits) == Zeros(outBits)
  {
  }

  lemma LandedAll(seen: seq<nat>, pad: nat, outBits: nat)
    requires |seen| == pad + outBits
    ensures Landed(seen, pad, outBits) == seen[pad..]
  {
  }

  lemma {:induction false} ZeroBytes(n: nat, data: seq<byte>)
    requires |data| == n && forall i :: 0 <= i < n ==> data[i] == 0
    ensures Expand(data, 8) == Zeros(8 * n)
  {
    if n > 0 {
      ZeroBytes(n - 1, data[..n - 1]);
      assert Low(0, 8) == Zeros(8);
    }
  }

  lemma ValuesSnoc(s: string, i: nat)
    requires i < |s| && Spelled(s[..i + 1])
    ensures Spelled(s[..i]) && Values(s[..i + 1]) == Values(s[..i]) + [CharValue(s[i]).value]
    ensures Expand(Values(s[..i + 1]), 5) == Expand(Values(s[..i]), 5) + Low(CharValue(s[i]).value, 5)
  {
    assert forall k :: 0 <= k < i ==> s[..i][k] == s[..i + 1][k];
    assert s[..i + 1][i] == s[i];
    ExpandSnoc(Values(s[..i]), CharValue(s[i]).value, 5);
  }

  method DecodeBase32(s: string, padBits: nat) returns (r: Result<seq<byte>, DecodeError>)
    requires Decodable(s, padBits)
    ensures r == Decoded(s, padBits)
  {
    hide Regroup, Digits, Expand, Landed, Low, Bit, OrBit, Values;
    var totalBits := |s| * 5;
    var outBits := totalBits - padBits;
    if outBits % 8 != 0 {
      return Err(NotByteAligned);
    }
    var out := new byte[outBits / 8](_ => 0);
    ZeroBytes(outBits / 8, out[..]);
    LandedStart(s, padBits, outBits);
    var bitIdx := 0;
    for i := 0 to |s|
      invariant bitIdx == 5 * i && Spelled(s[..i])
      invariant |Expand(Values(s[..i]), 5)| == bitIdx
      invariant Expand(out[..], 8) == Landed(Expand(Values(s[..i]), 5), padBits, outBits)
    {
      var c := s[i];
      if CharValue(c).None? {
        return Err(InvalidCharacter);
      }
      var v := CharValue(c).value;
      assert s[..i + 1] == s[..i] + [c];
      ValuesSnoc(s, i);
      ghost var before := Expand(Values(s[..i]), 5);
      ghost var word := Low(v, 5);
      LowIsBits(v, 5);
      assert before + word[..0] == before;
      for n := 0 to 5
        invariant bitIdx == 5 * i + n
        invariant Expand(out[..], 8) == Landed(before + word[..n], padBits, outBits)
      {
        var k := 4 - n;
        var bit := Bit(v, k);
        var pos := bitIdx - padBits;
        LowAt(v, 5, k);
        assert before + word[..n + 1] == (before + word[..n]) + [bit];
        LandedSnoc(before + word[..n], bit, padBits, outBits);
        if pos >= 0 {
          OrBitSets(out[..], pos, bit);
          out[pos / 8] := OrBit(out[pos / 8], 7 - pos % 8, bit);
        }
        bitIdx := bitIdx + 1;
      }
      assert word[..5] == word;
    }
    assert s[..|s|] == s;
    LandedAll(Expand(Values(s), 5), padBits, outBits);
    assert Pow2(8) == 256;
    RegroupOfExpand(out[..], 8);
    r := Ok(out[..]);
  }

  method ReverseBytes(b: array<byte>)
    modifies b
    ensures b[..] == Reverse(old(b[..]))
  {
    var i, j := 0, b.Length - 1;
    while i < j
      invariant 0 <= i && j == b.Length - 1 - i && i <= j + 1
      invariant forall k :: 0 <= k < i || j < k < b.Length ==> b[k] == old(b[b.Length - 1 - k])
      invariant forall k :: i <= k <= j ==> b[k] == old(b[k])
    {
      b[i], b[j] := b[j], b[i];
      i, j := i + 1, j - 1;
    }
  }

  method BytesEqual(a: seq<byte>, b: seq<byte>) returns (same: bool)
    ensures same <==> a == b
  {
    if |a| != |b| {
      return false;
    }
    for i := 0 to |a|
      invariant a[..i] == b[..i]
    {
      if a[i] != b[i] {
        return false;
      }
    }
    same := true;
  }
}
