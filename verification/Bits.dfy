/** Bit strings and positional numbers: the reference the base32 loops are compared with. */
module Bits {

  type byte = x: nat | x < 256

  function Pow2(n: nat): (p: nat)
    ensures p >= 1
  {
    if n == 0 then 1 else 2 * Pow2(n - 1)
  }

  /** x >> k. */
  function Shr(x: nat, k: nat): nat {
    if k == 0 then x else Shr(x / 2, k - 1)
  }

  /** (x >> k) & 1. */
  function Bit(x: nat, k: nat): nat {
    Shr(x, k) % 2
  }

  /** x | (b << k) for a single bit b. */
  function OrBit(x: nat, k: nat, b: nat): nat {
    if b == 1 && Bit(x, k) == 0 then x + Pow2(k) else x
  }

  /** The low `w` bits of `x`, most significant first. */
  function Low(x: nat, w: nat): (bits: seq<nat>)
    ensures |bits| == w
  {
    if w == 0 then [] else Low(x / 2, w - 1) + [x % 2]
  }

  /** The number a big-endian digit string denotes in `base`. */
  function Digits(base: nat, ds: seq<nat>): nat {
    if ds == [] then 0 else base * Digits(base, ds[..|ds| - 1]) + ds[|ds| - 1]
  }

  /** The number a big-endian bit string denotes. */
  function Value(bits: seq<nat>): nat {
    Digits(2, bits)
  }

  /** Every digit written out as `w` bits. */
  function Expand(ds: seq<nat>, w: nat): seq<nat> {
    if ds == [] then [] else Expand(ds[..|ds| - 1], w) + Low(ds[|ds| - 1], w)
  }

  /** `n` is a multiple of `w`. */
  predicate Whole(n: nat, w: nat)
    requires w > 0
  {
    n == 0 || (n >= w && Whole(n - w, w))
  }

  /** The digits whose `w`-bit expansions make up `bits`. */
  function Regroup(bits: seq<nat>, w: nat): seq<nat>
    requires w > 0
  {
    if |bits| < w then []
    else
      var cut := |bits| - w;
      Regroup(bits[..cut], w) + [Value(bits[cut..])]
  }

  function Zeros(n: nat): (bits: seq<nat>)
    ensures |bits| == n
  {
    seq(n, _ => 0)
  }

  ghost predicate AllBits(bits: seq<nat>) {
    forall i :: 0 <= i < |bits| ==> bits[i] < 2
  }

  ghost predicate AllBelow(ds: seq<nat>, m: nat) {
    forall i :: 0 <= i < |ds| ==> ds[i] < m
  }

  // ---------- one digit ----------

  lemma {:induction false} LowIsBits(x: nat, w: nat)
    ensures AllBits(Low(x, w))
  {
    if w > 0 {
      LowIsBits(x / 2, w - 1);
    }
  }

  lemma {:induction false} LowAt(x: nat, w: nat, k: nat)
    requires k < w
    ensures Low(x, w)[w - 1 - k] == Bit(x, k)
  {
    if k > 0 {
      LowAt(x / 2, w - 1, k - 1);
    }
  }

  lemma {:induction false} ValueOfLow(x: nat, w: nat)
    requires x < Pow2(w)
    ensures Value(Low(x, w)) == x
  {
    if w > 0 {
      ValueOfLow(x / 2, w - 1);
      assert Low(x, w)[..w - 1] == Low(x / 2, w - 1);
    }
  }

  lemma {:induction false} LowOfValue(bits: seq<nat>)
    requires AllBits(bits)
    ensures Low(Value(bits), |bits|) == bits
    ensures Value(bits) < Pow2(|bits|)
  {
    if bits != [] {
      var n := |bits| - 1;
      LowOfValue(bits[..n]);
      assert bits == bits[..n] + [bits[n]];
    }
  }

  lemma DoubledRoom(x: nat, p: nat, q: nat)
    requires x / 2 + p < q
    ensures x + 2 * p < 2 * q
  {
  }

  lemma {:induction false} SetBound(x: nat, w: nat, k: nat)
    requires k < w && x < Pow2(w) && Bit(x, k) == 0
    ensures x + Pow2(k) < Pow2(w)
  {
    var q := Pow2(w - 1);
    assert Pow2(w) == 2 * q;
    if k == 0 {
      assert x % 2 == 0 && Pow2(0) == 1;
      hide *;
      assert x < 2 * q;
    } else {
      var p := Pow2(k - 1);
      assert Pow2(k) == 2 * p && Bit(x / 2, k - 1) == 0;
      assert x / 2 < q by {
        hide *;
      }
      hide *;
      SetBound(x / 2, w - 1, k - 1);
      DoubledRoom(x, p, q);
    }
  }

  /** Setting a clear bit below `w` changes that bit of the expansion only. */
  lemma {:induction false} LowSet(x: nat, w: nat, k: nat)
    requires k < w && Bit(x, k) == 0
    ensures Low(x + Pow2(k), w) == Low(x, w)[w - 1 - k := 1]
  {
    if k == 0 {
      assert (x + 1) / 2 == x / 2;
    } else {
      LowSet(x / 2, w - 1, k - 1);
      var p := Pow2(k - 1);
      assert Pow2(k) == 2 * p;
      assert (x + 2 * p) / 2 == x / 2 + p && (x + 2 * p) % 2 == x % 2;
      assert Low(x + Pow2(k), w) == Low(x / 2 + p, w - 1) + [x % 2];
    }
  }

  lemma LowOr(x: nat, w: nat, k: nat, b: nat)
    requires k < w && x < Pow2(w) && Bit(x, k) == 0 && b < 2
    ensures OrBit(x, k, b) < Pow2(w)
    ensures Low(OrBit(x, k, b), w) == Low(x, w)[w - 1 - k := b]
  {
    LowAt(x, w, k);
    LowSet(x, w, k);
    SetBound(x, w, k);
  }

  // ---------- digit strings ----------

  lemma ExpandSnoc(ds: seq<nat>, d: nat, w: nat)
    ensures Expand(ds + [d], w) == Expand(ds, w) + Low(d, w)
  {
    assert (ds + [d])[..|ds|] == ds;
  }

  lemma {:induction false} ExpandIsBits(ds: seq<nat>, w: nat)
    ensures AllBits(Expand(ds, w))
  {
    if ds != [] {
      ExpandIsBits(ds[..|ds| - 1], w);
      LowIsBits(ds[|ds| - 1], w);
    }
  }

  lemma {:induction false} ExpandAppend(a: seq<nat>, b: seq<nat>, w: nat)
    ensures Expand(a + b, w) == Expand(a, w) + Expand(b, w)
  {
    hide Low;
    if b == [] {
      assert a + b == a;
    } else {
      var n := |b| - 1;
      hide Expand;
      var head, d := b[..n], b[n];
      assert b == head + [d];
      ExpandAppend(a, head, w);
      assert a + b == (a + head) + [d];
      ExpandSnoc(a + head, d, w);
      ExpandSnoc(head, d, w);
    }
  }

  lemma {:induction false} DigitsAppend(base: nat, a: seq<nat>, b: seq<nat>)
    ensures Digits(base, a + b) == Digits(base, a) * Power(base, |b|) + Digits(base, b)
  {
    if b == [] {
      assert a + b == a;
    } else {
      var n := |b| - 1;
      DigitsAppend(base, a, b[..n]);
      assert (a + b)[..|a + b| - 1] == a + b[..n] && (a + b)[|a + b| - 1] == b[n];
      Horner(base, Digits(base, a), Power(base, n), Digits(base, b[..n]));
    }
  }

  lemma Horner(base: nat, x: nat, p: nat, y: nat)
    ensures base * (x * p + y) == x * (base * p) + base * y
  {
  }

  function Power(base: nat, n: nat): nat {
    if n == 0 then 1 else base * Power(base, n - 1)
  }

  lemma {:induction false} PowerOfTwo(n: nat)
    ensures Power(2, n) == Pow2(n)
  {
    if n > 0 {
      PowerOfTwo(n - 1);
    }
  }

  lemma ValueAppend(a: seq<nat>, b: seq<nat>)
    ensures Value(a + b) == Value(a) * Pow2(|b|) + Value(b)
  {
    DigitsAppend(2, a, b);
    PowerOfTwo(|b|);
  }

  lemma {:induction false} ValueOfZeros(n: nat)
    ensures Value(Zeros(n)) == 0
  {
    if n > 0 {
      assert Zeros(n)[..n - 1] == Zeros(n - 1);
      ValueOfZeros(n - 1);
    }
  }

  /** The bits of a digit string denote the number the digits denote. */
  lemma {:induction false} ValueOfExpand(ds: seq<nat>, w: nat)
    requires AllBelow(ds, Pow2(w))
    ensures Value(Expand(ds, w)) == Digits(Pow2(w), ds)
  {
    if ds != [] {
      var n := |ds| - 1;
      var head := ds[..n];
      ValueOfExpand(head, w);
      assert Value(Low(ds[n], w)) == ds[n] by { ValueOfLow(ds[n], w); }
      assert Digits(Pow2(w), ds) == Pow2(w) * Digits(Pow2(w), head) + ds[n];
      assert Expand(ds, w) == Expand(head, w) + Low(ds[n], w);
      hide *;
      ValueAppend(Expand(head, w), Low(ds[n], w));
    }
  }

  lemma {:induction false} ExpandLength(ds: seq<nat>, w: nat)
    requires w > 0
    ensures |Expand(ds, w)| == |ds| * w && Whole(|Expand(ds, w)|, w)
  {
    if ds != [] {
      ExpandLength(ds[..|ds| - 1], w);
      assert |ds| * w == (|ds| - 1) * w + w;
    }
  }

  lemma {:induction false} RegroupLength(bits: seq<nat>, w: nat)
    requires w > 0 && Whole(|bits|, w)
    ensures |Regroup(bits, w)| * w == |bits|
  {
    if bits != [] {
      RegroupLength(bits[..|bits| - w], w);
      assert |Regroup(bits, w)| * w == (|Regroup(bits, w)| - 1) * w + w;
    }
  }

  lemma RegroupSnoc(bits: seq<nat>, last: seq<nat>)
    requires |last| > 0
    ensures Regroup(bits + last, |last|) == Regroup(bits, |last|) + [Value(last)]
  {
    assert (bits + last)[..|bits|] == bits && (bits + last)[|bits|..] == last;
  }

  lemma {:induction false} ExpandOfRegroup(bits: seq<nat>, w: nat)
    requires w > 0 && Whole(|bits|, w) && AllBits(bits)
    ensures Expand(Regroup(bits, w), w) == bits
  {
    if bits != [] {
      var cut := |bits| - w;
      var head, tail := bits[..cut], bits[cut..];
      assert AllBits(head) && AllBits(tail) && Whole(|head|, w);
      hide *;
      assert bits == head + tail;
      ExpandOfRegroup(head, w);
      RegroupSnoc(head, tail);
      LowOfValue(tail);
      ExpandSnoc(Regroup(head, w), Value(tail), w);
    }
  }

  lemma {:induction false} RegroupBelow(bits: seq<nat>, w: nat)
    requires w > 0 && AllBits(bits)
    ensures AllBelow(Regroup(bits, w), Pow2(w))
  {
    if |bits| >= w {
      var cut := |bits| - w;
      RegroupBelow(bits[..cut], w);
      assert Value(bits[cut..]) < Pow2(w) by { LowOfValue(bits[cut..]); }
    }
  }

  lemma {:induction false} RegroupOfExpand(ds: seq<nat>, w: nat)
    requires w > 0 && AllBelow(ds, Pow2(w))
    ensures Regroup(Expand(ds, w), w) == ds
  {
    if ds != [] {
      var n := |ds| - 1;
      hide Regroup, Low, Digits;
      RegroupOfExpand(ds[..n], w);
      ValueOfLow(ds[n], w);
      RegroupSnoc(Expand(ds[..n], w), Low(ds[n], w));
    }
  }

  /** Dropping leading bits is reduction modulo a power of two. */
  lemma ValueDrop(bits: seq<nat>, k: nat)
    requires AllBits(bits) && k <= |bits|
    ensures Value(bits[k..]) == Value(bits) % Pow2(|bits| - k)
  {
    var m := Pow2(|bits| - k);
    assert bits == bits[..k] + bits[k..];
    ValueAppend(bits[..k], bits[k..]);
    LowOfValue(bits[k..]);
    ModUnique(Value(bits), Value(bits[..k]), m, Value(bits[k..]));
  }

  lemma Multiples(d: int, m: int)
    requires m > 0
    ensures d >= 1 ==> d * m >= m
    ensures d <= -1 ==> d * m <= -m
  {
    if d >= 1 {
      assert d * m == m + (d - 1) * m && (d - 1) * m >= 0;
    } else if d <= -1 {
      assert (-d - 1) * m >= 0 && d * m == -m - (-d - 1) * m;
    }
  }

  lemma ModUnique(x: nat, q: nat, m: nat, r: nat)
    requires m > 0 && r < m && x == q * m + r
    ensures x % m == r
  {
    var p := x / m;
    assert x == p * m + x % m && 0 <= x % m < m;
    var d := p - q;
    assert d * m == p * m - q * m;
    Multiples(d, m);
  }
}
