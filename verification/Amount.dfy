/**
 * Amounts: decimal text to and from raw units, where one nano is 10^30 raw.
 *
 * Rationals are pairs (numerator, positive denominator). The text grammar is that of signed decimals
 * with an optional exponent; `limit` is the largest power of ten the rational library scales by.
 */
module Amount {
  import opened Wrappers
  import opened Bits

  function Pow10(n: nat): nat {
    Power(10, n)
  }

  const RAW_DIGITS := 30

  // ---------- rationals ----------

  datatype Rat = Rat(num: int, den: nat)

  predicate IsInt(r: Rat)
    requires r.den > 0
  {
    r.num % r.den == 0
  }

  function RealOfRat(r: Rat): real
    requires r.den > 0
  {
    r.num as real / r.den as real
  }

  // ---------- the parser ----------

  predicate IsDigit(c: char) {
    '0' <= c <= '9'
  }

  predicate AllDigits(s: string) {
    forall i :: 0 <= i < |s| ==> IsDigit(s[i])
  }

  /** The number a string of decimal digits denotes. */
  function Nat(s: string): nat
    requires AllDigits(s)
  {
    if s == "" then 0 else 10 * Nat(s[..|s| - 1]) + (s[|s| - 1] as int - '0' as int)
  }

  /** The position of the first of two characters, or the length. */
  function Find(s: string, a: char, b: char): (i: nat)
    ensures i <= |s|
  {
    if s == "" || s[0] == a || s[0] == b then 0 else 1 + Find(s[1..], a, b)
  }

  function SkipSign(s: string): (bool, string) {
    if s != "" && (s[0] == '-' || s[0] == '+') then (s[0] == '-', s[1..]) else (false, s)
  }

  /** (-1)^neg * mant * 10^exp. */
  datatype Decimal = Decimal(neg: bool, mant: nat, exp: int)

  function Signed(neg: bool, n: nat): int {
    if neg then 0 - n else n
  }

  function ParseExponent(s: string): Option<int> {
    var (neg, digits) := SkipSign(s);
    if digits == "" || !AllDigits(digits) then None else Some(Signed(neg, Nat(digits)))
  }

  function ParseMantissa(s: string): Option<(nat, nat)> {
    var dot := Find(s, '.', '.');
    var whole := s[..dot];
    var frac := if dot < |s| then s[dot + 1..] else "";
    if !AllDigits(whole) || !AllDigits(frac) || whole + frac == "" then None
    else Some((Nat(whole + frac), |frac|))
  }

  function ParseDecimal(s: string): Option<Decimal> {
    var (neg, rest) := SkipSign(s);
    var e := Find(rest, 'e', 'E');
    match (ParseMantissa(rest[..e]), if e < |rest| then ParseExponent(rest[e + 1..]) else Some(0))
    case (Some((mant, places)), Some(exp)) => Some(Decimal(neg, mant, exp - places))
    case _ => None
  }

  function RatOf(d: Decimal): (r: Rat)
    ensures r.den > 0
  {
    PowerPositive(10, if d.exp >= 0 then 0 else -d.exp);
    if d.exp >= 0 then Rat(Signed(d.neg, d.mant) * Pow10(d.exp), 1) else Rat(Signed(d.neg, d.mant), Pow10(-d.exp))
  }

  lemma {:induction false} PowerPositive(base: nat, n: nat)
    requires base > 0
    ensures Power(base, n) > 0
  {
    if n > 0 {
      PowerPositive(base, n - 1);
    }
  }

  datatype AmountError = NotDecimal | TooPrecise | Negative

  predicate InRange(d: Decimal, limit: nat) {
    d.mant == 0 || 0 - limit <= d.exp <= limit
  }

  function ParseNanoAmount(s: string, limit: nat): Result<nat, AmountError> {
    match ParseDecimal(s)
    case None => Err(NotDecimal)
    case Some(d) =>
      if !InRange(d, limit) then Err(NotDecimal)
      else
        var scaled := Rat(RatOf(d).num * Pow10(RAW_DIGITS), RatOf(d).den);
        if !IsInt(scaled) then Err(TooPrecise)
        else if scaled.num < 0 then Err(Negative)
        else Ok(scaled.num / scaled.den)
  }

  // ---------- the formatter ----------

  /** Decimal digits of `n`, no leading zeros. */
  function Dec(n: nat): (s: string)
    ensures s != ""
  {
    if n < 10 then [('0' as int + n) as char] else Dec(n / 10) + [('0' as int + n % 10) as char]
  }

  /** The last `w` decimal digits of `n`, zero-padded. */
  function DecPadded(n: nat, w: nat): (s: string)
    ensures |s| == w
  {
    if w == 0 then "" else DecPadded(n / 10, w - 1) + [('0' as int + n % 10) as char]
  }

  function FormatNanoAmount(raw: Option<int>): string {
    match raw
    case None => "0"
    case Some(n) =>
      PowerPositive(10, RAW_DIGITS);
      var one := Pow10(RAW_DIGITS);
      var abs := if n < 0 then -n else n;
      (if n < 0 then "-" else "") + Dec(abs / one) + "." + DecPadded(abs % one, RAW_DIGITS)
  }

  // ---------- the reference: what a literal means ----------

  datatype Exponent = Exponent(marker: char, sign: string, digits: string)

  /** sign whole [ . frac ] [ marker sign digits ] */
  datatype Literal = Literal(sign: string, whole: string, point: bool, frac: string, exponent: Option<Exponent>)

  predicate IsSign(s: string) {
    s == "" || s == "+" || s == "-"
  }

  predicate WellFormed(l: Literal) {
    && IsSign(l.sign) && AllDigits(l.whole) && AllDigits(l.frac)
    && l.whole + l.frac != "" && (!l.point ==> l.frac == "")
    && (l.exponent.Some? ==>
          var e := l.exponent.value;
          (e.marker == 'e' || e.marker == 'E') && IsSign(e.sign) && e.digits != "" && AllDigits(e.digits))
  }

  function MantissaText(l: Literal): string {
    l.whole + if l.point then "." + l.frac else ""
  }

  function ExponentText(l: Literal): string {
    match l.exponent
    case None => ""
    case Some(e) => [e.marker] + (e.sign + e.digits)
  }

  function Text(l: Literal): string {
    l.sign + (MantissaText(l) + ExponentText(l))
  }

  function ExponentOf(l: Literal): int
    requires WellFormed(l)
  {
    match l.exponent
    case None => 0
    case Some(e) => Signed(e.sign == "-", Nat(e.digits))
  }

  function TenTo(e: int): real {
    PowerPositive(10, if e >= 0 then e else -e);
    if e >= 0 then Pow10(e) as real else 1.0 / Pow10(-e) as real
  }

  /** The number a literal denotes: its whole part plus its fraction, scaled, signed. */
  function Meaning(l: Literal): real
    requires WellFormed(l)
  {
    PowerPositive(10, |l.frac|);
    (if l.sign == "-" then -1.0 else 1.0) *
    ((Nat(l.whole) as real + Nat(l.frac) as real / Pow10(|l.frac|) as real) * TenTo(ExponentOf(l)))
  }

  function DecimalOf(l: Literal): Decimal
    requires WellFormed(l)
  {
    Decimal(l.sign == "-", Nat(l.whole + l.frac), ExponentOf(l) - |l.frac|)
  }

  // ---------- the parser accepts exactly the literals ----------

  lemma {:induction false} FindAppend(s: string, t: string, a: char, b: char)
    requires forall i :: 0 <= i < |s| ==> s[i] != a && s[i] != b
    requires t == "" || t[0] == a || t[0] == b
    ensures Find(s + t, a, b) == |s|
  {
    if s == "" {
      assert s + t == t;
    } else {
      FindAppend(s[1..], t, a, b);
      assert (s + t)[1..] == s[1..] + t;
    }
  }

  lemma {:induction false} FindExact(s: string, a: char, b: char)
    ensures var i := Find(s, a, b);
            && (forall j :: 0 <= j < i ==> s[j] != a && s[j] != b)
            && (i < |s| ==> s[i] == a || s[i] == b)
  {
    if s != "" && s[0] != a && s[0] != b {
      FindExact(s[1..], a, b);
      assert forall j :: 1 <= j < |s| ==> s[j] == s[1..][j - 1];
    }
  }

  lemma SkipSignOf(sign: string, rest: string)
    requires IsSign(sign) && (sign == "" ==> rest == "" || (rest[0] != '-' && rest[0] != '+'))
    ensures SkipSign(sign + rest) == (sign == "-", rest)
  {
    assert sign == "" ==> sign + rest == rest;
    assert sign != "" ==> (sign + rest)[1..] == rest;
  }

  lemma ParsesMantissa(l: Literal)
    requires WellFormed(l)
    ensures ParseMantissa(MantissaText(l)) == Some((Nat(l.whole + l.frac), |l.frac|))
  {
    var tail := if l.point then "." + l.frac else "";
    FindAppend(l.whole, tail, '.', '.');
    assert (l.whole + tail)[..|l.whole|] == l.whole;
    assert l.point ==> (l.whole + tail)[|l.whole| + 1..] == l.frac;
  }

  lemma ParsesExponent(e: Exponent)
    requires IsSign(e.sign) && e.digits != "" && AllDigits(e.digits)
    ensures ParseExponent(e.sign + e.digits) == Some(Signed(e.sign == "-", Nat(e.digits)))
  {
    assert IsDigit(e.digits[0]);
    SkipSignOf(e.sign, e.digits);
  }

  /** A literal's text parses to its decimal. */
  lemma ParsesLiteral(l: Literal)
    requires WellFormed(l)
    ensures ParseDecimal(Text(l)) == Some(DecimalOf(l))
  {
    hide Nat, ParseMantissa, ParseExponent, Find, SkipSign;
    var m, x := MantissaText(l), ExponentText(l);
    assert |m| > 0 && m[0] != '-' && m[0] != '+' by { MantissaStart(l); }
    SkipSignOf(l.sign, m + x);
    assert forall i :: 0 <= i < |m| ==> m[i] != 'e' && m[i] != 'E' by { MantissaStart(l); }
    FindAppend(m, x, 'e', 'E');
    ParsesMantissa(l);
    assert (m + x)[..|m|] == m;
    if l.exponent.Some? {
      var e := l.exponent.value;
      assert (m + x)[|m| + 1..] == e.sign + e.digits;
      ParsesExponent(e);
    }
  }

  lemma MantissaStart(l: Literal)
    requires WellFormed(l)
    ensures var m := MantissaText(l); |m| > 0 && forall i :: 0 <= i < |m| ==> IsDigit(m[i]) || m[i] == '.'
  {
  }

  lemma SignText(s: string) returns (sign: string)
    ensures IsSign(sign) && s == sign + SkipSign(s).1 && SkipSign(s).0 == (sign == "-")
  {
    sign := if s != "" && (s[0] == '-' || s[0] == '+') then s[..1] else "";
  }

  lemma MantissaLiteral(s: string) returns (whole: string, point: bool, frac: string)
    requires ParseMantissa(s).Some?
    ensures AllDigits(whole) && AllDigits(frac) && whole + frac != "" && (!point ==> frac == "")
    ensures s == whole + if point then "." + frac else ""
  {
    var dot := Find(s, '.', '.');
    FindExact(s, '.', '.');
    whole, point, frac := s[..dot], dot < |s|, if dot < |s| then s[dot + 1..] else "";
  }

  lemma ExponentLiteral(s: string) returns (sign: string, digits: string)
    requires ParseExponent(s).Some?
    ensures IsSign(sign) && digits != "" && AllDigits(digits) && s == sign + digits
  {
    sign := SignText(s);
    digits := SkipSign(s).1;
  }

  /** The unsigned part: a mantissa, and an exponent if there is a marker. */
  lemma UnsignedLiteral(rest: string, sign: string) returns (l: Literal)
    requires var e := Find(rest, 'e', 'E'); ParseMantissa(rest[..e]).Some? && (e < |rest| ==> ParseExponent(rest[e + 1..]).Some?)
    requires IsSign(sign)
    ensures WellFormed(l) && l.sign == sign && MantissaText(l) + ExponentText(l) == rest
  {
    hide ParseMantissa, ParseExponent, Find;
    var e := Find(rest, 'e', 'E');
    FindExact(rest, 'e', 'E');
    var whole, point, frac := MantissaLiteral(rest[..e]);
    if e < |rest| {
      var esign, digits := ExponentLiteral(rest[e + 1..]);
      l := Literal(sign, whole, point, frac, Some(Exponent(rest[e], esign, digits)));
      assert MantissaText(l) == rest[..e] && ExponentText(l) == [rest[e]] + rest[e + 1..];
      assert rest == rest[..e] + ([rest[e]] + rest[e + 1..]);
    } else {
      l := Literal(sign, whole, point, frac, None);
      assert MantissaText(l) == rest[..e] == rest && ExponentText(l) == "";
    }
  }

  /** Whatever parses is the text of a literal. */
  lemma ParsedIsLiteral(s: string) returns (l: Literal)
    requires ParseDecimal(s).Some?
    ensures WellFormed(l) && Text(l) == s
  {
    hide ParseMantissa, ParseExponent, Find, MantissaText, ExponentText;
    var sign := SignText(s);
    l := UnsignedLiteral(SkipSign(s).1, sign);
  }

  // ---------- exactness ----------

  lemma {:induction false} NatAppend(s: string, t: string)
    requires AllDigits(s) && AllDigits(t)
    ensures AllDigits(s + t) && Nat(s + t) == Nat(s) * Pow10(|t|) + Nat(t)
  {
    if t == "" {
      assert s + t == s;
    } else {
      var n := |t| - 1;
      assert (s + t)[..|s + t| - 1] == s + t[..n];
      NatAppend(s, t[..n]);
      Horner(10, Nat(s), Pow10(n), Nat(t[..n]));
    }
  }

  lemma TenToDrop(e: int, k: nat)
    ensures Pow10(k) > 0 && TenTo(e - k) == TenTo(e) / Pow10(k) as real
  {
    PowerPositive(10, k);
    if e >= k {
      PowerSum(e - k, k);
      PowerPositive(10, e - k);
      CancelLeft(Pow10(e - k), Pow10(k));
    } else if e >= 0 {
      PowerSum(e, k - e);
      PowerPositive(10, e);
      PowerPositive(10, k - e);
      CancelRight(Pow10(e), Pow10(k - e));
    } else {
      PowerSum(-e, k);
      PowerPositive(10, -e);
      SplitInverse(Pow10(-e), Pow10(k));
    }
  }

  lemma {:induction false} PowerSum(a: nat, b: nat)
    ensures Pow10(a + b) == Pow10(a) * Pow10(b)
  {
    if a > 0 {
      PowerSum(a - 1, b);
      assert 10 * (Pow10(a - 1) * Pow10(b)) == (10 * Pow10(a - 1)) * Pow10(b);
    }
  }

  lemma CancelLeft(a: nat, b: nat)
    requires b > 0
    ensures (a * b) as real / b as real == a as real
  {
    assert (a * b) as real == a as real * b as real;
  }

  lemma CancelRight(a: nat, b: nat)
    requires a > 0 && b > 0
    ensures a as real / (a * b) as real == 1.0 / b as real
  {
    assert (a * b) as real == a as real * b as real;
  }

  lemma SplitInverse(a: nat, b: nat)
    requires a > 0 && b > 0
    ensures a * b > 0 && 1.0 / (a * b) as real == 1.0 / a as real / b as real
  {
    assert (a * b) as real == a as real * b as real;
  }

  lemma MantissaMeaning(w: nat, f: nat, p: nat, t: real)
    requires p > 0
    ensures (w as real + f as real / p as real) * t == (w * p + f) as real * (t / p as real)
  {
    assert (w * p + f) as real == w as real * p as real + f as real;
  }

  /** The rational built from a literal is the number it denotes. */
  lemma RatIsMeaning(l: Literal)
    requires WellFormed(l)
    ensures RealOfRat(RatOf(DecimalOf(l))) == Meaning(l)
  {
    hide Nat, TenTo, Power, RatOf, RealOfRat, AllDigits, ExponentOf;
    var d := DecimalOf(l);
    var p := Pow10(|l.frac|);
    RatOfReal(d);
    assert Nat(l.whole + l.frac) == Nat(l.whole) * p + Nat(l.frac) by { NatAppend(l.whole, l.frac); }
    var t := TenTo(ExponentOf(l));
    assert p > 0 && TenTo(d.exp) == t / p as real by { TenToDrop(ExponentOf(l), |l.frac|); }
    MantissaMeaning(Nat(l.whole), Nat(l.frac), p, t);
  }

  lemma RatOfReal(d: Decimal)
    ensures RealOfRat(RatOf(d)) == (if d.neg then -1.0 else 1.0) * (d.mant as real * TenTo(d.exp))
  {
    if d.exp >= 0 {
      assert (d.mant * Pow10(d.exp)) as real == d.mant as real * Pow10(d.exp) as real;
    }
  }

  /** A quotient is the integer `n` exactly when the division is exact and yields `n`. */
  lemma ExactQuotient(num: int, den: nat, n: int)
    requires den > 0
    ensures num as real / den as real == n as real <==> num % den == 0 && num / den == n
  {
    assert num == num / den * den + num % den;
    assert num as real / den as real == n as real <==> num as real == n as real * den as real;
    assert n as real * den as real == (n * den) as real;
    assert num == n * den <==> num % den == 0 && num / den == n by { QuotientUnique(num, den, n); }
  }

  lemma QuotientUnique(num: int, den: nat, n: int)
    requires den > 0
    ensures num == n * den <==> num % den == 0 && num / den == n
  {
    var q, r := num / den, num % den;
    assert num == q * den + r && 0 <= r < den;
    if num == n * den {
      assert (n - q) * den == r;
      Multiples(n - q, den);
    }
  }

  /** The literal's value times 10^30, the number of raw units it stands for, is the integer `n`. */
  ghost predicate IsRaw(l: Literal, n: int)
    requires WellFormed(l)
  {
    Meaning(l) * Pow10(30) as real == n as real
  }

  /** The literal's digits are all zero, or its last digit stands within `limit` places of the point. */
  predicate Reachable(l: Literal, limit: nat)
    requires WellFormed(l)
  {
    (Nat(l.whole) == 0 && Nat(l.frac) == 0) || 0 - limit <= ExponentOf(l) - |l.frac| <= limit
  }

  lemma ReachableExactly(l: Literal, limit: nat)
    requires WellFormed(l)
    ensures InRange(DecimalOf(l), limit) <==> Reachable(l, limit)
  {
    hide Nat, Power;
    NatAppend(l.whole, l.frac);
    PowerPositive(10, |l.frac|);
    Positive(Nat(l.whole), Pow10(|l.frac|));
  }

  lemma Positive(x: nat, p: nat)
    requires p > 0
    ensures x * p == 0 <==> x == 0
  {
  }

  /**
   * A literal in range is accepted, as `n` raw, exactly when its value times 10^30 is the non-negative
   * integer `n`; it is negative exactly when that is a negative integer, and otherwise too precise.
   */
  lemma ParsesExactly(l: Literal, limit: nat, n: nat)
    requires WellFormed(l)
    ensures ParseNanoAmount(Text(l), limit) == Ok(n) <==> Reachable(l, limit) && IsRaw(l, n)
    ensures ParseNanoAmount(Text(l), limit) == Err(NotDecimal) <==> !Reachable(l, limit)
    ensures ParseNanoAmount(Text(l), limit) == Err(Negative) <==>
            Reachable(l, limit) && exists k: int :: k < 0 && IsRaw(l, k)
  {
    hide Power, Nat, TenTo, ParseDecimal, DecimalOf, Meaning, InRange, Reachable;
    ReachableExactly(l, limit);
    ParsesLiteral(l);
    RatIsMeaning(l);
    var r := RatOf(DecimalOf(l));
    var one := Pow10(RAW_DIGITS);
    PowerPositive(10, RAW_DIGITS);
    ScaledRat(r, one);
    forall k: int
      ensures IsRaw(l, k) <==> r.num * one % r.den == 0 && r.num * one / r.den == k
    {
      ExactQuotient(r.num * one, r.den, k);
    }
    SignOfQuotient(r.num, one, r.den);
    var q := r.num * one / r.den;
    assert IsRaw(l, q) <==> r.num * one % r.den == 0;
  }

  lemma ScaledRat(r: Rat, k: nat)
    requires r.den > 0
    ensures (r.num * k) as real / r.den as real == RealOfRat(r) * k as real
  {
    assert (r.num * k) as real == r.num as real * k as real;
  }

  lemma SignOfQuotient(num: int, k: nat, den: nat)
    requires k > 0 && den > 0
    ensures num * k < 0 <==> num < 0
    ensures num < 0 ==> num as real / den as real < 0.0
    ensures num * k >= 0 ==> num * k / den >= 0
    ensures num * k < 0 ==> num * k / den < 0
  {
    if num < 0 {
      assert (-num) * k >= k;
    } else {
      assert num * k >= 0;
    }
  }

  lemma OnlyLiteralsParse(s: string, limit: nat)
    ensures ParseNanoAmount(s, limit) == Err(NotDecimal) || exists l :: WellFormed(l) && Text(l) == s && Reachable(l, limit)
  {
    if ParseNanoAmount(s, limit) != Err(NotDecimal) {
      var l := ParsedIsLiteral(s);
      ParsesLiteral(l);
      ReachableExactly(l, limit);
    }
  }

  // ---------- round trip ----------

  /** Digits without leading zeros. */
  predicate Canonical(s: string) {
    AllDigits(s) && s != "" && (|s| > 1 ==> s[0] != '0')
  }

  lemma {:induction false} DecCanonical(n: nat)
    ensures Canonical(Dec(n)) && (n > 0 ==> Dec(n)[0] != '0')
  {
    NatOfDec(n);
    if n >= 10 {
      DecCanonical(n / 10);
    }
  }

  lemma {:induction false} NatOfDec(n: nat)
    ensures AllDigits(Dec(n)) && Nat(Dec(n)) == n
  {
    if n >= 10 {
      NatOfDec(n / 10);
      assert Dec(n)[..|Dec(n)| - 1] == Dec(n / 10);
    }
  }

  lemma {:induction false} NatOfDecPadded(n: nat, w: nat)
    requires n < Pow10(w)
    ensures AllDigits(DecPadded(n, w)) && Nat(DecPadded(n, w)) == n
  {
    if w > 0 {
      NatOfDecPadded(n / 10, w - 1);
      assert DecPadded(n, w)[..w - 1] == DecPadded(n / 10, w - 1);
    }
  }

  lemma WholeAndPart(q: nat, r: nat, one: nat)
    requires one > 0
    ensures (q as real + r as real / one as real) * one as real == (q * one + r) as real
  {
    assert (q * one + r) as real == q as real * one as real + r as real;
  }

  /**
   * An amount, negative ones included, is written as a literal with thirty decimals and no leading zeros
   * whose value is exactly the amount.
   */
  lemma FormatMeans(n: int) returns (l: Literal)
    ensures WellFormed(l) && Text(l) == FormatNanoAmount(Some(n)) && IsRaw(l, n)
    ensures Canonical(l.whole) && l.point && |l.frac| == 30 && l.exponent == None && l.sign == if n < 0 then "-" else ""
  {
    hide Dec, DecPadded, Text, FormatNanoAmount, IsRaw, WellFormed, Canonical, Pow10;
    var abs: nat := if n < 0 then -n else n;
    l := Written(abs, n < 0);
    FormatShape(abs, l);
    FormatText(n, l);
    FormatValue(abs, l);
  }

  /** The literal the formatter writes. */
  function Written(abs: nat, negative: bool): Literal {
    PowerPositive(10, 30);
    Literal(if negative then "-" else "", Dec(abs / Pow10(30)), true, DecPadded(abs % Pow10(30), 30), None)
  }

  lemma FormatShape(abs: nat, l: Literal)
    requires l == Written(abs, true) || l == Written(abs, false)
    ensures WellFormed(l) && Canonical(l.whole) && l.point && |l.frac| == 30 && l.exponent == None
  {
    hide Pow10, Nat, Dec, DecPadded, AllDigits;
    Padded(abs);
    DecCanonical(abs / Pow10(30));
  }

  lemma Padded(abs: nat)
    ensures Pow10(30) > 0 && AllDigits(DecPadded(abs % Pow10(30), 30))
  {
    hide Power, DecPadded;
    PowerPositive(10, 30);
    NatOfDecPadded(abs % Pow10(30), 30);
  }

  lemma FormatText(n: int, l: Literal)
    requires l == Written(if n < 0 then -n else n, n < 0)
    ensures Text(l) == FormatNanoAmount(Some(n))
  {
    hide Pow10, Dec, DecPadded;
    Joined(l.sign, l.whole, l.frac);
  }

  lemma Joined(sign: string, whole: string, frac: string)
    ensures sign + whole + "." + frac == sign + (whole + ("." + frac) + "")
  {
  }

  lemma FormatValue(abs: nat, l: Literal)
    requires WellFormed(l) && (l == Written(abs, true) || l == Written(abs, false))
    ensures IsRaw(l, Signed(l.sign == "-", abs))
  {
    hide Power, Nat, Dec, DecPadded, TenTo;
    var one := Pow10(30);
    PowerPositive(10, 30);
    NatOfDec(abs / one);
    NatOfDecPadded(abs % one, 30);
    assert TenTo(0) == 1.0 by { TenToNothing(); }
    var value := Nat(l.whole) as real + Nat(l.frac) as real / one as real;
    assert Meaning(l) == if l.sign == "-" then -value else value;
    WholeAndPart(abs / one, abs % one, one);
    assert value * one as real == abs as real;
    hide Meaning;
    Negated(value, one as real, abs as real);
  }

  lemma Negated(value: real, one: real, abs: real)
    requires value * one == abs
    ensures -value * one == -abs
  {
  }

  lemma TenToNothing()
    ensures TenTo(0) == 1.0
  {
  }

  /** No amount at all is written as zero. */
  lemma FormatOfNothing(limit: nat)
    ensures FormatNanoAmount(None) == "0" && ParseNanoAmount(FormatNanoAmount(None), limit) == Ok(0)
  {
    var l := Literal("", "0", false, "", None);
    assert Text(l) == "0";
    assert Nat(l.whole) == 0 && Nat(l.frac) == 0 by { ZeroDigit(); }
    assert Meaning(l) == 0.0;
    hide Power, ParseNanoAmount, Meaning, Nat;
    ParsesExactly(l, limit, 0);
  }

  lemma ZeroDigit()
    ensures AllDigits("0") && AllDigits("") && Nat("0") == 0 && Nat("") == 0
  {
    assert "0"[..0] == "";
  }

  /** Every raw amount is written as text that reads back as that amount. */
  lemma ParseOfFormat(n: nat, limit: nat)
    requires limit >= 30
    ensures ParseNanoAmount(FormatNanoAmount(Some(n)), limit) == Ok(n)
  {
    hide FormatNanoAmount, ParseNanoAmount, IsRaw, Text;
    var l := FormatMeans(n);
    ParsesExactly(l, limit, n);
  }

  /** Different amounts are written differently. */
  lemma FormatIsInjective(m: nat, n: nat)
    ensures FormatNanoAmount(Some(m)) == FormatNanoAmount(Some(n)) <==> m == n
  {
    hide FormatNanoAmount, ParseNanoAmount;
    ParseOfFormat(m, 30);
    ParseOfFormat(n, 30);
  }

  // ---------- the amount of a request ----------

  datatype ResolveError = InvalidAmount | AmountRequired

  /** A raw amount is passed on as it is; a decimal one is converted. */
  function ResolveAmount(amountRaw: string, amount: string, limit: nat): Result<string, ResolveError> {
    if amountRaw != "" then Ok(amountRaw)
    else if amount != "" then
      match ParseNanoAmount(amount, limit)
      case Err(_) => Err(InvalidAmount)
      case Ok(n) => Ok(Dec(n))
    else Err(AmountRequired)
  }

  /** The request carries the decimal digits of the literal's value in raw, or is refused. */
  lemma ResolvesExactly(l: Literal, limit: nat, digits: string)
    requires WellFormed(l)
    ensures ResolveAmount("", Text(l), limit) == Ok(digits) <==>
            Reachable(l, limit) && exists n: nat :: digits == Dec(n) && IsRaw(l, n)
    ensures ResolveAmount("", Text(l), limit) == Ok(digits) ==> Canonical(digits) && IsRaw(l, Nat(digits))
  {
    hide Power, ParseNanoAmount, Meaning, Dec, Reachable, IsRaw;
    assert Text(l) != "" by { MantissaStart(l); }
    if ResolveAmount("", Text(l), limit) == Ok(digits) {
      var n := ParseNanoAmount(Text(l), limit).value;
      ParsesExactly(l, limit, n);
      NatOfDec(n);
      DecCanonical(n);
      assert digits == Dec(n) && IsRaw(l, n);
    }
    if n: nat :| digits == Dec(n) && IsRaw(l, n) {
      ParsesExactly(l, limit, n);
    }
  }

  /** A raw amount is passed on unread; with neither form there is no amount; a decimal one is refused if it does not parse. */
  lemma ResolveTakesTheFirst(amountRaw: string, amount: string, limit: nat)
    ensures var r := ResolveAmount(amountRaw, amount, limit);
            && (amountRaw != "" ==> r == Ok(amountRaw))
            && (r == Err(AmountRequired) <==> amountRaw == "" && amount == "")
            && (r == Err(InvalidAmount) <==> amountRaw == "" && amount != "" && ParseNanoAmount(amount, limit).Err?)
  {
    hide ParseNanoAmount;
  }
}
