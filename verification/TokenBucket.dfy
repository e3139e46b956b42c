/** The token bucket of one key: its closed form, and why no other policy admits more. */
module TokenBucket {

  datatype Limits = Limits(rate: real, burst: real)

  datatype Bucket = Bucket(tokens: real, last: real)

  function Min(a: real, b: real): real {
    if a <= b then a else b
  }

  /** The tokens that `elapsed` seconds add. */
  function Gain(l: Limits, elapsed: real): real {
    elapsed * l.rate
  }

  /** Tokens at `now`, before the decision. */
  function Refilled(b: Bucket, l: Limits, now: real): real {
    Min(b.tokens + Gain(l, now - b.last), l.burst)
  }

  function Decide(b: Bucket, l: Limits, now: real): (Bucket, bool) {
    var t := Refilled(b, l, now);
    if t < 1.0 then (Bucket(t, now), false) else (Bucket(t - 1.0, now), true)
  }

  // ---------- runs of one key ----------

  ghost predicate NonDecreasing(times: seq<real>) {
    forall i, j :: 0 <= i <= j < |times| ==> times[i] <= times[j]
  }

  /** The bucket, full when first seen, after its first `n` decisions. */
  function After(times: seq<real>, l: Limits, n: nat): Bucket
    requires times != [] && n <= |times|
  {
    if n == 0 then Bucket(l.burst, times[0]) else Decide(After(times, l, n - 1), l, times[n - 1]).0
  }

  function Tokens(times: seq<real>, l: Limits, k: nat): real
    requires k < |times|
  {
    Refilled(After(times, l, k), l, times[k])
  }

  predicate Allowed(times: seq<real>, l: Limits, k: nat)
    requires k < |times|
  {
    Decide(After(times, l, k), l, times[k]).1
  }

  /** How many of the decisions j..k-1 were accepts. */
  function Accepts(times: seq<real>, l: Limits, j: nat, k: nat): nat
    requires k <= |times|
  {
    if k <= j then 0 else Accepts(times, l, j, k - 1) + if Allowed(times, l, k - 1) then 1 else 0
  }

  /** What a window from event `j` to now has left to give. */
  function Room(times: seq<real>, l: Limits, j: nat, k: nat): real
    requires j <= k < |times|
  {
    l.burst + Gain(l, times[k] - times[j]) - Accepts(times, l, j, k) as real
  }

  lemma GainAdds(l: Limits, a: real, b: real)
    ensures Gain(l, a) + Gain(l, b) == Gain(l, a + b)
  {
  }

  lemma GainGrows(l: Limits, a: real, b: real)
    requires l.rate >= 0.0 && a <= b
    ensures Gain(l, a) <= Gain(l, b)
  {
    assert (b - a) * l.rate >= 0.0;
    GainAdds(l, a, b - a);
  }

  lemma GainOfNothing(l: Limits)
    ensures Gain(l, 0.0) == 0.0
  {
  }

  lemma RoomStep(times: seq<real>, l: Limits, j: nat, k: nat)
    requires j <= k && k + 1 < |times|
    ensures Room(times, l, j, k + 1) ==
            Room(times, l, j, k) + Gain(l, times[k + 1] - times[k]) - if Allowed(times, l, k) then 1.0 else 0.0
  {
    hide Gain, Allowed;
    GainAdds(l, times[k] - times[j], times[k + 1] - times[k]);
    assert times[k] - times[j] + (times[k + 1] - times[k]) == times[k + 1] - times[j];
  }

  lemma TokensStep(times: seq<real>, l: Limits, k: nat)
    requires k + 1 < |times|
    ensures Tokens(times, l, k + 1) ==
            Min(Tokens(times, l, k) - (if Allowed(times, l, k) then 1.0 else 0.0) + Gain(l, times[k + 1] - times[k]), l.burst)
  {
    hide Gain;
  }

  lemma RoomNow(times: seq<real>, l: Limits, k: nat)
    requires k < |times|
    ensures Room(times, l, k, k) == l.burst
    ensures k == 0 ==> Tokens(times, l, 0) == l.burst
  {
    GainOfNothing(l);
  }

  /** Tokens before the k-th decision: the least room over the windows that end now. */
  lemma {:induction false} ClosedForm(times: seq<real>, l: Limits, k: nat) returns (j: nat)
    requires k < |times|
    ensures j <= k && Tokens(times, l, k) == Room(times, l, j, k)
    ensures forall i :: 0 <= i <= k ==> Tokens(times, l, k) <= Room(times, l, i, k)
  {
    hide Tokens, Room, Allowed, Gain;
    RoomNow(times, l, k);
    if k == 0 {
      j := 0;
    } else {
      var m := ClosedForm(times, l, k - 1);
      TokensStep(times, l, k - 1);
      forall i | 0 <= i <= k
        ensures Tokens(times, l, k) <= Room(times, l, i, k)
      {
        if i < k {
          RoomStep(times, l, i, k - 1);
        }
      }
      RoomStep(times, l, m, k - 1);
      j := if Tokens(times, l, k) == l.burst then k else m;
    }
  }

  /** The window from `j` to now has room for one call more. */
  predicate HasRoom(times: seq<real>, l: Limits, j: nat, k: nat)
    requires j <= k < |times|
  {
    Accepts(times, l, j, k) as real + 1.0 <= l.burst + Gain(l, times[k] - times[j])
  }

  /** A call is allowed exactly when every window ending now has room for it. */
  lemma AllowedIffRoom(times: seq<real>, l: Limits, k: nat)
    requires k < |times|
    ensures Allowed(times, l, k) <==> forall j :: 0 <= j <= k ==> HasRoom(times, l, j, k)
  {
    var m := ClosedForm(times, l, k);
    hide Tokens, Accepts, Gain;
    assert Allowed(times, l, k) <==> Tokens(times, l, k) >= 1.0 by { DecideByTokens(times, l, k); }
    assert forall j :: 0 <= j <= k ==> (HasRoom(times, l, j, k) <==> Room(times, l, j, k) >= 1.0);
    assert HasRoom(times, l, m, k) <==> Room(times, l, m, k) >= 1.0;
  }

  lemma DecideByTokens(times: seq<real>, l: Limits, k: nat)
    requires k < |times|
    ensures Allowed(times, l, k) <==> Tokens(times, l, k) >= 1.0
  {
  }

  // ---------- policies ----------

  function Count(p: seq<bool>, j: nat, k: nat): nat
    requires k <= |p|
  {
    if k <= j then 0 else Count(p, j, k - 1) + if p[k - 1] then 1 else 0
  }

  /** No window accepts more than burst + rate * elapsed calls (and none accepts fewer than zero). */
  ghost predicate KeepsWindows(p: seq<bool>, times: seq<real>, l: Limits)
    requires |p| == |times|
  {
    forall j, k :: 0 <= j <= k < |times| ==>
      Count(p, j, k + 1) == 0 || Count(p, j, k + 1) as real <= l.burst + Gain(l, times[k] - times[j])
  }

  /** The limiter's own decisions, as a policy. */
  function Verdicts(times: seq<real>, l: Limits): (p: seq<bool>)
    ensures |p| == |times|
  {
    seq(|times|, k requires 0 <= k < |times| => Allowed(times, l, k))
  }

  lemma {:induction false} VerdictCount(times: seq<real>, l: Limits, j: nat, k: nat)
    requires k <= |times|
    ensures Count(Verdicts(times, l), j, k) == Accepts(times, l, j, k)
  {
    if k > j {
      VerdictCount(times, l, j, k - 1);
    }
  }

  lemma {:induction false} CountSplit(p: seq<bool>, i: nat, j: nat, k: nat)
    requires i <= j <= k <= |p|
    ensures Count(p, i, k) == Count(p, i, j) + Count(p, j, k)
  {
    if k > j {
      CountSplit(p, i, j, k - 1);
    }
  }

  lemma {:induction false} WindowBound(times: seq<real>, l: Limits, j: nat, k: nat)
    requires NonDecreasing(times) && l.rate >= 0.0 && j <= k < |times|
    ensures Accepts(times, l, j, k + 1) == 0 ||
            Accepts(times, l, j, k + 1) as real <= l.burst + Gain(l, times[k] - times[j])
  {
    hide Gain, Allowed;
    if Allowed(times, l, k) {
      AllowedIffRoom(times, l, k);
      assert HasRoom(times, l, j, k);
    } else if k > j {
      WindowBound(times, l, j, k - 1);
      GainGrows(l, times[k - 1] - times[j], times[k] - times[j]);
    }
  }

  lemma LimiterKeepsWindows(times: seq<real>, l: Limits)
    requires NonDecreasing(times) && l.rate >= 0.0
    ensures KeepsWindows(Verdicts(times, l), times, l)
  {
    forall j, k | 0 <= j <= k < |times|
      ensures var n := Count(Verdicts(times, l), j, k + 1);
              n == 0 || n as real <= l.burst + Gain(l, times[k] - times[j])
    {
      VerdictCount(times, l, j, k + 1);
      WindowBound(times, l, j, k);
    }
  }

  /** No policy that keeps the windows accepts more calls than the limiter, in any prefix of the run. */
  lemma {:induction false} LimiterIsOptimal(times: seq<real>, l: Limits, p: seq<bool>, n: nat)
    requires |p| == |times| && KeepsWindows(p, times, l) && n <= |times|
    ensures Count(p, 0, n) <= Count(Verdicts(times, l), 0, n)
  {
    if n > 0 {
      hide Gain, Allowed, Verdicts;
      var k := n - 1;
      LimiterIsOptimal(times, l, p, k);
      VerdictCount(times, l, 0, k);
      VerdictCount(times, l, 0, n);
      if !Allowed(times, l, k) && p[k] {
        // Some window ending now is full; the policy cannot have used less of it.
        AllowedIffRoom(times, l, k);
        var j :| 0 <= j <= k && !HasRoom(times, l, j, k);
        assert Count(p, j, k + 1) <= Accepts(times, l, j, k);
        LimiterIsOptimal(times, l, p, j);
        CountSplit(p, 0, j, n);
        VerdictCount(times, l, j, k);
        CountSplit(Verdicts(times, l), 0, j, k);
      }
    }
  }
}
