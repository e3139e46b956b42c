/** Exactly when pruning is invisible: a run that shows it whenever the bucket cannot refill in time. */
module RatePruning {
  import opened TokenBucket
  import opened RateLimit

  const KEY := "k"

  /** No clocked run, on any key, decides otherwise than the lone bucket. */
  ghost predicate Invisible(l: Limits, ttl: real) {
    forall events, id :: Clocked(events) ==> DecisionsFor(events, l, ttl, id) == Verdicts(TimesFor(events, id), l)
  }

  // ---------- below one token nothing is ever allowed ----------

  lemma {:induction false} NothingAllowed(events: seq<Event>, l: Limits, ttl: real, id: string)
    requires l.burst < 1.0
    ensures forall i :: 0 <= i < |DecisionsFor(events, l, ttl, id)| ==> !DecisionsFor(events, l, ttl, id)[i]
    ensures DecisionsFor(events, l, ttl, id) == Verdicts(TimesFor(events, id), l)
  {
    hide Verdicts, BucketsAfter, DecisionsFor, TimesFor;
    if events == [] {
      NothingTracked(id, l, ttl, 0.0);
    } else {
      var n := |events| - 1;
      assert events == events[..n] + [events[n]];
      NothingAllowed(events[..n], l, ttl, id);
      Snoc(events[..n], events[n], l, ttl, id);
      if events[n].Call? && events[n].id == id {
        VerdictsExtend(TimesFor(events[..n], id), events[n].now, l);
      }
    }
  }

  // ---------- building a run that accepts every call ----------

  /** The tokens the next call of the key at `now` finds. */
  function Ready(m: Buckets, l: Limits, now: real): real {
    if KEY in m then Refilled(m[KEY], l, now) else Refilled(Bucket(l.burst, now), l, now)
  }

  ghost predicate AllTrue(p: seq<bool>) {
    forall i :: 0 <= i < |p| ==> p[i]
  }

  /**
   * A clocked run, over by `now`, that accepted all its `k` calls, the first at time zero, and after
   * which a call at `now` finds `tokens`.
   */
  ghost predicate Generous(events: seq<Event>, l: Limits, ttl: real, now: real, tokens: real, k: nat) {
    && Clocked(events) && (forall i :: 0 <= i < |events| ==> events[i].now <= now)
    && |DecisionsFor(events, l, ttl, KEY)| == |TimesFor(events, KEY)| == k && AllTrue(DecisionsFor(events, l, ttl, KEY))
    && (if k == 0 then now == 0.0 else TimesFor(events, KEY)[0] == 0.0)
    && Ready(BucketsAfter(events, l, ttl), l, now) == tokens
  }

  /** The bucket as its last call, at `now`, left it. */
  ghost predicate JustUsed(events: seq<Event>, l: Limits, ttl: real, now: real, tokens: real) {
    var m := BucketsAfter(events, l, ttl);
    KEY in m && m[KEY] == Bucket(tokens, now)
  }

  lemma OneCall(events: seq<Event>, l: Limits, ttl: real, now: real, tokens: real, k: nat) returns (after: seq<Event>)
    requires Generous(events, l, ttl, now, tokens, k) && 1.0 <= tokens <= l.burst
    ensures Generous(after, l, ttl, now, tokens - 1.0, k + 1) && JustUsed(after, l, ttl, now, tokens - 1.0)
    ensures TimesFor(after, KEY)[k] == now
  {
    hide BucketsAfter, DecisionsFor, TimesFor;
    var e := Call(KEY, now, now);
    after := events + [e];
    Snoc(events, e, l, ttl, KEY);
    GainOfNothing(l);
    assert Clocked(after);
  }

  /** `n` calls at once. */
  lemma {:induction false} Calls(events: seq<Event>, l: Limits, ttl: real, now: real, tokens: real, k: nat, n: nat)
    returns (after: seq<Event>)
    requires Generous(events, l, ttl, now, tokens, k) && n >= 1 && n as real <= tokens <= l.burst
    ensures Generous(after, l, ttl, now, tokens - n as real, k + n) && JustUsed(after, l, ttl, now, tokens - n as real)
    ensures TimesFor(after, KEY)[k + n - 1] == now
  {
    hide Generous, JustUsed;
    if n == 1 {
      after := OneCall(events, l, ttl, now, tokens, k);
    } else {
      var most := Calls(events, l, ttl, now, tokens, k, n - 1);
      after := OneCall(most, l, ttl, now, tokens - (n - 1) as real, k + n - 1);
    }
  }

  lemma Wait(events: seq<Event>, l: Limits, ttl: real, now: real, tokens: real, k: nat, elapsed: real)
    requires Generous(events, l, ttl, now, tokens, k) && JustUsed(events, l, ttl, now, tokens) && k > 0 && elapsed >= 0.0
    ensures Generous(events, l, ttl, now + elapsed, Min(tokens + Gain(l, elapsed), l.burst), k)
  {
    hide Gain, BucketsAfter, DecisionsFor, TimesFor, Clocked;
  }

  /** Pruning `elapsed` after the last call, past the time to live, makes the bucket full. */
  lemma PruneFills(events: seq<Event>, l: Limits, ttl: real, now: real, tokens: real, k: nat, elapsed: real)
    returns (after: seq<Event>)
    requires Generous(events, l, ttl, now, tokens, k) && JustUsed(events, l, ttl, now, tokens)
    requires k > 0 && elapsed >= 0.0 && elapsed > ttl
    ensures Generous(after, l, ttl, now + elapsed, l.burst, k)
  {
    hide BucketsAfter, DecisionsFor, TimesFor;
    var e := PruneAt(now + elapsed);
    after := events + [e];
    Snoc(events, e, l, ttl, KEY);
    GainOfNothing(l);
    assert Clocked(after);
  }

  /** Accepting every call of a window that has no room for them all is not what the lone bucket does. */
  lemma TooGenerous(events: seq<Event>, l: Limits, ttl: real, now: real, tokens: real, k: nat)
    requires Generous(events, l, ttl, now, tokens, k) && k > 0 && TimesFor(events, KEY)[k - 1] == now
    requires k as real > l.burst + Gain(l, now)
    ensures DecisionsFor(events, l, ttl, KEY) != Verdicts(TimesFor(events, KEY), l)
  {
    hide Gain, BucketsAfter, DecisionsFor, TimesFor, Clocked, Allowed;
    var times := TimesFor(events, KEY);
    AllowedIffRoom(times, l, k - 1);
    assert Allowed(times, l, k - 1) ==> HasRoom(times, l, 0, k - 1);
    assert times[k - 1] - times[0] == now;
    if DecisionsFor(events, l, ttl, KEY) == Verdicts(times, l) {
      forall i | 0 <= i < k
        ensures Allowed(times, l, i)
      {
        assert DecisionsFor(events, l, ttl, KEY)[i];
      }
      AllAccepted(times, l, k - 1);
    }
  }

  lemma {:induction false} AllAccepted(times: seq<real>, l: Limits, n: nat)
    requires n <= |times| && forall i :: 0 <= i < n ==> Allowed(times, l, i)
    ensures Accepts(times, l, 0, n) == n
  {
    if n > 0 {
      AllAccepted(times, l, n - 1);
    }
  }

  // ---------- the run ----------

  /** A wait past the time to live in which the bucket does not fill up. */
  lemma ShortWait(l: Limits, ttl: real) returns (p: real)
    requires l.rate > 0.0 && l.burst >= 1.0 && l.rate * ttl < l.burst
    ensures p >= 0.0 && p > ttl && Gain(l, p) < l.burst
  {
    var full := l.burst / l.rate;
    assert full * l.rate == l.burst;
    assert ttl < full;
    p := if ttl < 0.0 then 0.0 else (ttl + full) / 2.0;
    if ttl >= 0.0 {
      GainAdds(l, p, full - p);
      assert (full - p) * l.rate > 0.0;
    } else {
      GainOfNothing(l);
    }
  }

  /** The wait after which a bucket left with less than one token holds exactly one. */
  lemma WaitForOne(l: Limits, tokens: real) returns (w: real)
    requires l.rate > 0.0 && tokens < 1.0
    ensures w >= 0.0 && tokens + Gain(l, w) == 1.0
  {
    w := (1.0 - tokens) / l.rate;
    assert w * l.rate == 1.0 - tokens;
  }

  /** A clock that never refills: spend the bucket, prune, and call once more. */
  lemma ShowsWithoutRefill(l: Limits, ttl: real) returns (events: seq<Event>)
    requires l.rate == 0.0 && l.burst >= 1.0
    ensures Clocked(events) && DecisionsFor(events, l, ttl, KEY) != Verdicts(TimesFor(events, KEY), l)
  {
    hide Generous, JustUsed, Clocked, DecisionsFor, TimesFor;
    var n := l.burst.Floor;
    var p := if ttl < 0.0 then 0.0 else ttl + 1.0;
    EmptyIsGenerous(l, ttl);
    var spent := Calls([], l, ttl, 0.0, l.burst, 0, n);
    var pruned := PruneFills(spent, l, ttl, 0.0, l.burst - n as real, n, p);
    events := OneCall(pruned, l, ttl, p, l.burst, n);
    assert Gain(l, p) == 0.0;
    TooGenerous(events, l, ttl, p, l.burst - 1.0, n + 1);
    IsClocked(events, l, ttl, p, l.burst - 1.0, n + 1);
  }

  lemma IsClocked(events: seq<Event>, l: Limits, ttl: real, now: real, tokens: real, k: nat)
    requires Generous(events, l, ttl, now, tokens, k)
    ensures Clocked(events)
  {
  }

  lemma EmptyIsGenerous(l: Limits, ttl: real)
    ensures Generous([], l, ttl, 0.0, l.burst, 0)
  {
    GainOfNothing(l);
  }

  /**
   * Spend the bucket to exactly nothing, prune before it has filled up again, and spend it twice: the
   * pruned limiter starts from a full bucket, the lone one does not.
   */
  lemma ShowsWithRefill(l: Limits, ttl: real) returns (events: seq<Event>)
    requires l.rate > 0.0 && l.burst >= 1.0 && l.rate * ttl < l.burst
    ensures Clocked(events) && DecisionsFor(events, l, ttl, KEY) != Verdicts(TimesFor(events, KEY), l)
  {
    hide Generous, JustUsed, Clocked, DecisionsFor, TimesFor, Gain;
    var n := l.burst.Floor;
    var rest := l.burst - n as real;
    var w := WaitForOne(l, rest);
    var p := ShortWait(l, ttl);
    EmptyIsGenerous(l, ttl);
    var e1 := Calls([], l, ttl, 0.0, l.burst, 0, n);
    Wait(e1, l, ttl, 0.0, rest, n, w);
    var e2 := OneCall(e1, l, ttl, w, 1.0, n);
    var e3 := PruneFills(e2, l, ttl, w, 0.0, n + 1, p);
    var e4 := Calls(e3, l, ttl, w + p, l.burst, n + 1, n);
    Wait(e4, l, ttl, w + p, rest, n + 1 + n, w);
    events := OneCall(e4, l, ttl, w + p + w, 1.0, n + 1 + n);
    GainAdds(l, w, p);
    GainAdds(l, w + p, w);
    TooGenerous(events, l, ttl, w + p + w, 0.0, n + 1 + n + 1);
    IsClocked(events, l, ttl, w + p + w, 0.0, n + 1 + n + 1);
  }

  /**
   * Pruning is invisible, in every run and for every key, exactly when the bucket refills within its
   * time to live or is too small to allow any call.
   */
  lemma InvisibleExactly(l: Limits, ttl: real)
    requires l.rate >= 0.0
    ensures Invisible(l, ttl) <==> l.burst < 1.0 || l.rate * ttl >= l.burst
  {
    if l.burst < 1.0 || l.rate * ttl >= l.burst {
      forall events, id | Clocked(events)
        ensures DecisionsFor(events, l, ttl, id) == Verdicts(TimesFor(events, id), l)
      {
        if l.burst < 1.0 {
          NothingAllowed(events, l, ttl, id);
        } else {
          PruningIsInvisible(events, l, ttl, id);
        }
      }
    } else {
      var events := [];
      if l.rate == 0.0 {
        events := ShowsWithoutRefill(l, ttl);
      } else {
        events := ShowsWithRefill(l, ttl);
      }
    }
  }
}
