/** The limiter's map of buckets: two methods that edit it, and why pruning cannot be observed. */
module RateLimit {
  import opened TokenBucket

  // ---------- what the methods compute ----------

  type Buckets = map<string, Bucket>

  /** `created` and `now` are the two clock readings of a call: at the map lookup and at the decision. */
  function AllowKey(m: Buckets, l: Limits, id: string, created: real, now: real): (Buckets, bool) {
    var b := if id in m then m[id] else Bucket(l.burst, created);
    var (after, ok) := Decide(b, l, now);
    (m[id := after], ok)
  }

  function Pruned(m: Buckets, ttl: real, now: real): Buckets {
    map id | id in m && !(m[id].last < now - ttl) :: m[id]
  }

  class KeyLimiter {
    var tokens: real
    var last: real

    constructor (tokens: real, last: real)
      ensures this.tokens == tokens && this.last == last
    {
      this.tokens, this.last := tokens, last;
    }

    function Value(): Bucket
      reads this
    {
      Bucket(tokens, last)
    }

    method Allow(rate: real, burst: real, now: real) returns (ok: bool)
      modifies this
      ensures (Value(), ok) == Decide(old(Value()), Limits(rate, burst), now)
    {
      tokens := tokens + Gain(Limits(rate, burst), now - last);
      last := now;
      if tokens > burst {
        tokens := burst;
      }
      if tokens < 1.0 {
        return false;
      }
      tokens := tokens - 1.0;
      return true;
    }
  }

  class RateLimiter {
    var keys: map<string, KeyLimiter>
    const rate: real
    const burst: real
    const ttl: real

    /** Every key has a bucket of its own. */
    ghost predicate Valid()
      reads this
    {
      forall i, j :: i in keys && j in keys && i != j ==> keys[i] != keys[j]
    }

    ghost function Contents(): Buckets
      reads this, keys.Values
    {
      map id | id in keys :: keys[id].Value()
    }

    constructor (rate: real, burst: real, ttl: real)
      ensures Valid() && Contents() == map[]
      ensures this.rate == rate && this.burst == burst && this.ttl == ttl
    {
      this.keys, this.rate, this.burst, this.ttl := map[], rate, burst, ttl;
    }

    /** The critical section of the map: the key's bucket, made full if it is new. */
    method Lookup(keyID: string, created: real) returns (kl: KeyLimiter)
      requires Valid()
      modifies this`keys
      ensures Valid() && keyID in keys && kl == keys[keyID] && fresh(keys.Values - old(keys.Values))
      ensures Contents() == if keyID in old(keys) then old(Contents()) else old(Contents())[keyID := Bucket(burst, created)]
    {
      if keyID !in keys {
        kl := new KeyLimiter(burst, created);
        keys := keys[keyID := kl];
      }
      kl := keys[keyID];
    }

    /** A call with nobody in between its two critical sections. */
    method Allow(keyID: string, created: real, now: real) returns (ok: bool)
      requires Valid()
      modifies this`keys, keys.Values
      ensures Valid() && fresh(keys.Values - old(keys.Values))
      ensures (Contents(), ok) == AllowKey(old(Contents()), Limits(rate, burst), keyID, created, now)
    {
      ghost var before := Contents();
      var kl := Lookup(keyID, created);
      assert kl.Value() == Contents()[keyID];
      ok := kl.Allow(rate, burst, now);
      assert Contents() == before[keyID := kl.Value()];
    }

    /** Drops the buckets last used before the cutoff. */
    method Prune(now: real)
      requires Valid()
      modifies this`keys
      ensures Valid() && keys.Values <= old(keys.Values)
      ensures Contents() == Pruned(old(Contents()), ttl, now)
    {
      var cutoff := now - ttl;
      var todo := keys.Keys;
      while todo != {}
        invariant todo <= keys.Keys <= old(keys.Keys)
        invariant forall id :: id in keys ==> keys[id] == old(keys)[id]
        invariant forall id :: id in old(keys) && id !in todo ==> (id in keys <==> !(old(keys)[id].last < cutoff))
      {
        var id :| id in todo;
        todo := todo - {id};
        var idle := keys[id].last < cutoff;
        if idle {
          keys := keys - {id};
        }
      }
    }
  }

  // ---------- runs ----------

  datatype Event = Call(id: string, created: real, now: real) | PruneAt(now: real)

  /** The clock does not run backwards, within an event or between events. */
  ghost predicate Clocked(events: seq<Event>) {
    && (forall i :: 0 <= i < |events| && events[i].Call? ==> events[i].created <= events[i].now)
    && (forall i, j :: 0 <= i < j < |events| ==>
          events[i].now <= (if events[j].Call? then events[j].created else events[j].now))
  }

  function BucketsAfter(events: seq<Event>, l: Limits, ttl: real): Buckets {
    if events == [] then map[]
    else
      var m := BucketsAfter(events[..|events| - 1], l, ttl);
      match events[|events| - 1]
      case Call(id, created, now) => AllowKey(m, l, id, created, now).0
      case PruneAt(now) => Pruned(m, ttl, now)
  }

  /** The decisions the limiter takes on the calls of `id`. */
  function DecisionsFor(events: seq<Event>, l: Limits, ttl: real, id: string): seq<bool> {
    if events == [] then []
    else
      var e := events[|events| - 1];
      var head := events[..|events| - 1];
      DecisionsFor(head, l, ttl, id) +
      if e.Call? && e.id == id then [AllowKey(BucketsAfter(head, l, ttl), l, e.id, e.created, e.now).1] else []
  }

  /** The times at which `id` calls. */
  function TimesFor(events: seq<Event>, id: string): seq<real> {
    if events == [] then []
    else
      var e := events[|events| - 1];
      TimesFor(events[..|events| - 1], id) + if e.Call? && e.id == id then [e.now] else []
  }

  lemma {:induction false} AfterExtends(times: seq<real>, more: real, l: Limits, n: nat)
    requires times != [] && n <= |times|
    ensures After(times + [more], l, n) == After(times, l, n)
  {
    if n > 0 {
      AfterExtends(times, more, l, n - 1);
    }
  }

  /** The first decision is taken by a full bucket. */
  function LastBucket(times: seq<real>, l: Limits, now: real): Bucket {
    if times == [] then Bucket(l.burst, now) else After(times, l, |times|)
  }

  lemma VerdictsExtend(times: seq<real>, now: real, l: Limits)
    ensures After(times + [now], l, |times| + 1) == Decide(LastBucket(times, l, now), l, now).0
    ensures Verdicts(times + [now], l) == Verdicts(times, l) + [Decide(LastBucket(times, l, now), l, now).1]
  {
    hide Decide;
    var longer := times + [now];
    assert After(longer, l, |times|) == LastBucket(times, l, now) by {
      if times != [] {
        AfterExtends(times, now, l, |times|);
      }
    }
    forall k | 0 <= k < |times|
      ensures Allowed(longer, l, k) == Allowed(times, l, k)
    {
      AfterExtends(times, now, l, k);
    }
  }

  /** A bucket that is full again when next used at `now`. */
  predicate FullAt(b: Bucket, l: Limits, now: real) {
    b.tokens + Gain(l, now - b.last) >= l.burst
  }

  /**
   * What the map holds for `id`, against the bucket that was never pruned: that very bucket, or
   * nothing, and then the never-pruned bucket would be full at its next use anyway.
   */
  ghost predicate Tracks(m: Buckets, id: string, times: seq<real>, l: Limits, now: real) {
    if times == [] then id !in m
    else
      var b := After(times, l, |times|);
      && b.last <= now && (b.tokens >= 0.0 || b.tokens >= l.burst)
      && if id in m then m[id] == b else FullAt(b, l, now)
  }

  lemma FullAgain(b: Bucket, l: Limits, ttl: real, now: real)
    requires l.rate >= 0.0 && l.rate * ttl >= l.burst && b.last < now - ttl && b.last <= now
    requires b.tokens >= 0.0 || b.tokens >= l.burst
    ensures FullAt(b, l, now)
  {
    GainGrows(l, ttl, now - b.last);
    GainGrows(l, 0.0, now - b.last);
    GainOfNothing(l);
  }

  lemma FullLater(b: Bucket, l: Limits, now: real, later: real)
    requires l.rate >= 0.0 && FullAt(b, l, now) && now <= later
    ensures FullAt(b, l, later)
  {
    GainGrows(l, now - b.last, later - b.last);
  }

  lemma PruneTracks(m: Buckets, id: string, times: seq<real>, l: Limits, ttl: real, now: real, later: real)
    requires l.rate >= 0.0 && l.rate * ttl >= l.burst && now <= later
    requires Tracks(m, id, times, l, now)
    ensures Tracks(Pruned(m, ttl, later), id, times, l, later)
  {
    if times != [] {
      var b := After(times, l, |times|);
      if id !in m {
        FullLater(b, l, now, later);
      } else if b.last < later - ttl {
        FullAgain(b, l, ttl, later);
      }
    }
  }

  /** Two buckets that are full when used at `now` decide alike. */
  lemma FullDecidesAlike(a: Bucket, b: Bucket, l: Limits, now: real)
    requires FullAt(a, l, now) && FullAt(b, l, now)
    ensures Decide(a, l, now) == Decide(b, l, now)
  {
    hide Gain;
  }

  lemma DecideKeeps(b: Bucket, l: Limits, now: real)
    requires l.rate >= 0.0 && b.last <= now && (b.tokens >= 0.0 || b.tokens >= l.burst)
    ensures var after := Decide(b, l, now).0; after.last == now && (after.tokens >= 0.0 || after.tokens >= l.burst)
  {
    hide Gain;
    GainGrows(l, 0.0, now - b.last);
    GainOfNothing(l);
  }

  lemma NewIsFull(l: Limits, created: real, now: real)
    requires l.rate >= 0.0 && created <= now
    ensures FullAt(Bucket(l.burst, created), l, now)
  {
    GainGrows(l, 0.0, now - created);
    GainOfNothing(l);
  }

  /** A call of `id` is decided as the never-pruned bucket decides it. */
  lemma CallTracks(m: Buckets, id: string, times: seq<real>, l: Limits, now: real, created: real, later: real)
    requires l.rate >= 0.0 && now <= created <= later
    requires Tracks(m, id, times, l, now)
    ensures Tracks(AllowKey(m, l, id, created, later).0, id, times + [later], l, later)
    ensures Verdicts(times + [later], l) == Verdicts(times, l) + [AllowKey(m, l, id, created, later).1]
  {
    hide Decide, FullAt, Verdicts, After;
    var alone := LastBucket(times, l, later);
    VerdictsExtend(times, later, l);
    assert Decide(if id in m then m[id] else Bucket(l.burst, created), l, later) == Decide(alone, l, later) by {
      if id !in m {
        NewIsFull(l, created, later);
        NewIsFull(l, later, later);
        if times != [] {
          FullLater(alone, l, now, later);
        }
        FullDecidesAlike(Bucket(l.burst, created), alone, l, later);
      }
    }
    DecideKeeps(alone, l, later);
  }

  lemma OtherTracks(m: Buckets, id: string, times: seq<real>, l: Limits, now: real, other: string, created: real, later: real)
    requires l.rate >= 0.0 && now <= later && other != id && Tracks(m, id, times, l, now)
    ensures Tracks(AllowKey(m, l, other, created, later).0, id, times, l, later)
  {
    if times != [] && id !in m {
      FullLater(After(times, l, |times|), l, now, later);
    }
  }

  lemma NothingTracked(id: string, l: Limits, ttl: real, now: real)
    ensures Tracks(BucketsAfter([], l, ttl), id, TimesFor([], id), l, now)
    ensures DecisionsFor([], l, ttl, id) == Verdicts(TimesFor([], id), l) == []
  {
  }

  /** One event more: on the map, and on what a key has been told. */
  lemma Snoc(head: seq<Event>, e: Event, l: Limits, ttl: real, id: string)
    ensures BucketsAfter(head + [e], l, ttl) ==
            var m := BucketsAfter(head, l, ttl);
            if e.PruneAt? then Pruned(m, ttl, e.now) else AllowKey(m, l, e.id, e.created, e.now).0
    ensures if e.Call? && e.id == id then
              && TimesFor(head + [e], id) == TimesFor(head, id) + [e.now]
              && DecisionsFor(head + [e], l, ttl, id) ==
                 DecisionsFor(head, l, ttl, id) + [AllowKey(BucketsAfter(head, l, ttl), l, e.id, e.created, e.now).1]
            else
              && TimesFor(head + [e], id) == TimesFor(head, id)
              && DecisionsFor(head + [e], l, ttl, id) == DecisionsFor(head, l, ttl, id)
  {
    assert (head + [e])[..|head|] == head;
  }

  /**
   * With room to refill within the time to live, the decisions for a key, in any interleaving of
   * calls of any keys with prunes, are those of one bucket run on that key's calls alone.
   */
  lemma {:induction false} PruningIsInvisible(events: seq<Event>, l: Limits, ttl: real, id: string)
    requires Clocked(events) && l.rate >= 0.0 && l.rate * ttl >= l.burst
    ensures DecisionsFor(events, l, ttl, id) == Verdicts(TimesFor(events, id), l)
    ensures events != [] ==>
              Tracks(BucketsAfter(events, l, ttl), id, TimesFor(events, id), l, events[|events| - 1].now)
  {
    hide Tracks, Verdicts, Pruned, AllowKey, BucketsAfter, DecisionsFor, TimesFor;
    if events == [] {
      NothingTracked(id, l, ttl, 0.0);
    } else {
      var n := |events| - 1;
      var head, e := events[..n], events[n];
      assert events == head + [e];
      PruningIsInvisible(head, l, ttl, id);
      Snoc(head, e, l, ttl, id);
      var start := if e.Call? then e.created else e.now;
      var now := if n > 0 then head[n - 1].now else start;
      assert n > 0 ==> head[n - 1] == events[n - 1];
      assert now <= start <= e.now;
      if n == 0 {
        assert head == [];
        NothingTracked(id, l, ttl, now);
      }
      EventTracks(BucketsAfter(head, l, ttl), e, id, TimesFor(head, id), l, ttl, now);
    }
  }

  lemma EventTracks(m: Buckets, e: Event, id: string, times: seq<real>, l: Limits, ttl: real, now: real)
    requires l.rate >= 0.0 && l.rate * ttl >= l.burst && Tracks(m, id, times, l, now)
    requires now <= (if e.Call? then e.created else e.now) <= e.now
    ensures if e.PruneAt? then Tracks(Pruned(m, ttl, e.now), id, times, l, e.now)
            else if e.id != id then Tracks(AllowKey(m, l, e.id, e.created, e.now).0, id, times, l, e.now)
            else
              && Tracks(AllowKey(m, l, e.id, e.created, e.now).0, id, times + [e.now], l, e.now)
              && Verdicts(times + [e.now], l) == Verdicts(times, l) + [AllowKey(m, l, e.id, e.created, e.now).1]
  {
    hide Tracks, Verdicts, Pruned, AllowKey;
    match e
    case PruneAt(later) => PruneTracks(m, id, times, l, ttl, now, later);
    case Call(other, created, later) =>
      if other == id {
        CallTracks(m, id, times, l, now, created, later);
      } else {
        OtherTracks(m, id, times, l, now, other, created, later);
      }
  }

  /** The server's settings leave that room: 5 a second, burst 20, one hour. */
  lemma ServerSettingsHaveRoom(events: seq<Event>, id: string)
    requires Clocked(events)
    ensures DecisionsFor(events, Limits(5.0, 20.0), 3600.0, id) == Verdicts(TimesFor(events, id), Limits(5.0, 20.0))
  {
    PruningIsInvisible(events, Limits(5.0, 20.0), 3600.0, id);
  }

  function Drained(): seq<Event> {
    [Call("k", 0.0, 0.0)] + [Call("k", 0.0, 0.0)] + [PruneAt(1.5)] + [Call("k", 1.5, 1.5)] + [Call("k", 1.5, 1.5)]
  }

  /**
   * Without that room pruning shows: at one token a second, burst two and a second to live, the
   * pruned limiter allows a call that the lone bucket refuses.
   */
  lemma PruningShowsWithoutRoom()
    ensures Clocked(Drained()) && 1.0 * 1.0 < 2.0
    ensures DecisionsFor(Drained(), Limits(1.0, 2.0), 1.0, "k") == [true, true, true, true]
    ensures Verdicts(TimesFor(Drained(), "k"), Limits(1.0, 2.0)) == [true, true, true, false]
  {
    hide BucketsAfter, DecisionsFor, TimesFor, Verdicts, Decide;
    var l := Limits(1.0, 2.0);
    var call, late := Call("k", 0.0, 0.0), Call("k", 1.5, 1.5);
    var e1 := [] + [call];
    var e2 := e1 + [call];
    var e3 := e2 + [PruneAt(1.5)];
    var e4 := e3 + [late];
    SomeDecisions(l);
    NothingTracked("k", l, 1.0, 0.0);
    EmptyMap(l);
    Snoc([], call, l, 1.0, "k");
    Snoc(e1, call, l, 1.0, "k");
    Snoc(e2, PruneAt(1.5), l, 1.0, "k");
    assert BucketsAfter(e3, l, 1.0) == map[];
    Snoc(e3, late, l, 1.0, "k");
    Snoc(e4, late, l, 1.0, "k");
    assert Drained() == e4 + [late];
    assert TimesFor(Drained(), "k") == [0.0, 0.0, 1.5, 1.5];
    LoneBucketRefuses(l);
  }

  lemma SomeDecisions(l: Limits)
    requires l == Limits(1.0, 2.0)
    ensures Decide(Bucket(2.0, 0.0), l, 0.0) == (Bucket(1.0, 0.0), true)
    ensures Decide(Bucket(1.0, 0.0), l, 0.0) == (Bucket(0.0, 0.0), true)
    ensures Decide(Bucket(2.0, 1.5), l, 1.5) == (Bucket(1.0, 1.5), true)
    ensures Decide(Bucket(1.0, 1.5), l, 1.5) == (Bucket(0.0, 1.5), true)
    ensures Decide(Bucket(0.0, 0.0), l, 1.5) == (Bucket(0.5, 1.5), true)
    ensures Decide(Bucket(0.5, 1.5), l, 1.5) == (Bucket(0.5, 1.5), false)
  {
    OneASecond(0.0);
    OneASecond(1.5);
    hide Gain;
  }

  lemma OneASecond(elapsed: real)
    ensures Gain(Limits(1.0, 2.0), elapsed) == elapsed
  {
  }

  lemma EmptyMap(l: Limits)
    ensures BucketsAfter([], l, 1.0) == map[] && DecisionsFor([], l, 1.0, "k") == [] && TimesFor([], "k") == []
  {
  }

  lemma LoneBucketRefuses(l: Limits)
    requires l == Limits(1.0, 2.0)
    ensures Verdicts([0.0, 0.0, 1.5, 1.5], l) == [true, true, true, false]
  {
    hide Decide;
    SomeDecisions(l);
    var times := [0.0, 0.0, 1.5, 1.5];
    assert After(times, l, 1) == Bucket(1.0, 0.0);
    assert After(times, l, 2) == Bucket(0.0, 0.0);
    assert After(times, l, 3) == Bucket(0.5, 1.5);
  }
}
