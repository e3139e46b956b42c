/**
 * The limiter as its callers share it: the map lookup under one lock, the decision under another.
 *
 * Between the two, other callers look up and decide, and the map may be pruned. A prune that drops a
 * bucket somebody has looked up orphans it: the holder still decides with it, later callers do not.
 */
module RateSteps {
  import opened Wrappers
  import opened TokenBucket
  import opened RateLimit
  import opened RatePruning

  /** A bucket in memory, with the key it was made for. */
  datatype Cell = Cell(id: string, bucket: Bucket)

  /** `keys` names cells by their index; `held` is the cell each caller between its two steps has. */
  datatype State = State(keys: map<string, nat>, heap: seq<Cell>, held: map<nat, nat>)

  datatype Action =
    | Look(caller: nat, id: string, now: real)
    | Take(caller: nat, now: real)
    | Sweep(now: real)

  predicate Enabled(s: State, act: Action) {
    match act
    case Look(caller, _, _) => caller !in s.held
    case Take(caller, _) => caller in s.held && s.held[caller] < |s.heap|
    case Sweep(_) => true
  }

  predicate Idle(s: State, id: string, ttl: real, now: real) {
    id in s.keys && s.keys[id] < |s.heap| && s.heap[s.keys[id]].bucket.last < now - ttl
  }

  function Next(s: State, act: Action, l: Limits, ttl: real): State
    requires Enabled(s, act)
  {
    match act
    case Look(caller, id, now) =>
      if id in s.keys then s.(held := s.held[caller := s.keys[id]])
      else State(s.keys[id := |s.heap|], s.heap + [Cell(id, Bucket(l.burst, now))], s.held[caller := |s.heap|])
    case Take(caller, now) =>
      var i := s.held[caller];
      s.(heap := s.heap[i := s.heap[i].(bucket := Decide(s.heap[i].bucket, l, now).0)], held := s.held - {caller})
    case Sweep(now) => s.(keys := map id | id in s.keys && !Idle(s, id, ttl, now) :: s.keys[id])
  }

  // ---------- runs ----------

  function Run(acts: seq<Action>, l: Limits, ttl: real): Option<State> {
    if acts == [] then Some(State(map[], [], map[]))
    else
      var n := |acts| - 1;
      var before := Run(acts[..n], l, ttl);
      if before.Some? && Enabled(before.value, acts[n]) then Some(Next(before.value, acts[n], l, ttl)) else None
  }

  predicate Legal(acts: seq<Action>, l: Limits, ttl: real) {
    Run(acts, l, ttl).Some?
  }

  ghost predicate InTime(acts: seq<Action>) {
    forall i, j :: 0 <= i < j < |acts| ==> acts[i].now <= acts[j].now
  }

  /** The action decides a call of `id`. */
  predicate Decides(s: State, act: Action, id: string) {
    act.Take? && Enabled(s, act) && s.heap[s.held[act.caller]].id == id
  }

  /** The times at which calls of `id` are decided. */
  function Times(acts: seq<Action>, l: Limits, ttl: real, id: string): seq<real>
    requires Legal(acts, l, ttl)
  {
    if acts == [] then []
    else
      var n := |acts| - 1;
      Times(acts[..n], l, ttl, id) + if Decides(Run(acts[..n], l, ttl).value, acts[n], id) then [acts[n].now] else []
  }

  function Decisions(acts: seq<Action>, l: Limits, ttl: real, id: string): seq<bool>
    requires Legal(acts, l, ttl)
  {
    if acts == [] then []
    else
      var n := |acts| - 1;
      var s := Run(acts[..n], l, ttl).value;
      Decisions(acts[..n], l, ttl, id) +
      if Decides(s, acts[n], id) then [Decide(s.heap[s.held[acts[n].caller]].bucket, l, acts[n].now).1] else []
  }

  /** The action prunes the bucket of `id` while a caller has it in hand. */
  ghost predicate Orphans(s: State, act: Action, ttl: real, id: string) {
    act.Sweep? && Idle(s, id, ttl, act.now) && exists caller :: caller in s.held && s.held[caller] == s.keys[id]
  }

  ghost predicate NeverOrphans(acts: seq<Action>, l: Limits, ttl: real, id: string)
    requires Legal(acts, l, ttl)
  {
    acts == [] ||
    var n := |acts| - 1;
    NeverOrphans(acts[..n], l, ttl, id) && !Orphans(Run(acts[..n], l, ttl).value, acts[n], ttl, id)
  }

  /** One action more. */
  lemma OneMore(acts: seq<Action>, act: Action, l: Limits, ttl: real, id: string)
    requires Legal(acts, l, ttl) && Enabled(Run(acts, l, ttl).value, act)
    ensures var s := Run(acts, l, ttl).value;
            && Run(acts + [act], l, ttl) == Some(Next(s, act, l, ttl))
            && (NeverOrphans(acts + [act], l, ttl, id) <==> NeverOrphans(acts, l, ttl, id) && !Orphans(s, act, ttl, id))
            && if Decides(s, act, id) then
                 && Times(acts + [act], l, ttl, id) == Times(acts, l, ttl, id) + [act.now]
                 && Decisions(acts + [act], l, ttl, id) ==
                    Decisions(acts, l, ttl, id) + [Decide(s.heap[s.held[act.caller]].bucket, l, act.now).1]
               else
                 && Times(acts + [act], l, ttl, id) == Times(acts, l, ttl, id)
                 && Decisions(acts + [act], l, ttl, id) == Decisions(acts, l, ttl, id)
  {
    assert (acts + [act])[..|acts|] == acts;
    hide Next, Decide, Orphans;
  }

  /**
   * Nobody waits for anybody: any caller that is not between its two steps may look, any that is may
   * take, whoever else is between theirs, and a prune may run at any time.
   */
  lemma NothingHoldsBack(acts: seq<Action>, l: Limits, ttl: real, caller: nat, id: string, now: real)
    requires Legal(acts, l, ttl)
    ensures var s := Run(acts, l, ttl).value;
            && Legal(acts + [Sweep(now)], l, ttl)
            && (caller !in s.held <==> Legal(acts + [Look(caller, id, now)], l, ttl))
            && (caller in s.held <==> Legal(acts + [Take(caller, now)], l, ttl))
  {
    hide Next, Run;
    EveryRunIndexed(acts, l, ttl);
    LegalSnoc(acts, Sweep(now), l, ttl);
    LegalSnoc(acts, Look(caller, id, now), l, ttl);
    LegalSnoc(acts, Take(caller, now), l, ttl);
  }

  lemma LegalSnoc(acts: seq<Action>, act: Action, l: Limits, ttl: real)
    requires Legal(acts, l, ttl)
    ensures Legal(acts + [act], l, ttl) <==> Enabled(Run(acts, l, ttl).value, act)
  {
    assert (acts + [act])[..|acts|] == acts;
  }

  lemma {:induction false} EveryRunIndexed(acts: seq<Action>, l: Limits, ttl: real)
    requires Legal(acts, l, ttl)
    ensures Indexed(Run(acts, l, ttl).value)
  {
    if acts != [] {
      var n := |acts| - 1;
      EveryRunIndexed(acts[..n], l, ttl);
      StepIndexed(Run(acts[..n], l, ttl).value, acts[n], l, ttl);
    }
  }

  lemma StepIndexed(s: State, act: Action, l: Limits, ttl: real)
    requires Indexed(s) && Enabled(s, act)
    ensures Indexed(Next(s, act, l, ttl))
  {
    hide Decide;
  }

  // ---------- the lone bucket, again ----------

  ghost predicate Sane(b: Bucket, l: Limits, now: real) {
    b.last <= now && (b.tokens >= 0.0 || b.tokens >= l.burst)
  }

  /** The never-pruned bucket, if it has been used at all, is full when used at `now`. */
  ghost predicate LoneFull(times: seq<real>, l: Limits, now: real) {
    times == [] || FullAt(After(times, l, |times|), l, now)
  }

  /** `b` decides as the never-pruned bucket does, from `now` on. */
  ghost predicate Alike(b: Bucket, times: seq<real>, l: Limits, now: real) {
    && Sane(b, l, now)
    && ((times != [] && b == After(times, l, |times|)) || (FullAt(b, l, now) && LoneFull(times, l, now)))
  }

  ghost predicate Indexed(s: State) {
    && (forall caller :: caller in s.held ==> s.held[caller] < |s.heap|)
    && (forall id :: id in s.keys ==> s.keys[id] < |s.heap| && s.heap[s.keys[id]].id == id)
  }

  /** Whoever holds a bucket of `id` holds the one in the map. */
  ghost predicate Shared(s: State, id: string)
    requires Indexed(s)
  {
    forall caller :: caller in s.held && s.heap[s.held[caller]].id == id ==> id in s.keys && s.held[caller] == s.keys[id]
  }

  ghost predicate Follows(s: State, id: string, times: seq<real>, l: Limits, now: real) {
    && Indexed(s) && Shared(s, id)
    && (times != [] ==> Sane(After(times, l, |times|), l, now))
    && if id in s.keys then Alike(s.heap[s.keys[id]].bucket, times, l, now) else LoneFull(times, l, now)
  }

  lemma Later(s: State, id: string, times: seq<real>, l: Limits, now: real, later: real)
    requires l.rate >= 0.0 && now <= later && Follows(s, id, times, l, now)
    ensures Follows(s, id, times, l, later)
  {
    if times != [] && LoneFull(times, l, now) {
      FullLater(After(times, l, |times|), l, now, later);
    }
    if id in s.keys && FullAt(s.heap[s.keys[id]].bucket, l, now) {
      FullLater(s.heap[s.keys[id]].bucket, l, now, later);
    }
  }

  lemma LookFollows(s: State, act: Action, l: Limits, ttl: real, id: string, times: seq<real>)
    requires l.rate >= 0.0 && act.Look? && Enabled(s, act) && Follows(s, id, times, l, act.now)
    ensures Follows(Next(s, act, l, ttl), id, times, l, act.now)
  {
    NewIsFull(l, act.now, act.now);
    hide FullAt, After;
  }

  /** A bucket with which the lone bucket agrees decides as it does. */
  lemma AlikeDecides(b: Bucket, times: seq<real>, l: Limits, now: real)
    requires l.rate >= 0.0 && Alike(b, times, l, now)
    ensures Decide(b, l, now) == Decide(LastBucket(times, l, now), l, now)
  {
    hide Decide, FullAt;
    NewIsFull(l, now, now);
    if !(times != [] && b == After(times, l, |times|)) {
      FullDecidesAlike(b, LastBucket(times, l, now), l, now);
    }
  }

  lemma TakeFollows(s: State, act: Action, l: Limits, ttl: real, id: string, times: seq<real>)
    requires l.rate >= 0.0 && act.Take? && Enabled(s, act) && Follows(s, id, times, l, act.now)
    ensures if Decides(s, act, id) then
              && Follows(Next(s, act, l, ttl), id, times + [act.now], l, act.now)
              && Verdicts(times + [act.now], l) ==
                 Verdicts(times, l) + [Decide(s.heap[s.held[act.caller]].bucket, l, act.now).1]
            else Follows(Next(s, act, l, ttl), id, times, l, act.now)
  {
    hide Decide, FullAt, After, Verdicts;
    if Decides(s, act, id) {
      var b := s.heap[s.keys[id]].bucket;
      AlikeDecides(b, times, l, act.now);
      VerdictsExtend(times, act.now, l);
      DecideKeeps(b, l, act.now);
    }
  }

  lemma SweepFollows(s: State, act: Action, l: Limits, ttl: real, id: string, times: seq<real>)
    requires l.rate >= 0.0 && l.rate * ttl >= l.burst && act.Sweep? && !Orphans(s, act, ttl, id)
    requires exists now :: now <= act.now && Follows(s, id, times, l, now)
    ensures Follows(Next(s, act, l, ttl), id, times, l, act.now)
  {
    var now :| now <= act.now && Follows(s, id, times, l, now);
    Later(s, id, times, l, now, act.now);
    if Idle(s, id, ttl, act.now) {
      var b := s.heap[s.keys[id]].bucket;
      FullAgain(b, l, ttl, act.now);
    }
    hide FullAt, After;
  }

  lemma ActionFollows(s: State, act: Action, l: Limits, ttl: real, id: string, times: seq<real>, now: real)
    requires l.rate >= 0.0 && l.rate * ttl >= l.burst && Enabled(s, act) && now <= act.now
    requires Follows(s, id, times, l, now) && !Orphans(s, act, ttl, id)
    ensures if Decides(s, act, id) then
              && Follows(Next(s, act, l, ttl), id, times + [act.now], l, act.now)
              && Verdicts(times + [act.now], l) ==
                 Verdicts(times, l) + [Decide(s.heap[s.held[act.caller]].bucket, l, act.now).1]
            else Follows(Next(s, act, l, ttl), id, times, l, act.now)
  {
    hide Follows, Next, Verdicts;
    Later(s, id, times, l, now, act.now);
    match act
    case Look(_, _, _) => LookFollows(s, act, l, ttl, id, times);
    case Take(_, _) => TakeFollows(s, act, l, ttl, id, times);
    case Sweep(_) => SweepFollows(s, act, l, ttl, id, times);
  }

  /**
   * With room to refill, and unless a prune drops a bucket of the key between a lookup and its
   * decision, the key's calls are decided as one bucket decides them alone, however lookups, decisions
   * and prunes interleave.
   */
  lemma {:induction false} UnlessOrphaned(acts: seq<Action>, l: Limits, ttl: real, id: string)
    requires l.rate >= 0.0 && l.rate * ttl >= l.burst
    requires Legal(acts, l, ttl) && InTime(acts) && NeverOrphans(acts, l, ttl, id)
    ensures Decisions(acts, l, ttl, id) == Verdicts(Times(acts, l, ttl, id), l)
    ensures acts != [] ==>
              Follows(Run(acts, l, ttl).value, id, Times(acts, l, ttl, id), l, acts[|acts| - 1].now)
  {
    hide Follows, Verdicts, Next, Enabled, Decides, Orphans, Decide, Run, Times, Decisions, NeverOrphans;
    if acts == [] {
      NothingYet(l, ttl, id);
    } else {
      var n := |acts| - 1;
      var head, act := acts[..n], acts[n];
      assert acts == head + [act];
      LastAction(head, act, l, ttl);
      OneMore(head, act, l, ttl, id);
      UnlessOrphaned(head, l, ttl, id);
      var now := if n > 0 then head[n - 1].now else act.now;
      assert n > 0 ==> head[n - 1] == acts[n - 1];
      if n == 0 {
        NothingYet(l, ttl, id);
        EmptyFollows(id, l, now);
      }
      ActionFollows(Run(head, l, ttl).value, act, l, ttl, id, Times(head, l, ttl, id), now);
    }
  }

  lemma LastAction(head: seq<Action>, act: Action, l: Limits, ttl: real)
    requires Legal(head + [act], l, ttl)
    ensures Legal(head, l, ttl) && Enabled(Run(head, l, ttl).value, act)
  {
    assert (head + [act])[..|head|] == head;
  }

  lemma NothingYet(l: Limits, ttl: real, id: string)
    ensures Run([], l, ttl) == Some(State(map[], [], map[]))
    ensures Times([], l, ttl, id) == [] && Decisions([], l, ttl, id) == Verdicts([], l) && NeverOrphans([], l, ttl, id)
  {
  }

  lemma EmptyFollows(id: string, l: Limits, now: real)
    ensures Follows(State(map[], [], map[]), id, [], l, now)
  {
  }

  // ---------- the atomic limiter is the runs in which nobody comes in between ----------

  /** What the map says of each key. */
  ghost function View(s: State): Buckets
    requires Indexed(s)
  {
    map id | id in s.keys :: s.heap[s.keys[id]].bucket
  }

  lemma LookThenTake(s: State, l: Limits, ttl: real, id: string, created: real, now: real)
    requires Indexed(s) && s.held == map[]
    ensures var looked := Next(s, Look(0, id, created), l, ttl);
            && Decides(looked, Take(0, now), id)
            && var taken := Next(looked, Take(0, now), l, ttl);
               && Indexed(taken) && taken.held == map[]
               && (View(taken), Decide(looked.heap[looked.held[0]].bucket, l, now).1) == AllowKey(View(s), l, id, created, now)
  {
    hide Decide;
    var looked := Next(s, Look(0, id, created), l, ttl);
    var taken := Next(looked, Take(0, now), l, ttl);
    assert View(taken) == AllowKey(View(s), l, id, created, now).0;
  }

  lemma SweepIsPruned(s: State, l: Limits, ttl: real, now: real)
    requires Indexed(s)
    ensures Indexed(Next(s, Sweep(now), l, ttl)) && View(Next(s, Sweep(now), l, ttl)) == Pruned(View(s), ttl, now)
  {
  }

  ghost predicate EndsBy(acts: seq<Action>, now: real) {
    forall i :: 0 <= i < |acts| ==> acts[i].now <= now
  }

  lemma InTimeSnoc(acts: seq<Action>, act: Action, now: real)
    requires InTime(acts) && EndsBy(acts, now) && now <= act.now
    ensures InTime(acts + [act]) && EndsBy(acts + [act], act.now)
  {
  }

  /** A call with nobody in between, as two actions. */
  function Called(acts: seq<Action>, id: string, created: real, now: real): seq<Action> {
    acts + [Look(0, id, created)] + [Take(0, now)]
  }

  lemma CallAlone(acts: seq<Action>, l: Limits, ttl: real, id: string, key: string, created: real, now: real)
    requires Legal(acts, l, ttl) && Indexed(Run(acts, l, ttl).value) && Run(acts, l, ttl).value.held == map[]
    ensures var more := Called(acts, id, created, now); var m := View(Run(acts, l, ttl).value);
            && Legal(more, l, ttl) && Indexed(Run(more, l, ttl).value) && Run(more, l, ttl).value.held == map[]
            && View(Run(more, l, ttl).value) == AllowKey(m, l, id, created, now).0
            && Times(more, l, ttl, key) == Times(acts, l, ttl, key) + (if id == key then [now] else [])
            && Decisions(more, l, ttl, key) ==
               Decisions(acts, l, ttl, key) + (if id == key then [AllowKey(m, l, id, created, now).1] else [])
            && (NeverOrphans(acts, l, ttl, key) ==> NeverOrphans(more, l, ttl, key))
  {
    hide Run, Times, Decisions, NeverOrphans, Decide, AllowKey, View;
    var s := Run(acts, l, ttl).value;
    var look, take := Look(0, id, created), Take(0, now);
    LookThenTake(s, l, ttl, id, created, now);
    OneMore(acts, look, l, ttl, key);
    OneMore(acts + [look], take, l, ttl, key);
    assert Decides(Next(s, look, l, ttl), take, key) <==> id == key;
  }

  lemma CallInTime(acts: seq<Action>, id: string, start: real, created: real, now: real)
    requires InTime(acts) && EndsBy(acts, start) && start <= created <= now
    ensures InTime(Called(acts, id, created, now)) && EndsBy(Called(acts, id, created, now), now)
  {
    InTimeSnoc(acts, Look(0, id, created), start);
    InTimeSnoc(acts + [Look(0, id, created)], Take(0, now), created);
  }

  /** The run of the interleaved limiter in which the events of the atomic one happen one after the other. */
  function OneByOne(events: seq<Event>): seq<Action> {
    if events == [] then []
    else
      var acts := OneByOne(events[..|events| - 1]);
      match events[|events| - 1]
      case Call(id, created, now) => Called(acts, id, created, now)
      case PruneAt(now) => acts + [Sweep(now)]
  }

  /** That run decides the calls of every key as the atomic limiter does, at the same times, and orphans no bucket. */
  lemma Embeds(events: seq<Event>, l: Limits, ttl: real)
    ensures var acts := OneByOne(events);
            && Legal(acts, l, ttl)
            && (Clocked(events) ==> InTime(acts))
            && forall key :: Times(acts, l, ttl, key) == TimesFor(events, key) &&
                 Decisions(acts, l, ttl, key) == DecisionsFor(events, l, ttl, key) && NeverOrphans(acts, l, ttl, key)
  {
    hide Run, Times, Decisions, NeverOrphans, TimesFor, DecisionsFor, Clocked, InTime;
    forall key
      ensures Legal(OneByOne(events), l, ttl)
      ensures var acts := OneByOne(events);
              Times(acts, l, ttl, key) == TimesFor(events, key) &&
              Decisions(acts, l, ttl, key) == DecisionsFor(events, l, ttl, key) && NeverOrphans(acts, l, ttl, key)
    {
      EmbedsKey(events, l, ttl, key);
    }
    EmbedsKey(events, l, ttl, KEY);
    if Clocked(events) {
      EmbedsInTime(events);
    }
  }

  lemma {:induction false} EmbedsInTime(events: seq<Event>)
    requires Clocked(events)
    ensures InTime(OneByOne(events)) && (events != [] ==> EndsBy(OneByOne(events), events[|events| - 1].now))
  {
    if events != [] {
      var n := |events| - 1;
      EmbedsInTime(events[..n]);
      var acts, e := OneByOne(events[..n]), events[n];
      var start := if n > 0 then events[n - 1].now else if e.Call? then e.created else e.now;
      hide OneByOne;
      match e
      case Call(id, created, now) => CallInTime(acts, id, start, created, now);
      case PruneAt(now) => InTimeSnoc(acts, Sweep(now), start);
    }
  }

  lemma {:induction false} EmbedsKey(events: seq<Event>, l: Limits, ttl: real, key: string)
    ensures var acts := OneByOne(events);
            && Legal(acts, l, ttl) && Indexed(Run(acts, l, ttl).value) && Run(acts, l, ttl).value.held == map[]
            && View(Run(acts, l, ttl).value) == BucketsAfter(events, l, ttl)
            && Times(acts, l, ttl, key) == TimesFor(events, key) && Decisions(acts, l, ttl, key) == DecisionsFor(events, l, ttl, key)
            && NeverOrphans(acts, l, ttl, key)
  {
    hide Run, Times, Decisions, NeverOrphans, BucketsAfter, TimesFor, DecisionsFor, Next, AllowKey, Decide, Verdicts, Called;
    if events == [] {
      NothingYet(l, ttl, key);
      NothingTracked(key, l, ttl, 0.0);
      NoBuckets(l, ttl);
    } else {
      var n := |events| - 1;
      var head, e := events[..n], events[n];
      assert events == head + [e];
      EmbedsKey(head, l, ttl, key);
      Snoc(head, e, l, ttl, key);
      var acts := OneByOne(head);
      match e
      case Call(id, created, now) => CallAlone(acts, l, ttl, id, key, created, now);
      case PruneAt(now) =>
        var s := Run(acts, l, ttl).value;
        OneMore(acts, Sweep(now), l, ttl, key);
        SweepIsPruned(s, l, ttl, now);
        assert Next(s, Sweep(now), l, ttl).held == map[] by { SweepHolds(s, l, ttl, now); }
    }
  }

  lemma NoBuckets(l: Limits, ttl: real)
    ensures BucketsAfter([], l, ttl) == map[] && TimesFor([], KEY) == []
    ensures View(State(map[], [], map[])) == map[]
  {
  }

  lemma SweepHolds(s: State, l: Limits, ttl: real, now: real)
    ensures Next(s, Sweep(now), l, ttl).held == s.held
  {
  }

  // ---------- exactly when ----------

  lemma {:induction false} NoneAllowed(acts: seq<Action>, l: Limits, ttl: real, id: string)
    requires l.burst < 1.0 && Legal(acts, l, ttl)
    ensures Decisions(acts, l, ttl, id) == Verdicts(Times(acts, l, ttl, id), l)
  {
    hide Verdicts, Next, Enabled, Decides, Orphans, Run, Times, Decisions, NeverOrphans;
    if acts == [] {
      NothingYet(l, ttl, id);
    } else {
      var n := |acts| - 1;
      assert acts == acts[..n] + [acts[n]];
      LastAction(acts[..n], acts[n], l, ttl);
      OneMore(acts[..n], acts[n], l, ttl, id);
      NoneAllowed(acts[..n], l, ttl, id);
      VerdictsExtend(Times(acts[..n], l, ttl, id), acts[n].now, l);
    }
  }

  ghost predicate InvisibleUnlessOrphaned(l: Limits, ttl: real) {
    forall acts, id :: Legal(acts, l, ttl) && InTime(acts) && NeverOrphans(acts, l, ttl, id) ==>
      Decisions(acts, l, ttl, id) == Verdicts(Times(acts, l, ttl, id), l)
  }

  /** Short of orphaning, interleaving adds no condition to that of the atomic limiter. */
  lemma UnlessOrphanedExactly(l: Limits, ttl: real)
    requires l.rate >= 0.0
    ensures InvisibleUnlessOrphaned(l, ttl) <==> l.burst < 1.0 || l.rate * ttl >= l.burst
  {
    hide Verdicts, Run, Times, Decisions, NeverOrphans, DecisionsFor, TimesFor, Clocked, InTime;
    InvisibleExactly(l, ttl);
    if l.burst < 1.0 || l.rate * ttl >= l.burst {
      forall acts, id | Legal(acts, l, ttl) && InTime(acts) && NeverOrphans(acts, l, ttl, id)
        ensures Decisions(acts, l, ttl, id) == Verdicts(Times(acts, l, ttl, id), l)
      {
        if l.burst < 1.0 {
          NoneAllowed(acts, l, ttl, id);
        } else {
          UnlessOrphaned(acts, l, ttl, id);
        }
      }
    } else {
      var events, id :| Clocked(events) && DecisionsFor(events, l, ttl, id) != Verdicts(TimesFor(events, id), l);
      Embeds(events, l, ttl);
      assert NeverOrphans(OneByOne(events), l, ttl, id);
    }
  }

  ghost predicate AlwaysInvisible(l: Limits, ttl: real) {
    forall acts, id :: Legal(acts, l, ttl) && InTime(acts) ==>
      Decisions(acts, l, ttl, id) == Verdicts(Times(acts, l, ttl, id), l)
  }

  /** A run all of whose `k` calls of the key were decided at `now`, and accepted. */
  ghost predicate AtOnce(acts: seq<Action>, l: Limits, ttl: real, now: real, tokens: real, k: nat) {
    && Legal(acts, l, ttl) && InTime(acts) && EndsBy(acts, now)
    && Indexed(Run(acts, l, ttl).value) && Run(acts, l, ttl).value.held == map[]
    && Ready(View(Run(acts, l, ttl).value), l, now) == tokens
    && |Decisions(acts, l, ttl, KEY)| == |Times(acts, l, ttl, KEY)| == k && AllTrue(Decisions(acts, l, ttl, KEY))
    && forall i :: 0 <= i < k ==> Times(acts, l, ttl, KEY)[i] == now
  }

  lemma SpendsOne(m: Buckets, l: Limits, now: real, tokens: real)
    requires Ready(m, l, now) == tokens && 1.0 <= tokens <= l.burst
    ensures AllowKey(m, l, KEY, now, now).1 && Ready(AllowKey(m, l, KEY, now, now).0, l, now) == tokens - 1.0
  {
    GainOfNothing(l);
  }

  lemma OneAtOnce(acts: seq<Action>, l: Limits, ttl: real, now: real, tokens: real, k: nat)
    requires AtOnce(acts, l, ttl, now, tokens, k) && 1.0 <= tokens <= l.burst
    ensures AtOnce(Called(acts, KEY, now, now), l, ttl, now, tokens - 1.0, k + 1)
  {
    CallAlone(acts, l, ttl, KEY, KEY, now, now);
    CallInTime(acts, KEY, now, now, now);
    SpendsOne(View(Run(acts, l, ttl).value), l, now, tokens);
    hide Run, Times, Decisions, InTime, EndsBy, NeverOrphans, View, Ready, AllowKey, Decide, Called, Indexed;
  }

  lemma {:induction false} MoreAtOnce(acts: seq<Action>, l: Limits, ttl: real, now: real, k: nat, n: nat)
    returns (more: seq<Action>)
    requires AtOnce(acts, l, ttl, now, l.burst, k) && n as real <= l.burst
    ensures AtOnce(more, l, ttl, now, l.burst - n as real, k + n)
  {
    hide AtOnce, Called;
    if n == 0 {
      more := acts;
    } else {
      var most := MoreAtOnce(acts, l, ttl, now, k, n - 1);
      OneAtOnce(most, l, ttl, now, l.burst - (n - 1) as real, k + n - 1);
      more := Called(most, KEY, now, now);
    }
  }

  /** A caller looks the bucket up, a prune drops it, and the caller spends from it all the same. */
  lemma OrphanedCall(l: Limits, ttl: real) returns (acts: seq<Action>, now: real)
    requires l.rate >= 0.0 && l.burst >= 1.0
    ensures AtOnce(acts, l, ttl, now, l.burst, 1)
  {
    hide Run, Times, Decisions, NeverOrphans, Next;
    now := if ttl < 0.0 then 0.0 else ttl + 1.0;
    var look, sweep, take := Look(0, KEY, 0.0), Sweep(now), Take(0, now);
    var b := Bucket(l.burst, 0.0);
    var s0 := State(map[], [], map[]);
    var s1 := State(map[KEY := 0], [Cell(KEY, b)], map[0 := 0]);
    var s2 := s1.(keys := map[]);
    NothingYet(l, ttl, KEY);
    NoBuckets(l, ttl);
    OrphanSteps(l, ttl, now);
    OneMore([], look, l, ttl, KEY);
    OneMore([] + [look], sweep, l, ttl, KEY);
    OneMore([] + [look] + [sweep], take, l, ttl, KEY);
    acts := [] + [look] + [sweep] + [take];
    assert |Verdicts([], l)| == 0;
    GainGrows(l, 0.0, now);
    GainOfNothing(l);
  }

  lemma OrphanSteps(l: Limits, ttl: real, now: real)
    requires now == if ttl < 0.0 then 0.0 else ttl + 1.0
    ensures var s1 := State(map[KEY := 0], [Cell(KEY, Bucket(l.burst, 0.0))], map[0 := 0]);
            && Next(State(map[], [], map[]), Look(0, KEY, 0.0), l, ttl) == s1
            && Next(s1, Sweep(now), l, ttl) == s1.(keys := map[])
            && Next(s1.(keys := map[]), Take(0, now), l, ttl) ==
               State(map[], [Cell(KEY, Decide(Bucket(l.burst, 0.0), l, now).0)], map[])
  {
    hide Decide;
  }

  /** If prunes may orphan buckets, no time to live makes them invisible: only a bucket too small to use does. */
  lemma AlwaysInvisibleExactly(l: Limits, ttl: real)
    requires l.rate >= 0.0
    ensures AlwaysInvisible(l, ttl) <==> l.burst < 1.0
  {
    hide Run, Times, Decisions, NeverOrphans, Verdicts, InTime;
    if l.burst < 1.0 {
      forall acts, id | Legal(acts, l, ttl) && InTime(acts)
        ensures Decisions(acts, l, ttl, id) == Verdicts(Times(acts, l, ttl, id), l)
      {
        NoneAllowed(acts, l, ttl, id);
      }
    } else {
      var n := l.burst.Floor;
      var one, now := OrphanedCall(l, ttl);
      var acts := MoreAtOnce(one, l, ttl, now, 1, n);
      NotAllVerdicts(Times(acts, l, ttl, KEY), l, now);
      assert Decisions(acts, l, ttl, KEY) != Verdicts(Times(acts, l, ttl, KEY), l);
    }
  }

  /** More calls at one moment than the burst: the lone bucket refuses one of them. */
  lemma NotAllVerdicts(times: seq<real>, l: Limits, now: real)
    requires |times| > 0 && |times| as real > l.burst && forall i :: 0 <= i < |times| ==> times[i] == now
    ensures !AllTrue(Verdicts(times, l))
  {
    hide Allowed;
    var k := |times| - 1;
    AllowedIffRoom(times, l, k);
    GainOfNothing(l);
    assert Allowed(times, l, k) ==> HasRoom(times, l, 0, k);
    if AllTrue(Verdicts(times, l)) {
      forall i | 0 <= i < |times|
        ensures Allowed(times, l, i)
      {
        assert Verdicts(times, l)[i];
      }
      AllAccepted(times, l, k);
    }
  }
}
