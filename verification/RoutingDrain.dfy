/** Neither table leaks: once calls and connections stop arriving, a bounded number of steps empties both. */
module RoutingDrain {
  import opened Bindings
  import opened Routing
  import opened RoutingInvariant

  /** An upper bound on the steps a call has left when a snapshot returns at most `b` devices. */
  function StepsLeft(pc: Pc, b: nat): nat {
    match pc
    case Start => 2 * b + 8
    case Snapped(devices) => |devices| + b + 7
    case Writing(devices, i, _) => (if i <= |devices| then |devices| - i else 0) + b + 6
    case Waiting => b + 5
    case Leaving(_) => b + 4
    case Removed(_) => b + 3
    case Withdrawing(_, devices, i) => (if i <= |devices| then |devices| - i else 0) + 1
    case Done(_) => 0
  }

  function Budget(calls: seq<Call>, b: nat): nat {
    if calls == [] then 0 else Budget(calls[..|calls| - 1], b) + StepsLeft(calls[|calls| - 1].pc, b)
  }

  lemma {:induction false} BudgetUpdate(calls: seq<Call>, c: nat, call: Call, b: nat)
    requires c < |calls|
    ensures Budget(calls[c := call], b) == Budget(calls, b) - StepsLeft(calls[c].pc, b) + StepsLeft(call.pc, b)
  {
    var n := |calls| - 1;
    if c == n {
      assert calls[c := call][..n] == calls[..n];
    } else {
      assert calls[c := call][..n] == calls[..n][c := call];
      BudgetUpdate(calls[..n], c, call, b);
    }
  }

  lemma {:induction false} FewerServe(live: seq<AgentConn>, acc: Account, a: AgentConn)
    ensures |Serving(live, acc)| <= |live| && |Without(live, a)| <= |live|
  {
    if live != [] {
      FewerServe(live[..|live| - 1], acc, a);
    }
  }

  /** Neither a new call nor a new connection. */
  predicate Quiet(act: Action) {
    !act.Begin? && !act.Connect?
  }

  function Advances(acts: seq<Action>): nat {
    if acts == [] then 0 else Advances(acts[..|acts| - 1]) + if acts[|acts| - 1].Advance? then 1 else 0
  }

  lemma MovedBudget(call: Call, devices: seq<AgentConn>, ok: bool, b: nat)
    requires CanMove(call, ok) && |devices| <= b
    ensures StepsLeft(Moved(call, devices, ok).pc, b) < StepsLeft(call.pc, b)
  {
  }

  lemma AdvanceBudget(s: State, c: nat, ok: bool, b: nat)
    requires Agrees(s.bindings, s.live) && Distinct(s.live) && Enabled(s, Advance(c, ok)) && |s.live| <= b
    ensures AdvanceCall(s, c, ok).live == s.live
    ensures Budget(AdvanceCall(s, c, ok).calls, b) < Budget(s.calls, b)
  {
    var call := s.calls[c];
    var devices := DevicesFor(s.bindings, call.account);
    DevicesExact(s.bindings, s.live, call.account);
    FewerServe(s.live, call.account, AgentConn(0, "", []));
    MovedBudget(call, devices, ok, b);
    BudgetUpdate(s.calls, c, Moved(call, devices, ok), b);
  }

  /** Each step of a call uses up budget; no other quiet step adds any. */
  lemma QuietStep(s: State, act: Action, b: nat)
    requires Inv(s) && Enabled(s, act) && Quiet(act) && |s.live| <= b
    ensures |Next(s, act).live| <= b
    ensures Budget(Next(s, act).calls, b) + (if act.Advance? then 1 else 0) <= Budget(s.calls, b)
  {
    match act
    case Disconnect(a) => FewerServe(s.live, "", a);
    case Advance(c, ok) => AdvanceBudget(s, c, ok, b);
    case Deliver(a) =>
      var d := s.inflight[a];
      if d.waiter.Some? && d.waiter.value < |s.calls| {
        BudgetUpdate(s.calls, d.waiter.value, Offer(s.calls[d.waiter.value], d.reply), b);
      }
    case _ =>
  }

  /** After `acts`, any quiet continuation takes at most the budget's number of call steps. */
  lemma {:induction false} QuietRunIsBounded(acts: seq<Action>, more: seq<Action>)
    requires Legal(acts) && Legal(acts + more) && forall i :: 0 <= i < |more| ==> Quiet(more[i])
    ensures var b := |After(acts).live|;
            && |After(acts + more).live| <= b
            && Budget(After(acts + more).calls, b) + Advances(more) <= Budget(After(acts).calls, b)
  {
    if more == [] {
      assert acts + more == acts;
    } else {
      var n := |more| - 1;
      var before := acts + more[..n];
      assert (acts + more)[..|acts| + n] == before;
      QuietRunIsBounded(acts, more[..n]);
      EveryRunKeeps(before);
      QuietStep(After(before), more[n], |After(acts).live|);
    }
  }

  lemma NoneRegistered(m: map<Id, nat>, calls: seq<Call>, kind: Kind)
    requires TableExact(m, calls, kind)
    requires forall c :: 0 <= c < |calls| ==> !Registered(calls[c].pc)
    ensures m == map[]
  {
    forall id
      ensures id !in m
    {
    }
  }

  /** A call that is not done can always move, since a wait may expire; so rest means empty tables. */
  lemma RestMeansEmpty(acts: seq<Action>)
    requires Legal(acts)
    requires forall c :: 0 <= c < |After(acts).calls| ==> !Enabled(After(acts), Advance(c, false))
    ensures After(acts).pending == map[] && After(acts).queryPending == map[]
  {
    EveryRunKeeps(acts);
    var s := After(acts);
    forall c | 0 <= c < |s.calls|
      ensures s.calls[c].pc.Done?
    {
      assert !Enabled(s, Advance(c, false));
    }
    NoneRegistered(s.pending, s.calls, Tx);
    NoneRegistered(s.queryPending, s.calls, Qry);
  }

  /** From any reachable state, call steps alone reach a state where both tables are empty. */
  lemma {:induction false} TablesDrain(acts: seq<Action>) returns (more: seq<Action>)
    requires Legal(acts)
    ensures Legal(acts + more) && (forall i :: 0 <= i < |more| ==> more[i].Advance?)
    ensures |more| <= Budget(After(acts).calls, |After(acts).live|)
    ensures After(acts + more).pending == map[] && After(acts + more).queryPending == map[]
    decreases Budget(After(acts).calls, |After(acts).live|)
  {
    hide CallOk, LogsOk, NothingUnused, TableExact, InflightOk, IdsDistinct, DevicesFor, Moved, StepsLeft;
    var s := After(acts);
    if c :| 0 <= c < |s.calls| && Enabled(s, Advance(c, false)) {
      var act := Advance(c, false);
      EveryRunKeeps(acts);
      AdvanceBudget(s, c, false, |s.live|);
      OneMore(acts, act);
      var rest := TablesDrain(acts + [act]);
      more := [act] + rest;
      assert acts + more == acts + [act] + rest;
    } else {
      RestMeansEmpty(acts);
      more := [];
      assert acts + more == acts;
    }
  }
}
