/** The story of one call, told from the actions of the run: whom it found, whom it asked, how it ended. */
module RoutingCalls {
  import opened Wrappers
  import opened Bindings
  import opened Routing
  import opened RoutingInvariant
  import opened RoutingTheorems

  // ---------- what may happen ----------

  /**
   * Nothing but the phase of a call, a connection's own reader and the freshness of ids holds an action
   * back: any call that is not done can move, a delivery under way fires whatever became of its call,
   * and any live connection may hand in any reply.
   */
  lemma NothingElseHoldsBack(acts: seq<Action>, c: nat, a: AgentConn, kind: Kind, reply: Reply, account: Account, id: Id)
    requires Legal(acts)
    ensures var s := After(acts);
            && (a !in s.live ==> Legal(acts + [Connect(a)]))
            && (a in s.live && a !in s.inflight ==> Legal(acts + [Disconnect(a)]) && Legal(acts + [Lookup(a, kind, reply)]))
            && (a in s.inflight ==> Legal(acts + [Deliver(a)]))
            && (Unused(s, id) ==> Legal(acts + [Begin(kind, account, id)]))
            && (c < |s.calls| && !s.calls[c].pc.Done? ==>
                  Legal(acts + [Advance(c, false)]) &&
                  (!(s.calls[c].pc.Waiting? && s.calls[c].slot.None?) ==> Legal(acts + [Advance(c, true)])))
  {
    hide Next;
    forall act: Action | Enabled(After(acts), act)
      ensures Legal(acts + [act])
    {
      OneMore(acts, act);
    }
  }

  // ---------- connections and calls, from the actions alone ----------

  /** The connections and disconnections of a run. */
  function Changes(acts: seq<Action>): seq<Change> {
    if acts == [] then []
    else
      var n := |acts| - 1;
      Changes(acts[..n]) +
      match acts[n]
      case Connect(a) => [Join(a)]
      case Disconnect(a) => [Leave(a)]
      case _ => []
  }

  /** The live connections and the index are those of the run's connections and disconnections. */
  lemma {:induction false} LiveFollowsChanges(acts: seq<Action>)
    requires Legal(acts)
    ensures After(acts).live == LiveAfter(Changes(acts)) && After(acts).bindings == IndexAfter(Changes(acts))
  {
    if acts != [] {
      hide Run, Next, Enabled, IndexAfter, LiveAfter;
      var n := |acts| - 1;
      assert acts == acts[..n] + [acts[n]];
      LastAction(acts[..n], acts[n]);
      LiveFollowsChanges(acts[..n]);
      StepLive(After(acts[..n]), acts[n]);
      var head := Changes(acts[..n]);
      match acts[n]
      case Connect(a) => OneChangeMore(head, Join(a));
      case Disconnect(a) => OneChangeMore(head, Leave(a));
      case _ => assert Changes(acts) == head;
    } else {
      NoChanges();
    }
  }

  lemma NoChanges()
    ensures After([]).live == LiveAfter([]) && After([]).bindings == IndexAfter([])
  {
  }

  lemma OneChangeMore(head: seq<Change>, change: Change)
    ensures LiveAfter(head + [change]) == Without(LiveAfter(head), change.a) + if change.Join? then [change.a] else []
    ensures IndexAfter(head + [change]) ==
            if change.Join? then Bound(IndexAfter(head), change.a) else Unbound(IndexAfter(head), change.a)
  {
    hide Without, Bound, Unbound;
    assert (head + [change])[..|head|] == head;
  }

  lemma StepLive(s: State, act: Action)
    requires Enabled(s, act)
    ensures Next(s, act).live ==
            match act
            case Connect(a) => Without(s.live, a) + [a]
            case Disconnect(a) => Without(s.live, a)
            case _ => s.live
    ensures Next(s, act).bindings ==
            match act
            case Connect(a) => Bound(s.bindings, a)
            case Disconnect(a) => Unbound(s.bindings, a)
            case _ => s.bindings
  {
    hide Without, Bound, Unbound, DevicesFor;
  }

  datatype Order = Order(kind: Kind, account: Account, id: Id)

  /** The calls begun, in order. */
  function Orders(acts: seq<Action>): seq<Order> {
    if acts == [] then []
    else
      var n := |acts| - 1;
      Orders(acts[..n]) + if acts[n].Begin? then [Order(acts[n].kind, acts[n].account, acts[n].id)] else []
  }

  function OrderOf(call: Call): Order {
    Order(call.kind, call.account, call.id)
  }

  /** The calls of a state are those begun, each with its kind, account and id for good. */
  lemma {:induction false} CallsAreAsBegun(acts: seq<Action>)
    requires Legal(acts)
    ensures |After(acts).calls| == |Orders(acts)|
    ensures forall c :: 0 <= c < |Orders(acts)| ==> OrderOf(After(acts).calls[c]) == Orders(acts)[c]
  {
    if acts != [] {
      var n := |acts| - 1;
      CallsAreAsBegun(acts[..n]);
      StepOrders(After(acts[..n]), acts[n]);
    }
  }

  lemma StepOrders(s: State, act: Action)
    requires Enabled(s, act)
    ensures |Next(s, act).calls| == |s.calls| + if act.Begin? then 1 else 0
    ensures forall c :: 0 <= c < |s.calls| ==> OrderOf(Next(s, act).calls[c]) == OrderOf(s.calls[c])
    ensures act.Begin? ==> OrderOf(Next(s, act).calls[|s.calls|]) == Order(act.kind, act.account, act.id)
  {
    hide Bound, Unbound, DevicesFor;
  }

  /** A frame that concerns no call is written to its connection, after what was written before. */
  lemma NoteIsWritten(acts: seq<Action>, a: AgentConn, text: string)
    requires Legal(acts)
    ensures Legal(acts + [Notify(a, text)])
    ensures LogOf(After(acts + [Notify(a, text)]).logs, a) == LogOf(After(acts).logs, a) + [Note(text)]
  {
    OneMore(acts, Notify(a, text));
  }

  // ---------- how a call ends ----------

  /** Step `k` takes call `c` out of its wait: by a reply if `ok`, else by its deadline. */
  predicate LeftWaiting(acts: seq<Action>, k: nat, c: nat, ok: bool) {
    && k < |acts| && Legal(acts[..k]) && acts[k] == Advance(c, ok)
    && c < |After(acts[..k]).calls| && After(acts[..k]).calls[c].pc.Waiting?
  }

  predicate Left(acts: seq<Action>, c: nat, ok: bool) {
    exists k :: 0 <= k < |acts| && LeftWaiting(acts, k, c, ok)
  }

  lemma LeftBefore(acts: seq<Action>, c: nat, ok: bool)
    requires acts != []
    ensures var n := |acts| - 1; Left(acts, c, ok) <==> Left(acts[..n], c, ok) || LeftWaiting(acts, n, c, ok)
  {
    hide Run;
    var n := |acts| - 1;
    assert forall k :: 0 <= k < n ==> acts[..n][..k] == acts[..k];
    assert forall k :: 0 <= k < n ==> (LeftWaiting(acts, k, c, ok) <==> LeftWaiting(acts[..n], k, c, ok));
  }

  /** A call that receives returns, at once and for good, the first reply ever sent on its channel. */
  lemma ReceivedIsReturned(acts: seq<Action>, more: seq<Action>, c: nat)
    requires Legal(acts) && c < |After(acts).calls| && After(acts).calls[c].pc.Waiting?
    requires Legal(acts + [Advance(c, true)] + more)
    ensures Sends(acts, c) != []
    ensures var calls := After(acts + [Advance(c, true)] + more).calls;
            c < |calls| && HasOutcome(calls[c].pc) && calls[c].pc.outcome == Answered(Sends(acts, c)[0])
  {
    var act := Advance(c, true);
    LegalPrefix(acts + [act], more);
    LastAction(acts, act);
    EveryRunKeeps(acts);
    assert CallOk(After(acts).calls[c]);
    HistoryOfSends(acts, c);
    StepCall(After(acts), act, c);
    StepSends(After(acts), act, c);
    hide Next, Enabled, Inv;
    OutcomeStays(acts + [act], more, c);
  }

  lemma LastAction(acts: seq<Action>, act: Action)
    requires Legal(acts + [act])
    ensures Legal(acts) && Enabled(After(acts), act) && After(acts + [act]) == Next(After(acts), act)
  {
    assert (acts + [act])[..|acts|] == acts;
  }

  lemma {:induction false} LegalPrefix(acts: seq<Action>, more: seq<Action>)
    requires Legal(acts + more)
    ensures Legal(acts)
  {
    if more == [] {
      assert acts + more == acts;
    } else {
      var n := |more| - 1;
      assert acts + more == acts + more[..n] + [more[n]];
      LastAction(acts + more[..n], more[n]);
      LegalPrefix(acts, more[..n]);
    }
  }

  /** An outcome, once there, stays. */
  lemma {:induction false} OutcomeStays(acts: seq<Action>, more: seq<Action>, c: nat)
    requires Legal(acts) && Legal(acts + more) && c < |After(acts).calls| && HasOutcome(After(acts).calls[c].pc)
    ensures var calls := After(acts + more).calls;
            c < |calls| && HasOutcome(calls[c].pc) && calls[c].pc.outcome == After(acts).calls[c].pc.outcome
  {
    hide Next, Enabled;
    if more == [] {
      assert acts + more == acts;
    } else {
      var n := |more| - 1;
      assert acts + more == acts + more[..n] + [more[n]];
      LastAction(acts + more[..n], more[n]);
      OutcomeStays(acts, more[..n], c);
      StepSends(After(acts + more[..n]), more[n], c);
      StepCall(After(acts + more[..n]), more[n], c);
    }
  }

  /**
   * Of either kind, a call ends by a reply, which is then the first ever sent on its channel, exactly if
   * it left its wait by receiving; it ends expired exactly if it left its wait by its deadline; and in
   * the remaining case nobody had accepted its question.
   */
  lemma {:induction false} OutcomeHasItsCause(acts: seq<Action>, c: nat)
    requires Legal(acts) && c < |After(acts).calls|
    ensures var pc := After(acts).calls[c].pc;
            && (HasOutcome(pc) && pc.outcome.Answered? <==> Left(acts, c, true))
            && (HasOutcome(pc) && pc.outcome.Expired? <==> Left(acts, c, false))
  {
    hide Next, Enabled, Inv;
    var n := |acts| - 1;
    var s := After(acts[..n]);
    assert acts == acts[..n] + [acts[n]];
    LeftBefore(acts, c, true);
    LeftBefore(acts, c, false);
    LastAction(acts[..n], acts[n]);
    StepCall(s, acts[n], c);
    StepSends(s, acts[n], c);
    if c < |s.calls| {
      OutcomeHasItsCause(acts[..n], c);
      assert CallOk(s.calls[c]) by { EveryRunKeeps(acts[..n]); InvCall(s, c); }
      EndStep(s.calls[c], After(acts).calls[c], acts[n], c, DevicesFor(s.bindings, s.calls[c].account));
    } else {
      NotYetWaiting(acts[..n], c);
    }
  }

  lemma InvCall(s: State, c: nat)
    requires Inv(s) && c < |s.calls|
    ensures CallOk(s.calls[c])
  {
  }

  lemma NotYetWaiting(acts: seq<Action>, c: nat)
    requires Legal(acts) && c >= |After(acts).calls|
    ensures forall ok :: !Left(acts, c, ok)
  {
    forall k: nat, ok
      ensures !LeftWaiting(acts, k, c, ok)
    {
      if k < |acts| && Legal(acts[..k]) {
        CallsGrow(acts, k, |acts|);
        assert acts[..|acts|] == acts;
      }
    }
  }

  lemma {:induction false} CallsGrow(acts: seq<Action>, k: nat, n: nat)
    requires Legal(acts) && k <= n <= |acts|
    ensures Legal(acts[..k]) && Legal(acts[..n]) && |After(acts[..k]).calls| <= |After(acts[..n]).calls|
    decreases n - k
  {
    hide Run, Next, Enabled;
    assert acts == acts[..n] + acts[n..];
    LegalPrefix(acts[..n], acts[n..]);
    if k < n {
      CallsGrow(acts, k, n - 1);
      assert acts[..n] == acts[..n - 1] + [acts[n - 1]];
      LastAction(acts[..n - 1], acts[n - 1]);
      StepOrders(After(acts[..n - 1]), acts[n - 1]);
    }
  }

  /** One step of a call: it ends by a reply or by its deadline only as it leaves its wait. */
  lemma EndStep(was: Call, now: Call, act: Action, c: nat, devices: seq<AgentConn>)
    requires if act.Advance? && act.c == c then CanMove(was, act.ok) && now == Moved(was, devices, act.ok) else now.pc == was.pc
    ensures HasOutcome(now.pc) && now.pc.outcome.Answered? <==>
            (HasOutcome(was.pc) && was.pc.outcome.Answered?) || (was.pc.Waiting? && act == Advance(c, true))
    ensures HasOutcome(now.pc) && now.pc.outcome.Expired? <==>
            (HasOutcome(was.pc) && was.pc.outcome.Expired?) || (was.pc.Waiting? && act == Advance(c, false))
  {
  }

  // ---------- whom it found ----------

  /** Step `k` is the snapshot of call `c`: it found exactly the live connections of its account, newest first. */
  ghost predicate FoundAt(acts: seq<Action>, k: nat, c: nat, call: Call) {
    && k < |acts| && Legal(acts[..k]) && acts[k].Advance? && acts[k].c == c
    && var s := After(acts[..k]);
       && c < |s.calls| && s.calls[c].pc.Start?
       && call.found == DevicesFor(s.bindings, call.account)
       && (forall a :: a in call.found <==> a in s.live && call.account in a.accounts)
  }

  lemma {:induction false} FoundIsASnapshot(acts: seq<Action>, c: nat) returns (k: nat)
    requires Legal(acts) && c < |After(acts).calls| && !After(acts).calls[c].pc.Start?
    ensures FoundAt(acts, k, c, After(acts).calls[c])
  {
    hide Next, Enabled, Inv, Moved;
    var n := |acts| - 1;
    var s := After(acts[..n]);
    assert acts == acts[..n] + [acts[n]];
    LastAction(acts[..n], acts[n]);
    StepCall(s, acts[n], c);
    EveryRunKeeps(acts[..n]);
    if acts[n].Advance? && acts[n].c == c && s.calls[c].pc.Start? {
      k := n;
      RecallFinds(s, c);
      FindStep(s.calls[c], DevicesFor(s.bindings, s.calls[c].account), acts[n].ok);
    } else {
      k := FoundIsASnapshot(acts[..n], c);
      assert acts[..n][..k] == acts[..k];
      if acts[n].Advance? && acts[n].c == c {
        KeepsFound(s.calls[c], DevicesFor(s.bindings, s.calls[c].account), acts[n].ok);
      }
    }
  }

  lemma FindStep(was: Call, devices: seq<AgentConn>, ok: bool)
    requires CanMove(was, ok) && was.pc.Start?
    ensures Moved(was, devices, ok).found == devices && Moved(was, devices, ok).account == was.account
  {
  }

  lemma KeepsFound(was: Call, devices: seq<AgentConn>, ok: bool)
    requires CanMove(was, ok) && !was.pc.Start?
    ensures Moved(was, devices, ok).found == was.found && Moved(was, devices, ok).account == was.account
  {
  }

  // ---------- whom it asked ----------

  /** A call writes to the devices its snapshot found, and to no others. */
  ghost predicate FoundOk(call: Call) {
    && Distinct(call.found) && Within(call.asked, call.found)
    && (call.pc.Snapped? || call.pc.Writing? ==> call.pc.devices == call.found)
    && (call.pc.Start? ==> call.found == [])
  }

  lemma {:induction false} EveryCallFound(acts: seq<Action>, c: nat)
    requires Legal(acts) && c < |After(acts).calls|
    ensures FoundOk(After(acts).calls[c])
  {
    hide Next, Enabled, Inv;
    var n := |acts| - 1;
    var s := After(acts[..n]);
    assert acts == acts[..n] + [acts[n]];
    LastAction(acts[..n], acts[n]);
    StepCall(s, acts[n], c);
    if c < |s.calls| {
      EveryCallFound(acts[..n], c);
      if acts[n].Advance? && acts[n].c == c {
        assert Distinct(DevicesFor(s.bindings, s.calls[c].account)) by { RoutingFollowsConnections(acts[..n], s.calls[c].account); }
        MovedFound(s.calls[c], DevicesFor(s.bindings, s.calls[c].account), acts[n].ok);
      }
    }
  }

  lemma MovedFound(was: Call, devices: seq<AgentConn>, ok: bool)
    requires CanMove(was, ok) && FoundOk(was) && Distinct(devices)
    requires was.pc.Start? ==> was.asked == {}
    ensures FoundOk(Moved(was, devices, ok))
  {
  }

  /** The question has been offered to the `i`-th device found; a query stops at the first that accepts. */
  ghost predicate WritePast(call: Call, i: nat) {
    && i < |call.found|
    && ((call.pc.Writing? && i < call.pc.next) ||
        ((call.pc.Waiting? || HasOutcome(call.pc)) && (call.kind == Qry ==> forall j :: 0 <= j < i ==> call.found[j] !in call.asked)))
  }

  /** The write to the `i`-th device of `found` was tried at step `p`, and the connection accepted it iff `ok`. */
  ghost predicate AskedAt(acts: seq<Action>, p: nat, c: nat, found: seq<AgentConn>, i: nat, ok: bool) {
    && p < |acts| && Legal(acts[..p]) && acts[p] == Advance(c, ok)
    && var s := After(acts[..p]);
       c < |s.calls| && s.calls[c].pc.Writing? && s.calls[c].pc.devices == found && s.calls[c].pc.next == i
  }

  ghost predicate Tried(acts: seq<Action>, c: nat, found: seq<AgentConn>, i: nat, ok: bool) {
    exists p :: 0 <= p < |acts| && AskedAt(acts, p, c, found, i, ok)
  }

  lemma WriteStep(was: Call, devices: seq<AgentConn>, ok: bool, i: nat)
    requires CanMove(was, ok) && CallOk(was) && FoundOk(was) && WritePast(Moved(was, devices, ok), i)
    ensures Moved(was, devices, ok).found == was.found
    ensures if WritePast(was, i)
            then was.found[i] in Moved(was, devices, ok).asked <==> was.found[i] in was.asked
            else && was.pc.Writing? && was.pc.devices == was.found && was.pc.next == i
                 && (ok <==> was.found[i] in Moved(was, devices, ok).asked)
  {
    hide SlotOk, RouteOk, Untold;
    if was.pc.Writing? {
      var k := was.pc.next;
      assert k < |was.found| ==> was.found[k] !in was.found[..k] && (i != k ==> was.found[i] != was.found[k]);
    }
  }

  /** Every device found is tried, a query's only up to the first that accepts, and counts as asked exactly if it accepted. */
  lemma {:induction false} WriteIsTried(acts: seq<Action>, c: nat, i: nat) returns (p: nat)
    requires Legal(acts) && c < |After(acts).calls| && WritePast(After(acts).calls[c], i)
    ensures var call := After(acts).calls[c];
            AskedAt(acts, p, c, call.found, i, call.found[i] in call.asked)
  {
    hide Next, Enabled, Inv, Moved;
    var n := |acts| - 1;
    var s := After(acts[..n]);
    assert acts == acts[..n] + [acts[n]];
    LastAction(acts[..n], acts[n]);
    StepCall(s, acts[n], c);
    assert c < |s.calls|;
    var was := s.calls[c];
    if acts[n].Advance? && acts[n].c == c {
      assert CallOk(was) by { EveryRunKeeps(acts[..n]); InvCall(s, c); }
      EveryCallFound(acts[..n], c);
      WriteStep(was, DevicesFor(s.bindings, was.account), acts[n].ok, i);
    }
    if WritePast(was, i) {
      p := WriteIsTried(acts[..n], c, i);
      assert acts[..n][..p] == acts[..p];
    } else {
      p := n;
    }
  }

  /** The call is through with asking. */
  predicate DoneAsking(pc: Pc) {
    pc.Waiting? || HasOutcome(pc)
  }

  /**
   * Every device that was live and had proven the account when a request took its snapshot is offered
   * the request, at a step of its own, and has it in its message order exactly if it accepted; no other
   * device has it.
   */
  lemma RequestReachesEveryDevice(acts: seq<Action>, c: nat, a: AgentConn) returns (k: nat, p: nat)
    requires Legal(acts) && c < |After(acts).calls| && After(acts).calls[c].kind == Tx && DoneAsking(After(acts).calls[c].pc)
    ensures FoundAt(acts, k, c, After(acts).calls[c])
    ensures var call := After(acts).calls[c]; var written := Request(call.id) in LogOf(After(acts).logs, a);
            if a in After(acts[..k]).live && call.account in a.accounts then
              exists i, ok :: 0 <= i < |call.found| && call.found[i] == a && AskedAt(acts, p, c, call.found, i, ok) && (ok <==> written)
            else !written
  {
    hide Inv, Next, Enabled;
    var s := After(acts);
    var call := s.calls[c];
    k := FoundIsASnapshot(acts, c);
    EveryCallFound(acts, c);
    WrittenIfAsked(acts, c, a);
    if a in call.found {
      var i :| 0 <= i < |call.found| && call.found[i] == a;
      p := WriteIsTried(acts, c, i);
      assert AskedAt(acts, p, c, call.found, i, a in call.asked);
    } else {
      p := 0;
    }
  }

  /** A device has been sent a call's question exactly if it counts as asked. */
  lemma WrittenIfAsked(acts: seq<Action>, c: nat, a: AgentConn)
    requires Legal(acts) && c < |After(acts).calls|
    ensures Question(After(acts).calls[c]) in LogOf(After(acts).logs, a) <==> a in After(acts).calls[c].asked
  {
    var s := After(acts);
    var call := s.calls[c];
    MessagesAboutACall(acts, c, a);
    if Question(call) in LogOf(s.logs, a) {
      SentAboutSomething(LogOf(s.logs, a), Question(call), call.id);
    }
    if a in call.asked {
      assert Question(call) in About(LogOf(s.logs, a), call.id);
      AboutIsSent(LogOf(s.logs, a), Question(call), call.id);
    }
  }

  lemma {:induction false} AboutIsSent(log: seq<Msg>, m: Msg, id: Id)
    requires m in About(log, id)
    ensures m in log
  {
    var n := |log| - 1;
    if m in About(log[..n], id) {
      AboutIsSent(log[..n], m, id);
    }
  }

  /**
   * A query is offered, newest device first, to the devices its snapshot found until one accepts it:
   * each before that one refused it at a step of its own, and none after it is tried. If there is no
   * such device, all of them refused and the query ends offline.
   */
  lemma QueryAsksInTurn(acts: seq<Action>, c: nat) returns (k: nat, taker: Option<nat>)
    requires Legal(acts) && c < |After(acts).calls| && After(acts).calls[c].kind == Qry && DoneAsking(After(acts).calls[c].pc)
    ensures var call := After(acts).calls[c];
            && FoundAt(acts, k, c, call)
            && (taker.Some? ==> taker.value < |call.found|)
            && (taker.Some? ==> Query(call.id) in LogOf(After(acts).logs, call.found[taker.value]))
            && (taker.Some? ==> Tried(acts, c, call.found, taker.value, true))
            && (taker.None? ==> HasOutcome(call.pc) && call.pc.outcome == Offline)
            && (forall i :: 0 <= i < |call.found| && (taker.Some? ==> i < taker.value) ==> Tried(acts, c, call.found, i, false))
            && (forall a :: Query(call.id) in LogOf(After(acts).logs, a) ==> taker.Some? && a == call.found[taker.value])
  {
    hide Inv, Next, Enabled;
    var s := After(acts);
    var call := s.calls[c];
    k := FoundIsASnapshot(acts, c);
    EveryCallFound(acts, c);
    assert |call.asked| <= 1 && (HasOutcome(call.pc) ==> (call.pc.outcome == Offline <==> call.asked == {})) &&
           (call.pc.Waiting? ==> call.asked != {}) by {
      EveryRunKeeps(acts);
      InvCall(s, c);
    }
    if call.asked == {} {
      taker := None;
    } else {
      var a :| a in call.asked;
      AtMostOne(call.asked, a);
      var t :| 0 <= t < |call.found| && call.found[t] == a;
      taker := Some(t);
    }
    forall i | 0 <= i < |call.found| && (taker.Some? ==> i < taker.value)
      ensures Tried(acts, c, call.found, i, false)
    {
      var p := WriteIsTried(acts, c, i);
    }
    if taker.Some? {
      var p := WriteIsTried(acts, c, taker.value);
    }
    forall a
      ensures Query(call.id) in LogOf(s.logs, a) <==> a in call.asked
    {
      WrittenIfAsked(acts, c, a);
    }
  }

  lemma AtMostOne(devices: set<AgentConn>, a: AgentConn)
    requires a in devices && |devices| <= 1
    ensures devices == {a}
  {
    assert |devices - {a}| == 0;
  }
}
