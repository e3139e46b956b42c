/** What every run of the hub protocol guarantees, from the empty hub, in every interleaving. */
module RoutingTheorems {
  import opened Sequences
  import opened Wrappers
  import opened Bindings
  import opened Routing
  import opened RoutingInvariant

  /** Cleanup has begun: the waiter has been taken out of its table. */
  predicate CleaningUp(pc: Pc) {
    pc.Removed? || pc.Withdrawing? || pc.Done?
  }

  // ---------- first result wins ----------

  /** The replies whose non-blocking send on call `c`'s channel found the slot empty, in run order. */
  function Sends(acts: seq<Action>, c: nat): seq<Reply>
    requires Legal(acts)
  {
    if acts == [] then []
    else
      var n := |acts| - 1;
      Sends(acts[..n], c) + SendOf(After(acts[..n]), acts[n], c)
  }

  function SendOf(s: State, act: Action, c: nat): seq<Reply> {
    if act.Deliver? && act.a in s.inflight && s.inflight[act.a].waiter == Some(c) &&
       c < |s.calls| && s.calls[c].slot.None?
    then [s.inflight[act.a].reply] else []
  }

  /** What one action does to call `c`: its own step, a send on its channel, its start, or nothing. */
  lemma StepCall(s: State, act: Action, c: nat)
    requires Enabled(s, act) && c < |Next(s, act).calls|
    ensures c >= |s.calls| ==> var call := Next(s, act).calls[c];
              && call.pc == Start && call.recall == call.found == [] && call.sends == [] && call.asked == {}
    ensures c < |s.calls| && act.Advance? && act.c == c ==>
              CanMove(s.calls[c], act.ok) &&
              Next(s, act).calls[c] == Moved(s.calls[c], DevicesFor(s.bindings, s.calls[c].account), act.ok)
    ensures c < |s.calls| && !(act.Advance? && act.c == c) ==>
              var was, now := s.calls[c], Next(s, act).calls[c];
              now == was.(slot := now.slot, sends := now.sends)
  {
    hide Moved, DevicesFor, Bound, Unbound;
  }

  lemma StepSends(s: State, act: Action, c: nat)
    requires Enabled(s, act)
    ensures |s.calls| <= |Next(s, act).calls|
    ensures c < |s.calls| ==> Next(s, act).calls[c].sends == s.calls[c].sends + SendOf(s, act, c)
  {
    hide Bound, Unbound;
  }

  lemma {:induction false} HistoryOfSends(acts: seq<Action>, c: nat)
    requires Legal(acts)
    ensures c < |After(acts).calls| ==> After(acts).calls[c].sends == Sends(acts, c)
    ensures c >= |After(acts).calls| ==> Sends(acts, c) == []
  {
    if acts != [] {
      var n := |acts| - 1;
      HistoryOfSends(acts[..n], c);
      var s := After(acts[..n]);
      StepSends(s, acts[n], c);
      if |s.calls| <= c < |After(acts).calls| {
        StepCall(s, acts[n], c);
      }
    }
  }

  /**
   * A call that returns a result returns the first reply ever sent on its channel, and that reply
   * carries the call's own id, as does every other reply that ever reached the channel.
   */
  lemma FirstResultWins(acts: seq<Action>, c: nat)
    requires Legal(acts) && c < |After(acts).calls|
    ensures var call := After(acts).calls[c];
            && (forall r :: r in Sends(acts, c) ==> r.id == call.id)
            && (HasOutcome(call.pc) && call.pc.outcome.Answered? ==>
                  Sends(acts, c) != [] && call.pc.outcome.reply == Sends(acts, c)[0])
            && (call.pc.Done? && call.pc.outcome.Answered? ==> call.pc.outcome.reply.id == call.id)
  {
    EveryRunKeeps(acts);
    HistoryOfSends(acts, c);
    assert CallOk(After(acts).calls[c]);
  }

  /** A finished call keeps its outcome, whatever stale deliveries still fire. */
  lemma OutcomeIsFinal(acts: seq<Action>, act: Action, c: nat)
    requires Legal(acts) && Enabled(After(acts), act)
    requires c < |After(acts).calls| && After(acts).calls[c].pc.Done?
    ensures c < |Next(After(acts), act).calls| && Next(After(acts), act).calls[c].pc == After(acts).calls[c].pc
  {
    StepSends(After(acts), act, c);
    StepCall(After(acts), act, c);
  }

  // ---------- the waiter is there before any answer ----------

  lemma {:induction false} SentAboutSomething(log: seq<Msg>, m: Msg, id: Id)
    requires m in log && Concerns(m, id)
    ensures m in About(log, id)
  {
    var n := |log| - 1;
    if log[n] != m {
      assert log == log[..n] + [log[n]];
      SentAboutSomething(log[..n], m, id);
    }
  }

  /**
   * If a device was ever sent a question, the question is a call's, that call's waiter is in its
   * table unless the call has begun cleanup, and the device proved the call's account.
   */
  lemma NoAnswerBeforeItsWaiter(acts: seq<Action>, a: AgentConn, m: Msg)
    requires Legal(acts) && m in LogOf(After(acts).logs, a) && (m.Request? || m.Query?)
    ensures exists c :: 0 <= c < |After(acts).calls| &&
              var s := After(acts); var call := s.calls[c];
              && m == Question(call) && a in call.asked && call.account in a.accounts
              && (Find(Table(s, call.kind), m.id) == Some(c) || CleaningUp(call.pc))
  {
    var s := After(acts);
    EveryRunKeeps(acts);
    SentAboutSomething(LogOf(s.logs, a), m, m.id);
    assert About(LogOf(s.logs, a), m.id) != [];
    assert !Unused(s, m.id);
    var c :| 0 <= c < |s.calls| && s.calls[c].id == m.id;
    assert CallOk(s.calls[c]);
    assert m in Expected(s.calls[c], a);
    assert a in s.calls[c].asked;
    if !CleaningUp(s.calls[c].pc) {
      assert Registered(s.calls[c].pc);
    }
  }

  /**
   * A device that answers what it was asked never misses a live call: looked up and sent at once,
   * the answer is in the call's slot, or an earlier answer is there or has been received.
   */
  lemma PromptAnswerArrives(acts: seq<Action>, c: nat, a: AgentConn, body: string)
    requires Legal(acts) && c < |After(acts).calls| && Registered(After(acts).calls[c].pc)
    requires Enabled(After(acts), Lookup(a, After(acts).calls[c].kind, Reply(After(acts).calls[c].id, body)))
    ensures var s := After(acts); var call := s.calls[c];
            var looked := Next(s, Lookup(a, call.kind, Reply(call.id, body)));
            && Enabled(looked, Deliver(a))
            && var sent := Next(looked, Deliver(a));
               && sent.inflight == s.inflight && |sent.calls| == |s.calls|
               && sent.calls[c].sends == (if call.slot.None? then call.sends + [Reply(call.id, body)] else call.sends)
               && sent.calls[c].sends != []
               && (!Got(call.pc) ==> sent.calls[c].slot == Some(sent.calls[c].sends[0]))
  {
    var s := After(acts);
    var call := s.calls[c];
    var reply := Reply(call.id, body);
    assert SlotOk(call) && Find(Table(s, call.kind), call.id) == Some(c) by {
      EveryRunKeeps(acts);
      assert CallOk(call);
    }
    hide AdvanceCall, Bound, Unbound, Run, FanOk;
    var looked := Next(s, Lookup(a, call.kind, reply));
    assert looked == s.(inflight := s.inflight[a := Delivery(call.kind, reply, Some(c))]);
    assert looked.inflight - {a} == s.inflight;
  }

  // ---------- the withdraw follows the request ----------

  /** An id two of whose messages were sent, in this order, and no others. */
  ghost predicate InOrder(log: seq<Msg>, first: Msg, second: Msg, id: Id) {
    exists i, j :: 0 <= i < j < |log| && log[i] == first && log[j] == second &&
      forall k :: 0 <= k < |log| && Concerns(log[k], id) ==> k == i || k == j
  }

  lemma {:induction false} AboutNone(log: seq<Msg>, id: Id)
    requires About(log, id) == []
    ensures forall k :: 0 <= k < |log| ==> !Concerns(log[k], id)
  {
    if log != [] {
      AboutNone(log[..|log| - 1], id);
    }
  }

  lemma {:induction false} AboutOne(log: seq<Msg>, m: Msg, id: Id) returns (i: nat)
    requires About(log, id) == [m]
    ensures i < |log| && log[i] == m && Concerns(m, id)
    ensures forall k :: 0 <= k < |log| && Concerns(log[k], id) ==> k == i
  {
    var n := |log| - 1;
    if Concerns(log[n], id) {
      assert |About(log[..n], id)| == 0 && About(log, id)[0] == log[n];
      AboutNone(log[..n], id);
      i := n;
    } else {
      i := AboutOne(log[..n], m, id);
    }
  }

  lemma {:induction false} AboutTwo(log: seq<Msg>, first: Msg, second: Msg, id: Id) returns (i: nat, j: nat)
    requires About(log, id) == [first, second]
    ensures i < j < |log| && log[i] == first && log[j] == second
    ensures forall k :: 0 <= k < |log| && Concerns(log[k], id) ==> k == i || k == j
  {
    var n := |log| - 1;
    if Concerns(log[n], id) {
      assert About(log, id)[..1] == About(log[..n], id) && About(log, id)[1] == log[n];
      i := AboutOne(log[..n], first, id);
      j := n;
    } else {
      i, j := AboutTwo(log[..n], first, second, id);
    }
    forall k | 0 <= k < |log| && Concerns(log[k], id)
      ensures k == i || k == j
    {
      assert k < n ==> log[..n][k] == log[k];
    }
  }

  /**
   * At every moment of every run, what a connection has been sent about a call's id is exactly the
   * question, once, if it accepted it, and then the withdraw, once, if it accepted that.
   */
  lemma MessagesAboutACall(acts: seq<Action>, c: nat, a: AgentConn)
    requires Legal(acts) && c < |After(acts).calls|
    ensures var s := After(acts); var call := s.calls[c];
            && About(LogOf(s.logs, a), call.id) == Expected(call, a)
            && (a in call.asked && a in call.told ==>
                  InOrder(LogOf(s.logs, a), Request(call.id), Withdraw(call.id), call.id))
            && (call.kind == Qry ==> call.told == {} && |call.asked| <= 1)
            && (HasOutcome(call.pc) ==> (call.pc.outcome == Offline <==> call.asked == {}))
  {
    EveryRunKeeps(acts);
    var s := After(acts);
    var call := s.calls[c];
    assert CallOk(call);
    assert About(LogOf(s.logs, a), call.id) == Expected(call, a);
    if a in call.asked && a in call.told {
      var i, j := AboutTwo(LogOf(s.logs, a), Question(call), Withdraw(call.id), call.id);
    }
  }

  /** The moment of the run at which the withdraw of `c` took its snapshot. */
  ghost predicate RecalledAt(acts: seq<Action>, k: nat, c: nat, call: Call) {
    && k < |acts| && Legal(acts[..k])
    && var s := After(acts[..k]);
       && c < |s.calls| && s.calls[c].pc.Removed? && acts[k].Advance? && acts[k].c == c
       && s.calls[c].account == call.account && s.calls[c].id == call.id
       && call.recall == DevicesFor(s.bindings, call.account)
       && (forall a :: a in call.recall <==> a in s.live && call.account in a.accounts)
       && call.id !in s.pending
  }

  /** The `i`-th withdraw write of `c` was tried at step `p`, and the connection accepted it iff `ok`. */
  ghost predicate TriedAt(acts: seq<Action>, p: nat, c: nat, recall: seq<AgentConn>, i: nat, ok: bool) {
    && p < |acts| && Legal(acts[..p]) && acts[p] == Advance(c, ok)
    && var s := After(acts[..p]);
       c < |s.calls| && s.calls[c].pc.Withdrawing? && s.calls[c].pc.devices == recall && s.calls[c].pc.next == i
  }

  /** The withdraw has taken its snapshot. */
  predicate HasRecalled(call: Call) {
    call.pc.Withdrawing? || call.recall != [] || (call.kind == Tx && call.pc.Done? && call.asked != {})
  }

  lemma {:induction false} RecallIsASnapshot(acts: seq<Action>, c: nat) returns (k: nat)
    requires Legal(acts) && c < |After(acts).calls| && HasRecalled(After(acts).calls[c])
    ensures RecalledAt(acts, k, c, After(acts).calls[c])
  {
    hide Next, Enabled, Inv, Moved;
    var n := |acts| - 1;
    var s := After(acts[..n]);
    EveryRunKeeps(acts[..n]);
    RecallStep(s, acts[n], c);
    if acts[n].Advance? && acts[n].c == c && s.calls[c].pc.Removed? {
      k := n;
    } else {
      k := RecallIsASnapshot(acts[..n], c);
      assert acts[..n][..k] == acts[..k];
    }
  }

  /** The withdraw's device list is set by the one step out of Removed, from the index of that moment. */
  lemma RecallStep(s: State, act: Action, c: nat)
    requires Inv(s) && Enabled(s, act) && c < |Next(s, act).calls|
    requires HasRecalled(Next(s, act).calls[c])
    ensures c < |s.calls| && Next(s, act).calls[c].account == s.calls[c].account && Next(s, act).calls[c].id == s.calls[c].id
    ensures if act.Advance? && act.c == c && s.calls[c].pc.Removed?
            then && Next(s, act).calls[c].recall == DevicesFor(s.bindings, s.calls[c].account)
                 && s.calls[c].id !in s.pending
                 && (forall a :: a in DevicesFor(s.bindings, s.calls[c].account) <==>
                       a in s.live && s.calls[c].account in a.accounts)
            else Next(s, act).calls[c].recall == s.calls[c].recall && HasRecalled(s.calls[c])
  {
    hide Next, Enabled, DevicesFor, Moved, FanOk, Inv;
    StepCall(s, act, c);
    if c < |s.calls| {
      assert FanOk(s.calls[c]) by { RecallFinds(s, c); }
      if act.Advance? && act.c == c {
        RecallMove(s.calls[c], DevicesFor(s.bindings, s.calls[c].account), act.ok);
        RecallFinds(s, c);
      }
    }
  }

  lemma RecallMove(was: Call, devices: seq<AgentConn>, ok: bool)
    requires CanMove(was, ok) && FanOk(was) && HasRecalled(Moved(was, devices, ok))
    ensures var now := Moved(was, devices, ok);
            && now.account == was.account && now.id == was.id
            && if was.pc.Removed? then was.kind == Tx && now.recall == devices
               else now.recall == was.recall && HasRecalled(was)
  {
  }

  /** What the withdraw of `c` finds: no waiter, and exactly the live connections of its account. */
  lemma RecallFinds(s: State, c: nat)
    requires Inv(s) && c < |s.calls|
    ensures FanOk(s.calls[c])
    ensures s.calls[c].kind == Tx && s.calls[c].pc.Removed? ==> s.calls[c].id !in s.pending
    ensures forall a :: a in DevicesFor(s.bindings, s.calls[c].account) <==> a in s.live && s.calls[c].account in a.accounts
  {
    assert CallOk(s.calls[c]);
    hide CallOk, FanOk, LogsOk, NothingUnused;
    if s.calls[c].kind == Tx && s.calls[c].pc.Removed? {
      NotPending(s, c);
    }
    DevicesExact(s.bindings, s.live, s.calls[c].account);
  }

  lemma NotPending(s: State, c: nat)
    requires Inv(s) && c < |s.calls| && s.calls[c].kind == Tx && !Registered(s.calls[c].pc)
    ensures s.calls[c].id !in s.pending
  {
  }

  /** The `i`-th withdraw of call `call` has been tried. */
  predicate WithdrawPast(call: Call, i: nat) {
    i < |call.recall| && (call.pc.Done? || (call.pc.Withdrawing? && i < call.pc.next))
  }

  /** It becomes past by its own try, which tells the device exactly if it accepts. */
  lemma WithdrawStep(s: State, act: Action, c: nat, i: nat)
    requires Inv(s) && Enabled(s, act) && c < |Next(s, act).calls| && WithdrawPast(Next(s, act).calls[c], i)
    ensures c < |s.calls| && Next(s, act).calls[c].recall == s.calls[c].recall
    ensures if WithdrawPast(s.calls[c], i)
            then s.calls[c].recall[i] in Next(s, act).calls[c].told <==> s.calls[c].recall[i] in s.calls[c].told
            else && act.Advance? && act.c == c && s.calls[c].pc.Withdrawing?
                 && s.calls[c].pc.devices == s.calls[c].recall && s.calls[c].pc.next == i
                 && (act.ok <==> s.calls[c].recall[i] in Next(s, act).calls[c].told)
  {
    StepCall(s, act, c);
    hide Next, Enabled;
    var was := s.calls[c];
    assert CallOk(was);
    if act.Advance? && act.c == c && was.pc.Withdrawing? {
      var snap, k := was.pc.devices, was.pc.next;
      assert k < |snap| ==> snap[k] !in snap[..k] && (i < k ==> snap[i] != snap[k]);
    }
  }

  /** Every device of the withdraw snapshot was tried, and is in `told` exactly if it accepted. */
  lemma {:induction false} WithdrawIsTried(acts: seq<Action>, c: nat, i: nat) returns (p: nat)
    requires Legal(acts) && c < |After(acts).calls| && WithdrawPast(After(acts).calls[c], i)
    ensures var call := After(acts).calls[c];
            TriedAt(acts, p, c, call.recall, i, call.recall[i] in call.told)
  {
    hide Next, Enabled, Inv;
    var n := |acts| - 1;
    var s := After(acts[..n]);
    EveryRunKeeps(acts[..n]);
    WithdrawStep(s, acts[n], c, i);
    if WithdrawPast(s.calls[c], i) {
      p := WithdrawIsTried(acts[..n], c, i);
      assert acts[..n][..p] == acts[..p];
    } else {
      p := n;
    }
  }

  /**
   * When a sendRequest call that was written to `a` has finished, take the moment `k` at which its
   * withdraw looked up the account's devices, after the waiter was gone. If `a` was still bound then,
   * it was tried at some later step `p`; if it accepted, it has the request and later the withdraw in
   * its message order; if it did not, or was no longer bound, it was never sent the withdraw.
   */
  lemma WithdrawFollowsRequest(acts: seq<Action>, c: nat, a: AgentConn) returns (k: nat, p: nat)
    requires Legal(acts) && c < |After(acts).calls| && After(acts).calls[c].pc.Done?
    requires Request(After(acts).calls[c].id) in LogOf(After(acts).logs, a)
    ensures RecalledAt(acts, k, c, After(acts).calls[c])
    ensures var call := After(acts).calls[c]; var log := LogOf(After(acts).logs, a);
            if a in After(acts[..k]).live then
              exists i, ok :: 0 <= i < |call.recall| && call.recall[i] == a && TriedAt(acts, p, c, call.recall, i, ok) &&
                if ok then InOrder(log, Request(call.id), Withdraw(call.id), call.id) else Withdraw(call.id) !in log
            else Withdraw(call.id) !in log
  {
    var s := After(acts);
    var call := s.calls[c];
    assert call.kind == Tx && a in call.asked && call.account in a.accounts && (a in call.told ==> a in call.recall) by {
      AskedBecauseWritten(acts, c, a);
    }
    hide Inv, CallOk, Next, Enabled;
    k := RecallIsASnapshot(acts, c);
    MessagesAboutACall(acts, c, a);
    if a !in call.told && Withdraw(call.id) in LogOf(s.logs, a) {
      SentAboutSomething(LogOf(s.logs, a), Withdraw(call.id), call.id);
    }
    if a in call.recall {
      var i :| 0 <= i < |call.recall| && call.recall[i] == a;
      p := WithdrawIsTried(acts, c, i);
      assert TriedAt(acts, p, c, call.recall, i, a in call.told);
    } else {
      p := 0;
    }
  }

  lemma AskedBecauseWritten(acts: seq<Action>, c: nat, a: AgentConn)
    requires Legal(acts) && c < |After(acts).calls|
    requires Request(After(acts).calls[c].id) in LogOf(After(acts).logs, a)
    ensures var call := After(acts).calls[c];
            && call.kind == Tx && a in call.asked && call.account in a.accounts
            && (call.pc.Done? && a in call.told ==> a in call.recall)
  {
    EveryRunKeeps(acts);
    var s := After(acts);
    var call := s.calls[c];
    assert CallOk(call) && About(LogOf(s.logs, a), call.id) == Expected(call, a);
    SentAboutSomething(LogOf(s.logs, a), Request(call.id), call.id);
  }

  // ---------- the device that answered is told as well ----------

  /** The state as the one call `call` of a single device's hub goes through its phases. */
  function OneCallState(a: AgentConn, pending: map<Id, nat>, call: Call, log: seq<Msg>, inflight: map<AgentConn, Delivery>): State {
    State([a], Bound(map[], a), pending, map[], [call], if log == [] then map[] else map[a := log], inflight)
  }

  lemma OnlyDevice(a: AgentConn, account: Account)
    requires account in a.accounts
    ensures DevicesFor(Bound(map[], a), account) == [a] && Without([], a) == []
  {
    BindAgrees(map[], [], a);
    DevicesExact(Bound(map[], a), [a], account);
    assert a in DevicesFor(Bound(map[], a), account);
  }

  lemma CallSteps(acts: seq<Action>, act: Action, s: State)
    requires Legal(acts) && Enabled(After(acts), act) && Next(After(acts), act) == s
    ensures Legal(acts + [act]) && After(acts + [act]) == s
  {
    OneMore(acts, act);
  }

  /** The call as it waits: the one device has been asked. */
  function WaitingCall(a: AgentConn, account: Account, id: Id): Call {
    Call(Tx, account, id, Waiting, None, [], [a], {a}, [], {})
  }

  lemma AskOne(a: AgentConn, account: Account, id: Id) returns (acts: seq<Action>)
    requires account in a.accounts
    ensures Legal(acts) && After(acts) == OneCallState(a, map[id := 0], WaitingCall(a, account, id), [Request(id)], map[])
  {
    hide Run, DevicesFor, Bound, Without;
    var begun := Call(Tx, account, id, Start, None, [], [], {}, [], {});
    var call := begun.(found := [a]);
    var asked := call.(asked := {a});
    var mine: map<Id, nat> := map[id := 0];
    var sent := [Request(id)];
    OnlyDevice(a, account);
    EmptyRun();
    assert LogOf(map[], a) + [Request(id)] == sent && call.asked + {a} == {a};
    acts := [];
    CallSteps(acts, Connect(a), OneCallState(a, map[], begun, [], map[]).(calls := []));
    acts := acts + [Connect(a)];
    CallSteps(acts, Begin(Tx, account, id), OneCallState(a, map[], begun, [], map[]));
    acts := acts + [Begin(Tx, account, id)];
    CallSteps(acts, Advance(0, true), OneCallState(a, map[], call.(pc := Snapped([a])), [], map[]));
    acts := acts + [Advance(0, true)];
    CallSteps(acts, Advance(0, true), OneCallState(a, mine, call.(pc := Writing([a], 0, 0)), [], map[]));
    acts := acts + [Advance(0, true)];
    CallSteps(acts, Advance(0, true), OneCallState(a, mine, asked.(pc := Writing([a], 1, 1)), sent, map[]));
    acts := acts + [Advance(0, true)];
    CallSteps(acts, Advance(0, true), OneCallState(a, mine, asked.(pc := Waiting), sent, map[]));
    acts := acts + [Advance(0, true)];
  }

  lemma AnswerOne(acts: seq<Action>, a: AgentConn, account: Account, id: Id, body: string) returns (more: seq<Action>)
    requires Legal(acts) && After(acts) == OneCallState(a, map[id := 0], WaitingCall(a, account, id), [Request(id)], map[])
    ensures Legal(more) && Lookup(a, Tx, Reply(id, body)) in more
    ensures var got := WaitingCall(a, account, id).(sends := [Reply(id, body)], pc := Leaving(Answered(Reply(id, body))));
            After(more) == OneCallState(a, map[id := 0], got, [Request(id)], map[])
  {
    hide Run, DevicesFor, Bound, Without;
    var reply := Reply(id, body);
    var call := WaitingCall(a, account, id);
    var got := call.(sends := [reply]);
    var mine: map<Id, nat> := map[id := 0];
    var sent := [Request(id)];
    var delivery := Delivery(Tx, reply, Some(0));
    assert call.sends + [reply] == [reply] && map[a := delivery] - {a} == map[];
    more := acts + [Lookup(a, Tx, reply)];
    CallSteps(acts, Lookup(a, Tx, reply), OneCallState(a, mine, call, sent, map[a := delivery]));
    CallSteps(more, Deliver(a), OneCallState(a, mine, got.(slot := Some(reply)), sent, map[]));
    more := more + [Deliver(a)];
    CallSteps(more, Advance(0, true), OneCallState(a, mine, got.(pc := Leaving(Answered(reply))), sent, map[]));
    more := more + [Advance(0, true)];
  }

  /** A device has answered, and its answer is returned, and yet it is sent the withdraw. */
  lemma AnswererIsWithdrawnToo(a: AgentConn, account: Account, id: Id, body: string) returns (acts: seq<Action>)
    requires account in a.accounts
    ensures Legal(acts) && Lookup(a, Tx, Reply(id, body)) in acts
    ensures var s := After(acts);
            && |s.calls| == 1 && s.calls[0].pc == Done(Answered(Reply(id, body)))
            && LogOf(s.logs, a) == [Request(id), Withdraw(id)]
  {
    hide Run, DevicesFor, Bound, Without;
    var reply := Reply(id, body);
    var got := WaitingCall(a, account, id).(sends := [reply]);
    var recalled := got.(recall := [a]);
    var sent, both := [Request(id)], [Request(id), Withdraw(id)];
    acts := AskOne(a, account, id);
    acts := AnswerOne(acts, a, account, id, body);
    OnlyDevice(a, account);
    assert sent + [Withdraw(id)] == both && got.told + {a} == {a};
    CallSteps(acts, Advance(0, true), OneCallState(a, map[], got.(pc := Removed(Answered(reply))), sent, map[]));
    acts := acts + [Advance(0, true)];
    CallSteps(acts, Advance(0, true), OneCallState(a, map[], recalled.(pc := Withdrawing(Answered(reply), [a], 0)), sent, map[]));
    acts := acts + [Advance(0, true)];
    CallSteps(acts, Advance(0, true),
              OneCallState(a, map[], recalled.(pc := Withdrawing(Answered(reply), [a], 1), told := {a}), both, map[]));
    acts := acts + [Advance(0, true)];
    CallSteps(acts, Advance(0, true), OneCallState(a, map[], recalled.(pc := Done(Answered(reply)), told := {a}), both, map[]));
    acts := acts + [Advance(0, true)];
  }

  lemma EmptyRun()
    ensures Legal([]) && After([]) == INITIAL
  {
  }

  // ---------- the tables and the index ----------

  /** The tables hold exactly the calls between registration and cleanup. */
  lemma PendingIsExact(acts: seq<Action>, kind: Kind, id: Id)
    requires Legal(acts)
    ensures var s := After(acts);
            id in Table(s, kind) <==>
            exists c :: 0 <= c < |s.calls| && s.calls[c].id == id && s.calls[c].kind == kind && Registered(s.calls[c].pc)
  {
    EveryRunKeeps(acts);
    var s := After(acts);
    if id in Table(s, kind) {
      var c := Table(s, kind)[id];
      assert s.calls[c].id == id && s.calls[c].kind == kind && Registered(s.calls[c].pc);
    }
  }

  /** In every reachable state the index answers from the live connections, newest first. */
  lemma RoutingFollowsConnections(acts: seq<Action>, account: Account)
    requires Legal(acts)
    ensures var s := After(acts);
            && DevicesFor(s.bindings, account) == Reverse(Serving(s.live, account))
            && Distinct(DevicesFor(s.bindings, account))
            && (forall a :: a in DevicesFor(s.bindings, account) <==> a in s.live && account in a.accounts)
  {
    EveryRunKeeps(acts);
    DevicesExact(After(acts).bindings, After(acts).live, account);
  }
}
