/**
 * The hub's own code: the maps it updates under its locks and the loops of a call.
 *
 * Each method is one critical section or one loop of the hub; what the sections guarantee when many
 * calls interleave is proved in RoutingTheorems. A write to a connection appends to its log when the
 * connection accepts it; whether it does is the caller's `accepts`.
 */
module HubState {
  import opened Wrappers
  import opened Bindings
  import opened Routing

  /** A channel of capacity one. `sent` is the history of the sends that succeeded. */
  class Waiter {
    var slot: Option<Reply>
    ghost var sent: seq<Reply>

    constructor ()
      ensures slot == None && sent == []
    {
      slot := None;
      sent := [];
    }

    /** A non-blocking send: dropped when the slot is taken. */
    method Send(reply: Reply)
      modifies this
      ensures slot == (if old(slot).None? then Some(reply) else old(slot))
      ensures sent == (if old(slot).None? then old(sent) + [reply] else old(sent))
    {
      if slot.None? {
        slot := Some(reply);
        sent := sent + [reply];
      }
    }
  }

  // ---------- what the write loops compute ----------

  /** The logs after offering `m` to the first `n` devices. */
  function FanLogs(logs: map<AgentConn, seq<Msg>>, devices: seq<AgentConn>, m: Msg, accepts: seq<bool>, n: nat)
      : map<AgentConn, seq<Msg>>
    requires n <= |devices| <= |accepts|
  {
    if n == 0 then logs
    else
      var before := FanLogs(logs, devices, m, accepts, n - 1);
      if accepts[n - 1] then Written(before, devices[n - 1], m) else before
  }

  function Accepted(accepts: seq<bool>, n: nat): nat
    requires n <= |accepts|
  {
    if n == 0 then 0 else Accepted(accepts, n - 1) + if accepts[n - 1] then 1 else 0
  }

  /** Each device's log grows by the message, once per position at which it is listed and accepts. */
  lemma {:induction false} FanLogsOf(logs: map<AgentConn, seq<Msg>>, devices: seq<AgentConn>, m: Msg, accepts: seq<bool>, n: nat, a: AgentConn)
    requires n <= |devices| <= |accepts| && Distinct(devices)
    ensures LogOf(FanLogs(logs, devices, m, accepts, n), a) ==
            LogOf(logs, a) + if exists i :: 0 <= i < n && devices[i] == a && accepts[i] then [m] else []
  {
    if n > 0 {
      FanLogsOf(logs, devices, m, accepts, n - 1, a);
      if devices[n - 1] == a {
        assert forall i :: 0 <= i < n - 1 ==> devices[i] != a;
        assert accepts[n - 1] ==> exists i :: 0 <= i < n && devices[i] == a && accepts[i];
      } else {
        assert (exists i :: 0 <= i < n && devices[i] == a && accepts[i]) <==>
               (exists i :: 0 <= i < n - 1 && devices[i] == a && accepts[i]);
      }
    }
  }

  /** The state after call `c` has made its next `n` steps, the k-th with outcome `oks[k]`. */
  ghost function Steps(s: State, c: nat, oks: seq<bool>, n: nat): Option<State>
    requires n <= |oks|
  {
    if n == 0 then Some(s)
    else
      var before := Steps(s, c, oks, n - 1);
      if before.Some? && Enabled(before.value, Advance(c, oks[n - 1]))
      then Some(Next(before.value, Advance(c, oks[n - 1]))) else None
  }

  /** The fan-out loop of a sendRequest call is its Writing steps, run with nobody in between. */
  lemma {:induction false} FanOutIsWritingSteps(s: State, c: nat, accepts: seq<bool>, n: nat)
    requires c < |s.calls| && s.calls[c].kind == Tx && s.calls[c].pc.Writing?
    requires s.calls[c].pc.next == s.calls[c].pc.delivered == 0 && n <= |s.calls[c].pc.devices| <= |accepts|
    ensures Steps(s, c, accepts, n).Some?
    ensures var t := Steps(s, c, accepts, n).value; var devices := s.calls[c].pc.devices;
            && c < |t.calls| && t.calls[c].kind == Tx && t.calls[c].id == s.calls[c].id
            && t.calls[c].pc == Writing(devices, n, Accepted(accepts, n))
            && t.logs == FanLogs(s.logs, devices, Request(s.calls[c].id), accepts, n)
  {
    hide DevicesFor, Written, LogOf;
    if n > 0 {
      FanOutIsWritingSteps(s, c, accepts, n - 1);
    }
  }

  /** One write of the withdraw loop. */
  lemma WithdrawingStep(s: State, c: nat, ok: bool)
    requires c < |s.calls| && s.calls[c].pc.Withdrawing? && s.calls[c].pc.next < |s.calls[c].pc.devices|
    ensures Enabled(s, Advance(c, ok))
    ensures var pc := s.calls[c].pc; var t := Next(s, Advance(c, ok));
            && c < |t.calls| && t.calls[c].id == s.calls[c].id
            && t.calls[c].pc == pc.(next := pc.next + 1)
            && t.logs == if ok then Written(s.logs, pc.devices[pc.next], Withdraw(s.calls[c].id)) else s.logs
  {
    hide DevicesFor, Written;
  }

  /** The withdraw loop is the call's Withdrawing steps. */
  lemma {:induction false} WithdrawIsWithdrawingSteps(s: State, c: nat, accepts: seq<bool>, n: nat)
    requires c < |s.calls| && s.calls[c].pc.Withdrawing?
    requires s.calls[c].pc.next == 0 && n <= |s.calls[c].pc.devices| <= |accepts|
    ensures Steps(s, c, accepts, n).Some?
    ensures var t := Steps(s, c, accepts, n).value; var devices := s.calls[c].pc.devices;
            && c < |t.calls| && t.calls[c].id == s.calls[c].id
            && t.calls[c].pc == Withdrawing(s.calls[c].pc.outcome, devices, n)
            && t.logs == FanLogs(s.logs, devices, Withdraw(s.calls[c].id), accepts, n)
  {
    hide DevicesFor, Written, LogOf;
    if n > 0 {
      WithdrawIsWithdrawingSteps(s, c, accepts, n - 1);
      WithdrawingStep(Steps(s, c, accepts, n - 1).value, c, accepts[n - 1]);
      hide Next, Enabled, Sent, Posted;
    }
  }

  /** The first device that accepts, if any. */
  ghost predicate IsFirstTaker(accepts: seq<bool>, n: nat, taker: Option<nat>)
    requires n <= |accepts|
  {
    match taker
    case Some(i) => i < n && accepts[i] && forall k :: 0 <= k < i ==> !accepts[k]
    case None => forall k :: 0 <= k < n ==> !accepts[k]
  }

  /** The state with call `c` at another phase. */
  function WithCall(s: State, c: nat, call: Call): State
    requires c < |s.calls|
  {
    s.(calls := s.calls[c := call])
  }

  /** Writes of a query that nobody accepts only move it to the next device. */
  lemma {:induction false} QuerySkips(s: State, c: nat, accepts: seq<bool>, n: nat)
    requires c < |s.calls| && s.calls[c].kind == Qry && s.calls[c].pc.Writing?
    requires s.calls[c].pc.next == s.calls[c].pc.delivered == 0 && n <= |s.calls[c].pc.devices| <= |accepts|
    requires forall k :: 0 <= k < n ==> !accepts[k]
    ensures Steps(s, c, accepts, n) == Some(WithCall(s, c, s.calls[c].(pc := Writing(s.calls[c].pc.devices, n, 0))))
  {
    var call := s.calls[c];
    var devices := call.pc.devices;
    if n > 0 {
      QuerySkips(s, c, accepts, n - 1);
      WithCallTwice(s, c, call.(pc := Writing(devices, n - 1, 0)), call.(pc := Writing(devices, n, 0)));
    } else {
      assert s.calls[c := call] == s.calls;
    }
  }

  lemma WithCallTwice(s: State, c: nat, call: Call, next: Call)
    requires c < |s.calls|
    ensures WithCall(WithCall(s, c, call), c, next) == WithCall(s, c, next)
  {
    assert s.calls[c := call][c := next] == s.calls[c := next];
  }

  /**
   * The loop of a sendQuery call is its Writing steps, run with nobody in between: up to the first
   * device that accepts, which is the only one asked, or through all of them and out.
   */
  lemma FirstTakerIsWritingSteps(s: State, c: nat, accepts: seq<bool>, taker: Option<nat>)
    requires c < |s.calls| && s.calls[c].kind == Qry && s.calls[c].pc.Writing?
    requires s.calls[c].pc.next == s.calls[c].pc.delivered == 0 && |s.calls[c].pc.devices| < |accepts|
    requires IsFirstTaker(accepts, |s.calls[c].pc.devices|, taker)
    ensures var call := s.calls[c]; var devices := call.pc.devices;
            match taker
            case Some(i) =>
              Steps(s, c, accepts, i + 1) ==
              Some(WithCall(s, c, call.(pc := Waiting, asked := call.asked + {devices[i]})).(
                     logs := Written(s.logs, devices[i], Query(call.id))))
            case None => Steps(s, c, accepts, |devices| + 1) == Some(WithCall(s, c, call.(pc := Leaving(Offline))))
  {
    var call := s.calls[c];
    var devices := call.pc.devices;
    var n := if taker.Some? then taker.value else |devices|;
    var next := if taker.Some? then call.(pc := Waiting, asked := call.asked + {devices[n]}) else call.(pc := Leaving(Offline));
    QuerySkips(s, c, accepts, n);
    WithCallTwice(s, c, call.(pc := Writing(devices, n, 0)), next);
  }

  /** The loop that builds a fresh slice, leaving `c` out. */
  method RemoveConn(list: seq<AgentConn>, c: AgentConn) returns (out: seq<AgentConn>)
    ensures out == Without(list, c)
  {
    out := [];
    for i := 0 to |list|
      invariant out == Without(list[..i], c)
    {
      assert list[..i + 1][..i] == list[..i];
      if list[i] != c {
        out := out + [list[i]];
      }
    }
    assert list[..|list|] == list;
  }

  class Hub {
    var bindings: Index
    var pending: map<Id, Waiter>
    var queryPending: map<Id, Waiter>
    var logs: map<AgentConn, seq<Msg>>

    constructor ()
      ensures bindings == map[] && pending == map[] && queryPending == map[] && logs == map[]
    {
      bindings, pending, queryPending, logs := map[], map[], map[], map[];
    }

    /** One edit per account: the connection goes to the end of the account's list. */
    method Bind(a: AgentConn)
      modifies this`bindings
      ensures bindings == Bound(old(bindings), a)
    {
      for i := 0 to |a.accounts|
        invariant bindings == BindUpTo(old(bindings), a, i)
      {
        var acc := a.accounts[i];
        var rest := RemoveConn(Get(bindings, acc), a);
        bindings := bindings[acc := rest + [a]];
      }
    }

    /** One edit per account: the connection leaves its list, and an empty list leaves the index. */
    method Unbind(a: AgentConn)
      modifies this`bindings
      ensures bindings == Unbound(old(bindings), a)
    {
      for i := 0 to |a.accounts|
        invariant bindings == UnbindUpTo(old(bindings), a, i)
      {
        var acc := a.accounts[i];
        var rest := RemoveConn(Get(bindings, acc), a);
        if |rest| == 0 {
          bindings := bindings - {acc};
        } else {
          bindings := bindings[acc := rest];
        }
      }
    }

    /** True exactly when some live connection proved the account. */
    method AccountOnline(account: Account, ghost live: seq<AgentConn>) returns (online: bool)
      requires Agrees(bindings, live)
      ensures online <==> exists c :: c in live && account in c.accounts
    {
      online := |Get(bindings, account)| > 0;
      ServingMembers(live, account);
      assert Entry(bindings, account) == NonEmpty(Serving(live, account));
      if online {
        assert Serving(live, account)[0] in Serving(live, account);
      }
    }

    /** Fills an array with the account's devices from the newest to the oldest. */
    method DevicesForAccount(account: Account) returns (out: array<AgentConn>)
      ensures fresh(out) && out[..] == DevicesFor(bindings, account)
    {
      var list := Get(bindings, account);
      var n := |list|;
      out := new AgentConn[n](_ => AgentConn(0, "", []));
      for i := 0 to n
        invariant forall k :: 0 <= k < i ==> out[n - 1 - k] == list[k]
      {
        out[n - 1 - i] := list[i];
      }
      assert forall j :: 0 <= j < n ==> out[j] == list[n - 1 - j] by {
        forall j | 0 <= j < n
          ensures out[j] == list[n - 1 - j]
        {
          assert out[n - 1 - (n - 1 - j)] == list[n - 1 - j];
        }
      }
    }

    /** Offers `m` to every device and counts the writes accepted. */
    method FanOut(devices: seq<AgentConn>, m: Msg, accepts: seq<bool>) returns (delivered: nat)
      requires |devices| <= |accepts|
      modifies this`logs
      ensures logs == FanLogs(old(logs), devices, m, accepts, |devices|)
      ensures delivered == Accepted(accepts, |devices|)
    {
      delivered := 0;
      for i := 0 to |devices|
        invariant logs == FanLogs(old(logs), devices, m, accepts, i)
        invariant delivered == Accepted(accepts, i)
      {
        if accepts[i] {
          logs := Written(logs, devices[i], m);
          delivered := delivered + 1;
        }
      }
    }

    /** Offers `m` to the devices in turn until one accepts; the others are not asked. */
    method FirstTaker(devices: seq<AgentConn>, m: Msg, accepts: seq<bool>) returns (sent: bool, ghost taker: Option<nat>)
      requires |devices| <= |accepts|
      modifies this`logs
      ensures IsFirstTaker(accepts, |devices|, taker) && (sent <==> taker.Some?)
      ensures logs == if sent then Written(old(logs), devices[taker.value], m) else old(logs)
    {
      sent, taker := false, None;
      for i := 0 to |devices|
        invariant !sent && logs == old(logs) && taker == None
        invariant forall k :: 0 <= k < i ==> !accepts[k]
      {
        if accepts[i] {
          logs := Written(logs, devices[i], m);
          sent, taker := true, Some(i);
          break;
        }
      }
    }

    /** Looks the waiter up and sends without blocking; an unknown id is dropped. */
    method DeliverResult(res: Reply)
      modifies if res.id in pending then {pending[res.id]} else {}
      ensures res.id in pending ==> var w := pending[res.id];
                && w.slot == (if old(w.slot).None? then Some(res) else old(w.slot))
                && w.sent == (if old(w.slot).None? then old(w.sent) + [res] else old(w.sent))
    {
      if res.id in pending {
        pending[res.id].Send(res);
      }
    }

    method DeliverQueryResult(id: Id, body: string)
      modifies if id in queryPending then {queryPending[id]} else {}
      ensures id in queryPending ==> var w := queryPending[id];
                && w.slot == (if old(w.slot).None? then Some(Reply(id, body)) else old(w.slot))
                && w.sent == (if old(w.slot).None? then old(w.sent) + [Reply(id, body)] else old(w.sent))
    {
      if id in queryPending {
        queryPending[id].Send(Reply(id, body));
      }
    }

    /** Waits on the channel of `id` while the replies to it, of contents `arrivals`, are handed in. */
    method Await(id: Id, waiter: Waiter, arrivals: seq<string>) returns (outcome: Outcome)
      requires id in pending && pending[id] == waiter && waiter.slot == None
      modifies waiter
      ensures outcome == if arrivals == [] then Expired else Answered(Reply(id, arrivals[0]))
    {
      for i := 0 to |arrivals|
        invariant waiter.slot == if i == 0 then None else Some(Reply(id, arrivals[0]))
      {
        DeliverResult(Reply(id, arrivals[i]));
      }
      outcome := if waiter.slot.Some? then Answered(waiter.slot.value) else Expired;
    }

    /**
     * A whole sendRequest call with nothing else running but replies to it, of contents `arrivals`,
     * handed in while it waits. It returns the first of them, leaves the table as it found it, and offers every device
     * the request and then the withdraw, the one that answered included.
     */
    method SendRequest(account: Account, id: Id, accepts: seq<bool>, recalls: seq<bool>, arrivals: seq<string>)
        returns (outcome: Outcome)
      requires id !in pending && |Get(bindings, account)| <= |accepts| && |Get(bindings, account)| <= |recalls|
      modifies this`pending, this`logs
      ensures pending == old(pending)
      ensures var devices := DevicesFor(bindings, account); var n := |devices|;
              && logs == FanLogs(FanLogs(old(logs), devices, Request(id), accepts, n), devices, Withdraw(id), recalls, n)
              && outcome == (if Accepted(accepts, n) == 0 then Offline
                             else if arrivals == [] then Expired else Answered(Reply(id, arrivals[0])))
    {
      var devices := DevicesForAccount(account);
      if devices.Length == 0 {
        return Offline;
      }
      var waiter := new Waiter();
      pending := pending[id := waiter];
      var delivered := FanOut(devices[..], Request(id), accepts);
      if delivered == 0 {
        outcome := Offline;
      } else {
        outcome := Await(id, waiter, arrivals);
      }
      pending := pending - {id};
      var again := DevicesForAccount(account);
      var _ := FanOut(again[..], Withdraw(id), recalls);
    }

    /** A whole sendQuery call run alone: at most one device is asked, and nothing is withdrawn. */
    method SendQuery(account: Account, id: Id, accepts: seq<bool>, arrivals: seq<string>) returns (outcome: Outcome)
      requires id !in queryPending && |Get(bindings, account)| <= |accepts|
      modifies this`queryPending, this`logs
      ensures queryPending == old(queryPending)
      ensures var devices := DevicesFor(bindings, account);
              exists taker :: IsFirstTaker(accepts, |devices|, taker) &&
                match taker
                case None => outcome == Offline && logs == old(logs)
                case Some(i) =>
                  && logs == Written(old(logs), devices[i], Query(id))
                  && outcome == if arrivals == [] then Expired else Answered(Reply(id, arrivals[0]))
    {
      var devices := DevicesForAccount(account);
      if devices.Length == 0 {
        assert IsFirstTaker(accepts, 0, None);
        return Offline;
      }
      var waiter := new Waiter();
      queryPending := queryPending[id := waiter];
      var sent, taker := FirstTaker(devices[..], Query(id), accepts);
      ghost var asked := logs;
      if !sent {
        outcome := Offline;
      } else {
        for i := 0 to |arrivals|
          invariant queryPending == old(queryPending)[id := waiter] && logs == asked
          invariant waiter.slot == if i == 0 then None else Some(Reply(id, arrivals[0]))
        {
          DeliverQueryResult(id, arrivals[i]);
        }
        outcome := if waiter.slot.Some? then Answered(waiter.slot.value) else Expired;
      }
      queryPending := queryPending - {id};
      assert IsFirstTaker(accepts, devices.Length, taker);
    }
  }
}
