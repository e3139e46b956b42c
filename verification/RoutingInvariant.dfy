/** What every action of the hub protocol keeps. */
module RoutingInvariant {
  import opened Wrappers
  import opened Bindings
  import opened Routing

  /** The waiter is in its table exactly in these phases. */
  predicate Registered(pc: Pc) {
    pc.Writing? || pc.Waiting? || pc.Leaving?
  }

  predicate HasOutcome(pc: Pc) {
    pc.Leaving? || pc.Removed? || pc.Withdrawing? || pc.Done?
  }

  predicate Got(pc: Pc) {
    HasOutcome(pc) && pc.outcome.Answered?
  }

  ghost predicate IdsDistinct(s: State) {
    forall c, d :: 0 <= c < d < |s.calls| ==> s.calls[c].id != s.calls[d].id
  }

  /** A table holds the registered calls of its kind, and nothing else. */
  ghost predicate TableExact(m: map<Id, nat>, calls: seq<Call>, kind: Kind) {
    && (forall c :: 0 <= c < |calls| && calls[c].kind == kind && Registered(calls[c].pc) ==>
          calls[c].id in m && m[calls[c].id] == c)
    && (forall id :: id in m ==>
          m[id] < |calls| && calls[m[id]].id == id && calls[m[id]].kind == kind && Registered(calls[m[id]].pc))
  }

  /** A delivery under way, however stale, carries the id of the call whose waiter it found. */
  ghost predicate InflightOk(s: State) {
    forall a :: a in s.inflight && s.inflight[a].waiter.Some? ==>
      var d := s.inflight[a];
      d.waiter.value < |s.calls| && s.calls[d.waiter.value].id == d.reply.id && s.calls[d.waiter.value].kind == d.kind
  }

  /** The slot holds the first send until it is received; from then on the outcome does. */
  ghost predicate SlotOk(call: Call) {
    && (forall r :: r in call.sends ==> r.id == call.id)
    && if Got(call.pc) then call.sends != [] && call.pc.outcome == Answered(call.sends[0])
       else |call.sends| <= 1 && call.slot == if call.sends == [] then None else Some(call.sends[0])
  }

  ghost predicate Within(devices: set<AgentConn>, list: seq<AgentConn>) {
    forall a :: a in devices ==> a in list
  }

  ghost predicate Untold(call: Call) {
    call.told == {} && call.recall == []
  }

  ghost predicate FanOk(call: Call) {
    && (call.kind == Qry ==> |call.asked| <= 1 && Untold(call))
    && (HasOutcome(call.pc) ==> (call.pc.outcome == Offline <==> call.asked == {}))
    && match call.pc
       case Start => call.asked == {} && Untold(call)
       case Snapped(devices) => call.asked == {} && Untold(call) && devices != [] && Distinct(devices)
       case Writing(devices, i, n) =>
         && i <= |devices| && Distinct(devices) && Untold(call)
         && Within(call.asked, devices[..i])
         && n == |call.asked| && (call.kind == Qry ==> n == 0)
       case Waiting => call.asked != {} && Untold(call)
       case Leaving(_) => Untold(call)
       case Removed(_) => Untold(call) && call.kind == Tx
       case Withdrawing(_, devices, i) =>
         && i <= |devices| && Distinct(devices) && devices == call.recall && call.kind == Tx
         && Within(call.told, devices[..i])
       case Done(_) => Within(call.told, call.recall)
  }

  ghost predicate AllServe(devices: seq<AgentConn>, account: Account) {
    forall a :: a in devices ==> account in a.accounts
  }

  /** Every device the call has in hand, or has written to, proved the call's account. */
  ghost predicate RouteOk(call: Call) {
    && (forall a :: a in call.asked ==> call.account in a.accounts)
    && AllServe(call.recall, call.account)
    && (call.pc.Snapped? || call.pc.Writing? || call.pc.Withdrawing? ==> AllServe(call.pc.devices, call.account))
  }

  ghost predicate CallOk(call: Call) {
    SlotOk(call) && FanOk(call) && RouteOk(call)
  }

  ghost predicate CallsOk(s: State) {
    forall c :: 0 <= c < |s.calls| ==> CallOk(s.calls[c])
  }

  // ---------- what a device was sent about one id ----------

  predicate Concerns(m: Msg, id: Id) {
    !m.Note? && m.id == id
  }

  function About(log: seq<Msg>, id: Id): seq<Msg> {
    if log == [] then []
    else
      var n := |log| - 1;
      About(log[..n], id) + if Concerns(log[n], id) then [log[n]] else []
  }

  /** Exactly this: the question if it was accepted, then the withdraw if it was accepted. */
  function Expected(call: Call, a: AgentConn): seq<Msg> {
    (if a in call.asked then [Question(call)] else []) + if a in call.told then [Withdraw(call.id)] else []
  }

  ghost predicate LogsOk(s: State) {
    forall a: AgentConn, c {:trigger LogOf(s.logs, a), s.calls[c]} :: 0 <= c < |s.calls| ==>
      About(LogOf(s.logs, a), s.calls[c].id) == Expected(s.calls[c], a)
  }

  ghost predicate Unused(s: State, id: Id) {
    forall c :: 0 <= c < |s.calls| ==> s.calls[c].id != id
  }

  ghost predicate NothingUnused(s: State) {
    forall a: AgentConn, id {:trigger About(LogOf(s.logs, a), id)} :: Unused(s, id) ==>
      About(LogOf(s.logs, a), id) == []
  }

  ghost predicate Inv(s: State) {
    && Agrees(s.bindings, s.live) && Distinct(s.live)
    && IdsDistinct(s)
    && TableExact(s.pending, s.calls, Tx)
    && TableExact(s.queryPending, s.calls, Qry)
    && InflightOk(s)
    && CallsOk(s)
    && LogsOk(s)
    && NothingUnused(s)
  }

  lemma AboutSnoc(log: seq<Msg>, m: Msg, id: Id)
    ensures About(log + [m], id) == About(log, id) + if Concerns(m, id) then [m] else []
  {
    assert (log + [m])[..|log|] == log;
  }

  /** Writing to a connection changes only what it was sent about the id of the message. */
  lemma AboutPosted(logs: map<AgentConn, seq<Msg>>, post: Option<Post>, b: AgentConn, id: Id)
    ensures About(LogOf(Posted(logs, post), b), id) ==
            About(LogOf(logs, b), id) +
            if post.Some? && b == post.value.to && Concerns(post.value.msg, id) then [post.value.msg] else []
  {
    if post.Some? && b == post.value.to {
      AboutSnoc(LogOf(logs, b), post.value.msg, id);
    }
  }

  // ---------- actions that leave the calls alone ----------

  lemma ConnectKeeps(s: State, a: AgentConn)
    requires Inv(s) && Enabled(s, Connect(a))
    ensures Inv(Next(s, Connect(a)))
  {
    BindAgrees(s.bindings, s.live, a);
  }

  lemma DisconnectKeeps(s: State, a: AgentConn)
    requires Inv(s) && Enabled(s, Disconnect(a))
    ensures Inv(Next(s, Disconnect(a)))
  {
    UnbindAgrees(s.bindings, s.live, a);
  }

  lemma NotifyKeeps(s: State, a: AgentConn, text: string)
    requires Inv(s) && Enabled(s, Notify(a, text))
    ensures Inv(Next(s, Notify(a, text)))
  {
    var t := Next(s, Notify(a, text));
    forall b: AgentConn, id
      ensures About(LogOf(t.logs, b), id) == About(LogOf(s.logs, b), id)
    {
      AboutPosted(s.logs, Some(Post(a, Note(text))), b, id);
    }
    assert forall id :: Unused(t, id) ==> Unused(s, id);
  }

  lemma LookupKeeps(s: State, a: AgentConn, kind: Kind, reply: Reply)
    requires Inv(s) && Enabled(s, Lookup(a, kind, reply))
    ensures Inv(Next(s, Lookup(a, kind, reply)))
  {
    var t := Next(s, Lookup(a, kind, reply));
    assert forall id :: Unused(t, id) ==> Unused(s, id);
  }

  lemma BeginKeeps(s: State, kind: Kind, account: Account, id: Id)
    requires Inv(s) && Enabled(s, Begin(kind, account, id))
    ensures Inv(Next(s, Begin(kind, account, id)))
  {
    var t := Next(s, Begin(kind, account, id));
    var call := t.calls[|s.calls|];
    assert Unused(s, id);
    assert IdsDistinct(t) && InflightOk(t) && CallsOk(t) by {
      assert CallOk(call);
      assert forall c :: 0 <= c < |s.calls| ==> t.calls[c] == s.calls[c];
    }
    BeginTable(s.pending, s.calls, call, Tx);
    BeginTable(s.queryPending, s.calls, call, Qry);
    BeginLogs(s, t);
  }

  lemma BeginTable(m: map<Id, nat>, calls: seq<Call>, call: Call, kind: Kind)
    requires TableExact(m, calls, kind) && call.pc == Start
    ensures TableExact(m, calls + [call], kind)
  {
  }

  lemma BeginLogs(s: State, t: State)
    requires LogsOk(s) && NothingUnused(s) && t.logs == s.logs
    requires |t.calls| == |s.calls| + 1 && t.calls[..|s.calls|] == s.calls
    requires Unused(s, t.calls[|s.calls|].id) && t.calls[|s.calls|].asked == t.calls[|s.calls|].told == {}
    ensures LogsOk(t) && NothingUnused(t)
  {
    var n := |s.calls|;
    assert forall c :: 0 <= c < n ==> t.calls[c] == s.calls[c];
    forall a: AgentConn, c | 0 <= c < |t.calls|
      ensures About(LogOf(t.logs, a), t.calls[c].id) == Expected(t.calls[c], a)
    {
      if c == n {
        assert About(LogOf(s.logs, a), t.calls[n].id) == [];
      }
    }
    forall a: AgentConn, i | Unused(t, i)
      ensures About(LogOf(t.logs, a), i) == []
    {
      assert forall c :: 0 <= c < n ==> t.calls[c].id != i;
      assert Unused(s, i);
    }
  }

  // ---------- actions that change one call ----------

  /** `t` is `s` with call `c` changed in phase, slot and history only. */
  ghost predicate OneCall(s: State, t: State, c: nat) {
    && c < |s.calls| && |t.calls| == |s.calls| && t.calls == s.calls[c := t.calls[c]]
    && t.calls[c].id == s.calls[c].id && t.calls[c].kind == s.calls[c].kind
  }

  lemma OneCallKeepsNames(s: State, t: State, c: nat)
    requires IdsDistinct(s) && InflightOk(s) && OneCall(s, t, c)
    requires forall a :: a in t.inflight ==> a in s.inflight && t.inflight[a] == s.inflight[a]
    ensures IdsDistinct(t) && InflightOk(t)
    ensures forall id :: Unused(t, id) <==> Unused(s, id)
  {
    forall d | 0 <= d < |s.calls|
      ensures t.calls[d].id == s.calls[d].id && t.calls[d].kind == s.calls[d].kind
    {
    }
    forall id
      ensures Unused(t, id) <==> Unused(s, id)
    {
      if Unused(t, id) {
        forall d | 0 <= d < |s.calls| ensures s.calls[d].id != id { assert t.calls[d].id != id; }
      }
      if Unused(s, id) {
        forall d | 0 <= d < |t.calls| ensures t.calls[d].id != id { assert s.calls[d].id != id; }
      }
    }
  }

  /** How a table must follow its call: entered, removed, or left as it was. */
  ghost predicate Tracks(n: map<Id, nat>, m: map<Id, nat>, before: Call, after: Call, c: nat) {
    if Registered(after.pc) then n == m[before.id := c] || (Registered(before.pc) && n == m)
    else n == m - {before.id} || (!Registered(before.pc) && n == m)
  }

  lemma TableFollows(m: map<Id, nat>, n: map<Id, nat>, s: State, t: State, c: nat, kind: Kind)
    requires IdsDistinct(s) && OneCall(s, t, c) && TableExact(m, s.calls, kind)
    requires if s.calls[c].kind == kind then Tracks(n, m, s.calls[c], t.calls[c], c) else n == m
    ensures TableExact(n, t.calls, kind)
  {
    forall d | 0 <= d < |t.calls| && t.calls[d].kind == kind && Registered(t.calls[d].pc)
      ensures t.calls[d].id in n && n[t.calls[d].id] == d
    {
      if d != c {
        assert t.calls[d] == s.calls[d];
        assert s.calls[d].id != s.calls[c].id;
      }
    }
    forall id | id in n
      ensures n[id] < |t.calls| && t.calls[n[id]].id == id && t.calls[n[id]].kind == kind && Registered(t.calls[n[id]].pc)
    {
      if id != s.calls[c].id {
        assert id in m && n[id] == m[id] && m[id] != c;
        assert t.calls[m[id]] == s.calls[m[id]];
      }
    }
  }

  lemma CallsFollow(s: State, t: State, c: nat)
    requires CallsOk(s) && OneCall(s, t, c) && CallOk(t.calls[c])
    ensures CallsOk(t)
  {
    forall d | 0 <= d < |t.calls|
      ensures CallOk(t.calls[d])
    {
      if d != c {
        assert t.calls[d] == s.calls[d];
      }
    }
  }

  /** The logs stay as expected when the one message written is the one the history records. */
  lemma LogsFollow(s: State, t: State, c: nat, post: Option<Post>)
    requires IdsDistinct(s) && LogsOk(s) && NothingUnused(s) && OneCall(s, t, c)
    requires forall id :: Unused(t, id) <==> Unused(s, id)
    requires t.logs == Posted(s.logs, post)
    requires post.Some? ==> Concerns(post.value.msg, s.calls[c].id)
    requires forall a: AgentConn :: Expected(t.calls[c], a) ==
               Expected(s.calls[c], a) + if post.Some? && a == post.value.to then [post.value.msg] else []
    ensures LogsOk(t) && NothingUnused(t)
  {
    forall a: AgentConn, d | 0 <= d < |t.calls|
      ensures About(LogOf(t.logs, a), t.calls[d].id) == Expected(t.calls[d], a)
    {
      assert About(LogOf(s.logs, a), s.calls[d].id) == Expected(s.calls[d], a);
      AboutPosted(s.logs, post, a, s.calls[d].id);
      if d != c {
        assert t.calls[d] == s.calls[d];
        assert s.calls[d].id != s.calls[c].id;
      }
    }
    forall a: AgentConn, id | Unused(t, id)
      ensures About(LogOf(t.logs, a), id) == []
    {
      assert Unused(s, id);
      assert About(LogOf(s.logs, a), id) == [];
      assert s.calls[c].id != id;
      AboutPosted(s.logs, post, a, id);
    }
  }

  lemma DeliverKeeps(s: State, a: AgentConn)
    requires Inv(s) && Enabled(s, Deliver(a))
    ensures Inv(Next(s, Deliver(a)))
  {
    var t := Next(s, Deliver(a));
    var d := s.inflight[a];
    if d.waiter.None? {
      assert forall id :: Unused(t, id) ==> Unused(s, id);
    } else {
      OfferFollows(s, t, d.waiter.value, d.reply);
    }
  }

  lemma OfferFollows(s: State, t: State, c: nat, reply: Reply)
    requires Inv(s) && c < |s.calls| && reply.id == s.calls[c].id
    requires t == s.(calls := s.calls[c := Offer(s.calls[c], reply)], inflight := t.inflight)
    requires forall a :: a in t.inflight ==> a in s.inflight && t.inflight[a] == s.inflight[a]
    ensures Inv(t)
  {
    OfferKeeps(s.calls[c], reply);
    OneCallKeepsNames(s, t, c);
    TableFollows(s.pending, t.pending, s, t, c, Tx);
    TableFollows(s.queryPending, t.queryPending, s, t, c, Qry);
    CallsFollow(s, t, c);
    LogsFollow(s, t, c, None);
  }

  lemma OfferKeeps(call: Call, reply: Reply)
    requires CallOk(call) && reply.id == call.id
    ensures CallOk(Offer(call, reply))
    ensures forall a: AgentConn :: Expected(Offer(call, reply), a) == Expected(call, a)
  {
  }

  lemma MovedTracks(call: Call, devices: seq<AgentConn>, ok: bool, m: map<Id, nat>, c: nat)
    requires CanMove(call, ok)
    ensures Tracks(Entered(m, call, c), m, call, Moved(call, devices, ok), c)
  {
  }

  lemma MovedSlot(call: Call, devices: seq<AgentConn>, ok: bool)
    requires SlotOk(call) && CanMove(call, ok)
    ensures SlotOk(Moved(call, devices, ok))
  {
  }

  lemma MovedRoute(call: Call, devices: seq<AgentConn>, ok: bool)
    requires RouteOk(call) && CanMove(call, ok) && AllServe(devices, call.account)
    ensures RouteOk(Moved(call, devices, ok))
  {
  }

  lemma MovedFan(call: Call, devices: seq<AgentConn>, ok: bool)
    requires FanOk(call) && CanMove(call, ok) && Distinct(devices)
    ensures FanOk(Moved(call, devices, ok))
  {
    if call.pc.Writing? && call.pc.next < |call.pc.devices| {
      WritingFan(call, devices, ok);
    } else if call.pc.Withdrawing? {
      WithdrawingFan(call, devices, ok);
    }
  }

  lemma WritingFan(call: Call, devices: seq<AgentConn>, ok: bool)
    requires FanOk(call) && call.pc.Writing? && call.pc.next < |call.pc.devices|
    ensures FanOk(Moved(call, devices, ok))
  {
    var snap, i := call.pc.devices, call.pc.next;
    assert snap[i] !in snap[..i];
    assert snap[..i + 1] == snap[..i] + [snap[i]];
    assert call.kind == Qry ==> call.asked == {};
  }

  lemma WithdrawingFan(call: Call, devices: seq<AgentConn>, ok: bool)
    requires FanOk(call) && call.pc.Withdrawing?
    ensures FanOk(Moved(call, devices, ok))
  {
    var snap, i := call.pc.devices, call.pc.next;
    if i < |snap| {
      assert snap[..i + 1] == snap[..i] + [snap[i]];
    } else {
      assert snap[..i] == snap;
    }
  }

  lemma MovedExpected(call: Call, devices: seq<AgentConn>, ok: bool, a: AgentConn)
    requires FanOk(call) && CanMove(call, ok)
    ensures Expected(Moved(call, devices, ok), a) ==
            Expected(call, a) +
            if Sent(call, ok).Some? && a == Sent(call, ok).value.to then [Sent(call, ok).value.msg] else []
  {
    match call.pc
    case Writing(snap, i, n) =>
      if i < |snap| {
        assert snap[i] !in snap[..i];
      }
    case Withdrawing(_, snap, i) =>
      if i < |snap| {
        assert snap[i] !in snap[..i];
      }
    case _ =>
  }

  lemma AdvanceCalls(s: State, c: nat, ok: bool)
    requires Inv(s) && Enabled(s, Advance(c, ok))
    ensures OneCall(s, AdvanceCall(s, c, ok), c)
    ensures CallsOk(AdvanceCall(s, c, ok))
  {
    var t := AdvanceCall(s, c, ok);
    var call := s.calls[c];
    var devices := DevicesFor(s.bindings, call.account);
    assert CallOk(call);
    assert Distinct(devices) && AllServe(devices, call.account) by {
      DevicesExact(s.bindings, s.live, call.account);
    }
    hide LogsOk, NothingUnused, TableExact, Agrees, DevicesFor, InflightOk, IdsDistinct, About;
    MovedRoute(call, devices, ok);
    MovedSlot(call, devices, ok);
    MovedFan(call, devices, ok);
    CallsFollow(s, t, c);
  }

  lemma AdvanceTables(s: State, c: nat, ok: bool)
    requires Inv(s) && Enabled(s, Advance(c, ok))
    ensures var t := AdvanceCall(s, c, ok); TableExact(t.pending, t.calls, Tx) && TableExact(t.queryPending, t.calls, Qry)
  {
    var t := AdvanceCall(s, c, ok);
    AdvanceCalls(s, c, ok);
    var devices := DevicesFor(s.bindings, s.calls[c].account);
    MovedTracks(s.calls[c], devices, ok, s.pending, c);
    MovedTracks(s.calls[c], devices, ok, s.queryPending, c);
    TableFollows(s.pending, t.pending, s, t, c, Tx);
    TableFollows(s.queryPending, t.queryPending, s, t, c, Qry);
  }

  lemma AdvanceKeeps(s: State, c: nat, ok: bool)
    requires Inv(s) && Enabled(s, Advance(c, ok))
    ensures Inv(Next(s, Advance(c, ok)))
  {
    var t := AdvanceCall(s, c, ok);
    var call := s.calls[c];
    var sent := Sent(call, ok);
    AdvanceCalls(s, c, ok);
    AdvanceTables(s, c, ok);
    OneCallKeepsNames(s, t, c);
    forall a: AgentConn
      ensures Expected(t.calls[c], a) ==
              Expected(call, a) + if sent.Some? && a == sent.value.to then [sent.value.msg] else []
    {
      assert CallOk(call);
      MovedExpected(call, DevicesFor(s.bindings, call.account), ok, a);
    }
    LogsFollow(s, t, c, sent);
  }

  lemma StepKeeps(s: State, act: Action)
    requires Inv(s) && Enabled(s, act)
    ensures Inv(Next(s, act))
  {
    match act
    case Connect(a) => ConnectKeeps(s, a);
    case Disconnect(a) => DisconnectKeeps(s, a);
    case Notify(a, text) => NotifyKeeps(s, a, text);
    case Begin(kind, account, id) => BeginKeeps(s, kind, account, id);
    case Advance(c, ok) => AdvanceKeeps(s, c, ok);
    case Lookup(a, kind, reply) => LookupKeeps(s, a, kind, reply);
    case Deliver(a) => DeliverKeeps(s, a);
  }

  lemma {:induction false} EveryRunKeeps(acts: seq<Action>)
    requires Legal(acts)
    ensures Inv(After(acts))
  {
    if acts != [] {
      var n := |acts| - 1;
      EveryRunKeeps(acts[..n]);
      StepKeeps(After(acts[..n]), acts[n]);
    }
  }
}
