/**
 * The hub as a concurrent protocol: one action per critical section.
 *
 * Any number of sendRequest and sendQuery calls run side by side with connections that come and go
 * and with results that arrive at any time. Delivery takes two actions, the lookup under the lock
 * and the non-blocking send on the one-slot channel, so a delivery can fire after its call has
 * cleaned up. Each connection has one reader, hence at most one delivery under way.
 */
module Routing {
  import opened Wrappers
  import opened Bindings

  type Id = string

  datatype Kind = Tx | Qry

  datatype Reply = Reply(id: Id, body: string)

  datatype Msg =
    | Request(id: Id)
    | Query(id: Id)
    | Withdraw(id: Id)
    | Note(text: string) // Welcome and Control frames: not correlated with a call

  datatype Outcome = Offline | Expired | Answered(reply: Reply)

  /** Where a call stands; the waiter is registered from Writing to Leaving. */
  datatype Pc =
    | Start
    | Snapped(devices: seq<AgentConn>)
    | Writing(devices: seq<AgentConn>, next: nat, delivered: nat)
    | Waiting
    | Leaving(outcome: Outcome)
    | Removed(outcome: Outcome)
    | Withdrawing(outcome: Outcome, devices: seq<AgentConn>, next: nat)
    | Done(outcome: Outcome)

  /**
   * `slot` is the call's channel. The rest is history: `sends` are the sends that ever succeeded on
   * it, `found` the devices its first snapshot returned, `asked` and `told` those that accepted the
   * question and the withdraw, `recall` the devices found when the withdraw began.
   */
  datatype Call = Call(
    kind: Kind, account: Account, id: Id, pc: Pc,
    slot: Option<Reply>, sends: seq<Reply>,
    found: seq<AgentConn>, asked: set<AgentConn>, recall: seq<AgentConn>, told: set<AgentConn>)

  datatype Delivery = Delivery(kind: Kind, reply: Reply, waiter: Option<nat>)

  /** A waiter is named by the index of its call. */
  datatype State = State(
    live: seq<AgentConn>,
    bindings: Index,
    pending: map<Id, nat>,
    queryPending: map<Id, nat>,
    calls: seq<Call>,
    logs: map<AgentConn, seq<Msg>>,
    inflight: map<AgentConn, Delivery>)

  const INITIAL := State([], map[], map[], map[], [], map[], map[])

  datatype Action =
    | Connect(a: AgentConn)
    | Disconnect(a: AgentConn)
    | Notify(a: AgentConn, text: string)
    | Begin(kind: Kind, account: Account, id: Id)
    | Advance(c: nat, ok: bool) // ok: the write was accepted, or the reply was received
    | Lookup(a: AgentConn, kind: Kind, reply: Reply)
    | Deliver(a: AgentConn)

  function LogOf(logs: map<AgentConn, seq<Msg>>, a: AgentConn): seq<Msg> {
    if a in logs then logs[a] else []
  }

  function Written(logs: map<AgentConn, seq<Msg>>, a: AgentConn, m: Msg): map<AgentConn, seq<Msg>> {
    logs[a := LogOf(logs, a) + [m]]
  }

  function Table(s: State, kind: Kind): map<Id, nat> {
    if kind == Tx then s.pending else s.queryPending
  }

  function Find(m: map<Id, nat>, id: Id): Option<nat> {
    if id in m then Some(m[id]) else None
  }

  function Question(call: Call): Msg {
    if call.kind == Tx then Request(call.id) else Query(call.id)
  }

  predicate Enabled(s: State, act: Action) {
    match act
    case Connect(a) => a !in s.live
    case Disconnect(a) => a in s.live && a !in s.inflight
    case Notify(a, _) => true
    case Begin(_, _, id) => forall c :: 0 <= c < |s.calls| ==> s.calls[c].id != id
    case Advance(c, ok) =>
      c < |s.calls| && CanMove(s.calls[c], ok)
    case Lookup(a, _, _) => a in s.live && a !in s.inflight
    case Deliver(a) => a in s.inflight
  }

  function Next(s: State, act: Action): State
    requires Enabled(s, act)
  {
    match act
    case Connect(a) => s.(live := Without(s.live, a) + [a], bindings := Bound(s.bindings, a))
    case Disconnect(a) => s.(live := Without(s.live, a), bindings := Unbound(s.bindings, a))
    case Notify(a, text) => s.(logs := Written(s.logs, a, Note(text)))
    case Begin(kind, account, id) =>
      s.(calls := s.calls + [Call(kind, account, id, Start, None, [], [], {}, [], {})])
    case Advance(c, ok) => AdvanceCall(s, c, ok)
    case Lookup(a, kind, reply) =>
      s.(inflight := s.inflight[a := Delivery(kind, reply, Find(Table(s, kind), reply.id))])
    case Deliver(a) =>
      var d := s.inflight[a];
      var t := s.(inflight := s.inflight - {a});
      if d.waiter.None? || d.waiter.value >= |t.calls| then t // a waiter is always a call: see InflightOk
      else t.(calls := t.calls[d.waiter.value := Offer(t.calls[d.waiter.value], d.reply)])
  }

  /** A non-blocking send on the call's channel: dropped when the slot is taken. */
  function Offer(call: Call, reply: Reply): Call {
    if call.slot.None? then call.(slot := Some(reply), sends := call.sends + [reply]) else call
  }

  /** One step of call `c`: its own record, the message it writes, and its entry in its table. */
  function AdvanceCall(s: State, c: nat, ok: bool): State
    requires Enabled(s, Advance(c, ok))
  {
    var call := s.calls[c];
    s.(calls := s.calls[c := Moved(call, DevicesFor(s.bindings, call.account), ok)],
       logs := Posted(s.logs, Sent(call, ok)),
       pending := if call.kind == Tx then Entered(s.pending, call, c) else s.pending,
       queryPending := if call.kind == Qry then Entered(s.queryPending, call, c) else s.queryPending)
  }

  predicate CanMove(call: Call, ok: bool) {
    !call.pc.Done? && (call.pc.Waiting? && ok ==> call.slot.Some?)
  }

  /** The call after its next step; `devices` is what a snapshot taken now returns. */
  function Moved(call: Call, devices: seq<AgentConn>, ok: bool): Call
    requires CanMove(call, ok)
  {
    match call.pc
    case Start => call.(pc := if devices == [] then Done(Offline) else Snapped(devices), found := devices)
    case Snapped(snap) => call.(pc := Writing(snap, 0, 0))
    case Writing(snap, i, n) =>
      if i >= |snap| then call.(pc := if n == 0 then Leaving(Offline) else Waiting)
      else if !ok then call.(pc := Writing(snap, i + 1, n))
      else call.(pc := if call.kind == Tx then Writing(snap, i + 1, n + 1) else Waiting,
                 asked := call.asked + {snap[i]})
    case Waiting =>
      if ok then call.(pc := Leaving(Answered(call.slot.value)), slot := None) else call.(pc := Leaving(Expired))
    case Leaving(outcome) => call.(pc := if call.kind == Tx then Removed(outcome) else Done(outcome))
    case Removed(outcome) => call.(pc := Withdrawing(outcome, devices, 0), recall := devices)
    case Withdrawing(outcome, snap, i) =>
      if i >= |snap| then call.(pc := Done(outcome))
      else call.(pc := Withdrawing(outcome, snap, i + 1), told := if ok then call.told + {snap[i]} else call.told)
  }

  datatype Post = Post(to: AgentConn, msg: Msg)

  /** The message the step hands to a connection that accepts it. */
  function Sent(call: Call, ok: bool): Option<Post> {
    match call.pc
    case Writing(snap, i, _) => if i < |snap| && ok then Some(Post(snap[i], Question(call))) else None
    case Withdrawing(_, snap, i) => if i < |snap| && ok then Some(Post(snap[i], Withdraw(call.id))) else None
    case _ => None
  }

  function Posted(logs: map<AgentConn, seq<Msg>>, post: Option<Post>): map<AgentConn, seq<Msg>> {
    if post.Some? then Written(logs, post.value.to, post.value.msg) else logs
  }

  /** Registering on the step out of Snapped, removing on the step out of Leaving. */
  function Entered(m: map<Id, nat>, call: Call, c: nat): map<Id, nat> {
    if call.pc.Snapped? then m[call.id := c] else if call.pc.Leaving? then m - {call.id} else m
  }

  // ---------- runs ----------

  /** The state after a run from the empty hub, or None if some action was not enabled. */
  function Run(acts: seq<Action>): Option<State> {
    if acts == [] then Some(INITIAL)
    else
      var n := |acts| - 1;
      var before := Run(acts[..n]);
      if before.Some? && Enabled(before.value, acts[n]) then Some(Next(before.value, acts[n])) else None
  }

  predicate Legal(acts: seq<Action>) {
    Run(acts).Some?
  }

  function After(acts: seq<Action>): State
    requires Legal(acts)
  {
    Run(acts).value
  }

  lemma OneMore(acts: seq<Action>, act: Action)
    requires Legal(acts) && Enabled(After(acts), act)
    ensures Legal(acts + [act]) && After(acts + [act]) == Next(After(acts), act)
  {
    assert (acts + [act])[..|acts|] == acts;
  }
}
