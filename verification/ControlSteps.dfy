/**
 * Control frames as the server runs them: every connection handles its own frames, and each operation
 * on the store takes the store's lock for itself. Operations of other frames may come between any two
 * operations of a frame, in particular between the tries of a search for the owner.
 */
module ControlSteps {
  import opened Wrappers
  import opened Store
  import opened Control

  /** Where the handling of a frame stands. */
  datatype Pc = Fresh | Searching(next: nat) | Labelling | Replied(reply: Reply)

  datatype Task = Task(accounts: seq<string>, frame: Frame, pc: Pc)

  datatype World<S> = World(store: S, tasks: seq<Task>)

  datatype Action = Arrive(accounts: seq<string>, frame: Frame) | Work(t: nat)

  // ---------- one step of a frame ----------

  function Confirmed(c: Frame): Reply {
    match c.op
    case RegisterKey => Reply(c.corrID, None, c.keyID, c.account, None)
    case RebindKey => Reply(c.corrID, None, c.keyID, c.account, None)
    case SetOrigins => Reply(c.corrID, None, c.keyID, "", None)
    case LoadBlob => Reply(c.corrID, None, "", c.account, None)
    case _ => Reply(c.corrID, None, "", "", None)
  }

  /** The check that a frame fails before it reaches the store. */
  function Refusal(task: Task): Option<ControlError> {
    var c := task.frame;
    if c.op.Other? then Some(UnknownOp)
    else if c.op == RevokeKey then None
    else if c.account !in task.accounts then Some(NotYourAccount)
    else if (c.op == RegisterKey && (c.keyID == "" || c.hash == "")) ||
            ((c.op == RebindKey || c.op == SetOrigins) && c.keyID == "") then Some(MissingField)
    else None
  }

  predicate Searches(c: Frame) {
    c.op == RebindKey || c.op == RevokeKey
  }

  /** The store operation the frame's next step makes, if it makes one. */
  function Asks(task: Task): Option<Op> {
    var c := task.frame;
    match task.pc
    case Fresh =>
      if Refusal(task).Some? then None
      else (
        match c.op
        case RegisterKey => Some(Register(c.keyID, c.account, c.hash))
        case SetOrigins => Some(UpdateOrigins(c.keyID, c.account, c.origins))
        case StoreBlob => Some(PutPolicy(c.account, c.blob))
        case LoadBlob => Some(GetPolicy(c.account))
        case _ => None)
    case Searching(i) =>
      if i >= |task.accounts| then None
      else if c.op == RebindKey then Some(Rebind(c.keyID, task.accounts[i], c.account))
      else Some(Revoke(task.accounts[i], c.keyID))
    case Labelling => Some(UpdateOrigins(c.keyID, c.account, c.origins))
    case Replied(_) => None
  }

  /** What the step makes of the store's answer; `Done` where it asked nothing. */
  function Heard(task: Task, answer: Answer): Pc {
    var c := task.frame;
    match task.pc
    case Fresh =>
      if Refusal(task).Some? then Replied(Refused(c, Refusal(task).value))
      else if Searches(c) then Searching(0)
      else if answer.Failed? then Replied(Refused(c, StoreFailed(answer.e)))
      else if c.op == RegisterKey && c.origins != [] then Labelling
      else Replied(Confirmed(c).(blob := if c.op == LoadBlob && answer.Policy? then answer.p else None))
    case Searching(i) =>
      if i >= |task.accounts| then Replied(Refused(c, KeyNotFound))
      else if answer == Done then Replied(Confirmed(c))
      else Searching(i + 1)
    case Labelling => Replied(Confirmed(c))
    case Replied(_) => task.pc
  }

  function Answered<S>(do: Step<S>, s: S, task: Task): (S, Answer) {
    if Asks(task).Some? then do(s, Asks(task).value) else (s, Done)
  }

  function Advance<S>(do: Step<S>, s: S, task: Task): (S, Task) {
    var (t, answer) := Answered(do, s, task);
    (t, task.(pc := Heard(task, answer)))
  }

  // ---------- runs ----------

  function Next<S>(do: Step<S>, w: World<S>, act: Action): World<S> {
    match act
    case Arrive(accounts, frame) => w.(tasks := w.tasks + [Task(accounts, frame, Fresh)])
    case Work(t) =>
      if t >= |w.tasks| then w
      else
        var (s, task) := Advance(do, w.store, w.tasks[t]);
        World(s, w.tasks[t := task])
  }

  function Run<S>(do: Step<S>, start: S, acts: seq<Action>): World<S> {
    if acts == [] then World(start, [])
    else Next(do, Run(do, start, acts[..|acts| - 1]), acts[|acts| - 1])
  }

  lemma RunSnoc<S>(do: Step<S>, start: S, acts: seq<Action>, act: Action)
    ensures Run(do, start, acts + [act]) == Next(do, Run(do, start, acts), act)
  {
    assert (acts + [act])[..|acts|] == acts;
  }

  // ---------- a frame handled alone ----------

  function Alone<S>(do: Step<S>, s: S, task: Task, n: nat): (S, Task) {
    if n == 0 then (s, task)
    else
      var (t, before) := Alone(do, s, task, n - 1);
      Advance(do, t, before)
  }

  /** The state of a search after `i` tries with nobody in between. */
  function Tried<S>(do: Step<S>, s: S, accounts: seq<string>, c: Frame, i: nat): (S, bool)
    requires i <= |accounts|
  {
    if c.op == RebindKey then TryRebind(do, s, accounts, i, c.keyID, c.account) else TryRevoke(do, s, accounts, i, c.keyID)
  }

  lemma {:induction false} SearchAlone<S>(do: Step<S>, s: S, accounts: seq<string>, c: Frame, i: nat)
    requires i <= |accounts| && Searches(c) && Refusal(Task(accounts, c, Fresh)).None?
    ensures Alone(do, s, Task(accounts, c, Fresh), i + 1) ==
            var (t, ok) := Tried(do, s, accounts, c, i);
            (t, Task(accounts, c, if ok then Replied(Confirmed(c)) else Searching(i)))
  {
    if i > 0 {
      SearchAlone(do, s, accounts, c, i - 1);
    } else {
      assert Alone(do, s, Task(accounts, c, Fresh), 0) == (s, Task(accounts, c, Fresh));
    }
  }

  /** Handled with nobody in between, a frame is the handler's one sequential pass. */
  lemma AloneIsHandle<S>(do: Step<S>, s: S, accounts: seq<string>, c: Frame)
    ensures Alone(do, s, Task(accounts, c, Fresh), |accounts| + 2) ==
            var (t, reply) := Handle(do, s, accounts, c);
            (t, Task(accounts, c, Replied(reply)))
  {
    var task := Task(accounts, c, Fresh);
    if Searches(c) && Refusal(task).None? {
      SearchAlone(do, s, accounts, c, |accounts|);
    } else {
      assert Alone(do, s, task, 1) == Advance(do, s, task) by {
        assert Alone(do, s, task, 0) == (s, task);
      }
      var (t, after) := Alone(do, s, task, 2);
      assert after.pc.Replied?;
      Stays(do, s, task, 2, |accounts| + 2);
    }
  }

  lemma {:induction false} Stays<S>(do: Step<S>, s: S, task: Task, m: nat, n: nat)
    requires m <= n && Alone(do, s, task, m).1.pc.Replied?
    ensures Alone(do, s, task, n) == Alone(do, s, task, m)
  {
    if m < n {
      Stays(do, s, task, m, n - 1);
    }
  }
}
