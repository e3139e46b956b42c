/** What every interleaving of control frames guarantees, operation by operation. */
module ControlTheorems {
  import opened Wrappers
  import opened Store
  import opened Control
  import opened ControlSteps

  function MemWorld(start: MemState, acts: seq<Action>, sha: string -> string): World<MemState> {
    Run(MemStep(sha), start, acts)
  }

  /** A task that has got past its checks has passed them. */
  predicate Sound(task: Task) {
    match task.pc
    case Fresh => true
    case Searching(i) => i <= |task.accounts| && Searches(task.frame) && Refusal(task).None?
    case Labelling => task.frame.op == RegisterKey && Refusal(task).None?
    case Replied(reply) => reply.error == None ==> Refusal(task).None?
  }

  ghost predicate AllSound(tasks: seq<Task>) {
    forall t :: 0 <= t < |tasks| ==> Sound(tasks[t])
  }

  lemma AdvanceSound<S>(do: Step<S>, s: S, task: Task)
    requires Sound(task)
    ensures Sound(Advance(do, s, task).1)
  {
  }

  lemma {:induction false} TasksSound<S>(do: Step<S>, start: S, acts: seq<Action>)
    ensures AllSound(Run(do, start, acts).tasks)
  {
    if acts != [] {
      hide Sound, Advance;
      var n := |acts| - 1;
      TasksSound(do, start, acts[..n]);
      var w := Run(do, start, acts[..n]);
      match acts[n]
      case Arrive(accounts, frame) => assert Sound(Task(accounts, frame, Fresh)) by { FreshIsSound(accounts, frame); }
      case Work(t) =>
        if t < |w.tasks| {
          AdvanceSound(do, w.store, w.tasks[t]);
        }
    }
  }

  lemma FreshIsSound(accounts: seq<string>, frame: Frame)
    ensures Sound(Task(accounts, frame, Fresh))
  {
  }

  // ---------- the index ----------

  /** Whatever interleaves, the hash index stays sound after every single operation. */
  lemma {:induction false} IndexStaysSound(start: MemState, acts: seq<Action>, sha: string -> string)
    requires MemInv(start)
    ensures MemInv(MemWorld(start, acts, sha).store)
  {
    if acts != [] {
      hide MemInv, MemDo;
      var n := |acts| - 1;
      IndexStaysSound(start, acts[..n], sha);
      var w := MemWorld(start, acts[..n], sha);
      if acts[n].Work? && acts[n].t < |w.tasks| && Asks(w.tasks[acts[n].t]).Some? {
        MemDoKeeps(w.store, Asks(w.tasks[acts[n].t]).value, sha);
      }
    }
  }

  // ---------- whose keys and policies a frame may touch ----------

  /** The accounts an operation is made in the name of, or gives a key to. */
  function Names(op: Op): seq<string> {
    match op
    case Register(_, owner, _) => [owner]
    case Rebind(_, oldOwner, newOwner) => [oldOwner, newOwner]
    case UpdateOrigins(_, owner, _) => [owner]
    case Revoke(owner, _) => [owner]
    case PutPolicy(account, _) => [account]
    case GetPolicy(account) => [account]
    case _ => []
  }

  /** Whatever a frame asks of the store, it asks in the name of accounts its connection proved. */
  lemma AsksForProvenAccounts<S>(do: Step<S>, start: S, acts: seq<Action>, t: nat)
    requires t < |Run(do, start, acts).tasks|
    ensures var task := Run(do, start, acts).tasks[t];
            Asks(task).Some? ==>
              && !Asks(task).value.Resolve? && !Asks(task).value.OriginAllowed?
              && forall account :: account in Names(Asks(task).value) ==> account in task.accounts
  {
    TasksSound(do, start, acts);
    assert Sound(Run(do, start, acts).tasks[t]);
    hide Run;
  }

  /** In every interleaving, an account that comes to own a key was proven by the connection at work. */
  lemma NewOwnersAreProven(start: MemState, acts: seq<Action>, act: Action, sha: string -> string, id: string)
    ensures var w := MemWorld(start, acts, sha);
            var before, after := OwnerOf(w.store, id), OwnerOf(Next(MemStep(sha), w, act).store, id);
            after.Some? && after != before ==>
              act.Work? && act.t < |w.tasks| && after.value in w.tasks[act.t].accounts
  {
    hide Run, Asks, Heard;
    var w := MemWorld(start, acts, sha);
    if act.Work? && act.t < |w.tasks| {
      AsksForProvenAccounts(MemStep(sha), start, acts, act.t);
      if Asks(w.tasks[act.t]).Some? {
        OwnerAfter(w.store, Asks(w.tasks[act.t]).value, sha, id);
      }
    }
  }

  lemma OwnerAfter(s: MemState, op: Op, sha: string -> string, id: string)
    ensures var after := OwnerOf(MemDo(s, op, sha).0, id);
            after == OwnerOf(s, id) || after.None? || after.value in Names(op)
  {
  }

  /** A frame that has no business with a key of `owner`. */
  predicate Stranger(task: Task, id: string, owner: string) {
    owner !in task.accounts && !(task.frame.op == RegisterKey && task.frame.keyID == id)
  }

  lemma StrangerStep(s: MemState, task: Task, sha: string -> string, id: string)
    requires Sound(task) && id in s.keys && Stranger(task, id, s.keys[id].owner)
    ensures var t := Advance(MemStep(sha), s, task).0; id in t.keys && t.keys[id] == s.keys[id]
  {
  }

  /**
   * Through any stretch of a run in which only strangers work, a key stays what it is: frames change
   * keys of accounts their connection proved, and the one id they register.
   */
  lemma {:induction false} ForeignKeysUntouched(start: MemState, acts: seq<Action>, more: seq<Action>, sha: string -> string, id: string)
    requires id in MemWorld(start, acts, sha).store.keys
    requires forall i :: 0 <= i < |more| && more[i].Work? ==>
               var w := MemWorld(start, acts + more[..i], sha);
               more[i].t < |w.tasks| ==> Stranger(w.tasks[more[i].t], id, MemWorld(start, acts, sha).store.keys[id].owner)
    ensures var after := MemWorld(start, acts + more, sha).store.keys;
            id in after && after[id] == MemWorld(start, acts, sha).store.keys[id]
  {
    hide MemDo, Advance, Stranger, Sound;
    if more == [] {
      assert acts + more == acts;
    } else {
      var n := |more| - 1;
      assert forall i :: 0 <= i < n ==> more[..n][..i] == more[..i];
      ForeignKeysUntouched(start, acts, more[..n], sha, id);
      assert acts + more == acts + more[..n] + [more[n]];
      RunSnoc(MemStep(sha), start, acts + more[..n], more[n]);
      var w := MemWorld(start, acts + more[..n], sha);
      TasksSound(MemStep(sha), start, acts + more[..n]);
      if more[n].Work? && more[n].t < |w.tasks| {
        StrangerStep(w.store, w.tasks[more[n].t], sha, id);
      }
    }
  }

  // ---------- the search for the owner ----------

  function OwnerOf(s: MemState, id: string): Option<string> {
    if id in s.keys then Some(s.keys[id].owner) else None
  }

  /** The store after the search of `c` has found the owner. */
  function Settled(s: MemState, c: Frame): MemState
    requires c.keyID in s.keys
  {
    if c.op == RebindKey then s.(keys := s.keys[c.keyID := s.keys[c.keyID].(owner := c.account)])
    else s.(keys := s.keys - {c.keyID}, byHash := DropHashes(s.byHash, c.keyID))
  }

  /** One step of a search: it succeeds by the one operation that names the owner, or changes nothing. */
  lemma SearchStep(s: MemState, task: Task, sha: string -> string)
    requires Sound(task) && Searches(task.frame)
    ensures var c := task.frame;
            var (t, after) := Advance(MemStep(sha), s, task);
            if !task.pc.Replied? && after.pc.Replied? && after.pc.reply.error == None then
              && Refusal(task).None? && task.pc.Searching? && task.pc.next < |task.accounts|
              && OwnerOf(s, c.keyID) == Some(task.accounts[task.pc.next])
              && t == Settled(s, c) && after.pc.reply == Confirmed(c)
            else t == s
  {
    match task.pc
    case Fresh => assert Asks(task).None?;
    case _ =>
  }

  /** Step `k` of the run is a step of task `t`. */
  predicate Steps(start: MemState, acts: seq<Action>, sha: string -> string, t: nat, k: nat) {
    k < |acts| && acts[k] == Work(t) && t < |MemWorld(start, acts[..k], sha).tasks|
  }

  /** Step `k` is the try that found the owner, among the accounts proven, and did what was asked. */
  ghost predicate FoundAt(start: MemState, acts: seq<Action>, sha: string -> string, t: nat, k: nat) {
    && Steps(start, acts, sha, t, k)
    && var w := MemWorld(start, acts[..k], sha);
       var task := w.tasks[t];
       && Refusal(task).None? && Searches(task.frame)
       && OwnerOf(w.store, task.frame.keyID).Some? && OwnerOf(w.store, task.frame.keyID).value in task.accounts
       && MemWorld(start, acts[..k + 1], sha).store == Settled(w.store, task.frame)
  }

  /** A task keeps its connection's accounts and its frame, and a reply once given. */
  lemma TaskStays<S>(do: Step<S>, w: World<S>, act: Action, t: nat)
    requires t < |w.tasks|
    ensures var now := Next(do, w, act).tasks;
            && t < |now| && now[t].accounts == w.tasks[t].accounts && now[t].frame == w.tasks[t].frame
            && (w.tasks[t].pc.Replied? ==> now[t] == w.tasks[t])
            && (act != Work(t) ==> now[t] == w.tasks[t])
  {
    hide Answered;
  }

  predicate Succeeded(pc: Pc) {
    pc.Replied? && pc.reply.error == None
  }

  /**
   * If a rebind or revoke succeeded, one of its steps found the key with an owner its connection had
   * proven, at that very operation, whatever came in between.
   */
  lemma {:induction false} SuccessHadTheOwner(start: MemState, acts: seq<Action>, sha: string -> string, t: nat) returns (k: nat)
    requires t < |MemWorld(start, acts, sha).tasks|
    requires Searches(MemWorld(start, acts, sha).tasks[t].frame) && Succeeded(MemWorld(start, acts, sha).tasks[t].pc)
    ensures FoundAt(start, acts, sha, t, k)
  {
    hide Advance, Refusal, Sound, Settled;
    var n := |acts| - 1;
    var w := MemWorld(start, acts[..n], sha);
    TasksSound(MemStep(sha), start, acts[..n]);
    assert acts[..n + 1] == acts;
    if t < |w.tasks| {
      TaskStays(MemStep(sha), w, acts[n], t);
    }
    if t < |w.tasks| && !Succeeded(w.tasks[t].pc) {
      SearchStep(w.store, w.tasks[t], sha);
      k := n;
    } else {
      k := SuccessHadTheOwner(start, acts[..n], sha, t);
      assert acts[..n][..k] == acts[..k] && acts[..n][..k + 1] == acts[..k + 1];
    }
  }

  /** Every other step of a rebind or revoke leaves the store as it was. */
  lemma OtherTriesChangeNothing(start: MemState, acts: seq<Action>, sha: string -> string, t: nat, k: nat)
    requires Steps(start, acts, sha, t, k) && Searches(MemWorld(start, acts[..k], sha).tasks[t].frame)
    ensures FoundAt(start, acts, sha, t, k) || MemWorld(start, acts[..k + 1], sha).store == MemWorld(start, acts[..k], sha).store
  {
    hide Advance, Refusal, Sound, Settled;
    var w := MemWorld(start, acts[..k], sha);
    TasksSound(MemStep(sha), start, acts[..k]);
    assert acts[..k + 1] == acts[..k] + [acts[k]];
    RunSnoc(MemStep(sha), start, acts[..k], acts[k]);
    SearchStep(w.store, w.tasks[t], sha);
  }

  // ---------- when the search is exact ----------

  /** The operation may give the key an owner, or take it away. */
  predicate Moves(op: Op, id: string) {
    (op.Register? || op.Rebind? || op.Revoke?) && op.id == id
  }

  /** The step of another task leaves the key with the owner it has, or without one. */
  predicate KeepsOwner(w: World<MemState>, act: Action, sha: string -> string, id: string) {
    OwnerOf(Next(MemStep(sha), w, act).store, id) == OwnerOf(w.store, id)
  }

  /** Only registering, rebinding or revoking that very key can do otherwise. */
  lemma OnlyMovesChangeTheOwner(w: World<MemState>, act: Action, sha: string -> string, id: string)
    ensures KeepsOwner(w, act, sha, id) ||
            (act.Work? && act.t < |w.tasks| && Asks(w.tasks[act.t]).Some? && Moves(Asks(w.tasks[act.t]).value, id))
  {
    hide Asks, Heard;
  }

  /** No step of another task during `more` changes who owns the key. */
  ghost predicate Undisturbed(start: MemState, acts: seq<Action>, more: seq<Action>, sha: string -> string, t: nat, id: string) {
    forall i :: 0 <= i < |more| && more[i] != Work(t) ==> KeepsOwner(MemWorld(start, acts + more[..i], sha), more[i], sha, id)
  }

  /** What the search knows at each stage, when the key's owner was `own` as it began. */
  ghost predicate Knows(s: MemState, task: Task, own: Option<string>) {
    var c := task.frame;
    match task.pc
    case Fresh => OwnerOf(s, c.keyID) == own
    case Searching(i) =>
      && Refusal(task).None? && i <= |task.accounts|
      && OwnerOf(s, c.keyID) == own && (own.Some? ==> own.value !in task.accounts[..i])
    case Labelling => false
    case Replied(reply) =>
      if reply.error == None then Refusal(task).None? && own.Some? && own.value in task.accounts
      else OwnerOf(s, c.keyID) == own && (Refusal(task).Some? || own.None? || own.value !in task.accounts)
  }

  lemma OwnStepKnows(s: MemState, task: Task, own: Option<string>, sha: string -> string)
    requires Searches(task.frame) && Knows(s, task, own)
    ensures var (t, after) := Advance(MemStep(sha), s, task); Knows(t, after, own)
  {
    if task.pc.Searching? {
      var i := task.pc.next;
      if i < |task.accounts| {
        assert task.accounts[..i + 1] == task.accounts[..i] + [task.accounts[i]];
      } else {
        assert task.accounts[..i] == task.accounts;
      }
    }
  }

  lemma OtherStepKnows(s: MemState, t: MemState, task: Task, own: Option<string>)
    requires Knows(s, task, own) && OwnerOf(t, task.frame.keyID) == OwnerOf(s, task.frame.keyID)
    ensures Knows(t, task, own)
  {
  }

  lemma {:induction false} SearchKnows(start: MemState, acts: seq<Action>, more: seq<Action>, sha: string -> string, t: nat)
    requires t < |MemWorld(start, acts, sha).tasks|
    requires var task := MemWorld(start, acts, sha).tasks[t];
             task.pc == Fresh && Searches(task.frame) && Undisturbed(start, acts, more, sha, t, task.frame.keyID)
    ensures var w, v := MemWorld(start, acts, sha), MemWorld(start, acts + more, sha);
            && t < |v.tasks| && v.tasks[t].accounts == w.tasks[t].accounts && v.tasks[t].frame == w.tasks[t].frame
            && Knows(v.store, v.tasks[t], OwnerOf(w.store, w.tasks[t].frame.keyID))
  {
    hide Advance, Knows, Refusal, OwnerOf, Asks;
    var w := MemWorld(start, acts, sha);
    var own := OwnerOf(w.store, w.tasks[t].frame.keyID);
    if more == [] {
      assert acts + more == acts;
      assert Knows(w.store, w.tasks[t], own) by { FreshKnows(w.store, w.tasks[t]); }
    } else {
      var n := |more| - 1;
      assert forall i :: 0 <= i < n ==> more[..n][..i] == more[..i];
      SearchKnows(start, acts, more[..n], sha, t);
      assert acts + more == acts + more[..n] + [more[n]];
      RunSnoc(MemStep(sha), start, acts + more[..n], more[n]);
      var v := MemWorld(start, acts + more[..n], sha);
      TaskStays(MemStep(sha), v, more[n], t);
      if more[n] == Work(t) {
        OwnStepKnows(v.store, v.tasks[t], own, sha);
      } else {
        assert KeepsOwner(v, more[n], sha, w.tasks[t].frame.keyID);
        OtherStepKnows(v.store, Next(MemStep(sha), v, more[n]).store, v.tasks[t], own);
      }
    }
  }

  lemma FreshKnows(s: MemState, task: Task)
    requires task.pc == Fresh
    ensures Knows(s, task, OwnerOf(s, task.frame.keyID))
  {
  }

  /**
   * If no other frame's operation changes who owns the key while a rebind or revoke is at work, it
   * succeeds exactly when its frame is in order and the key had, as it began, an owner its connection
   * had proven.
   */
  lemma SearchIsExact(start: MemState, acts: seq<Action>, more: seq<Action>, sha: string -> string, t: nat)
    requires t < |MemWorld(start, acts, sha).tasks|
    requires var task := MemWorld(start, acts, sha).tasks[t];
             task.pc == Fresh && Searches(task.frame) && Undisturbed(start, acts, more, sha, t, task.frame.keyID)
    requires t < |MemWorld(start, acts + more, sha).tasks| && MemWorld(start, acts + more, sha).tasks[t].pc.Replied?
    ensures var w := MemWorld(start, acts, sha); var task := w.tasks[t];
            Succeeded(MemWorld(start, acts + more, sha).tasks[t].pc) <==>
            Refusal(task).None? && OwnerOf(w.store, task.frame.keyID).Some? &&
            OwnerOf(w.store, task.frame.keyID).value in task.accounts
  {
    SearchKnows(start, acts, more, sha, t);
    hide MemWorld;
  }

  /** At every moment of the run the key has an owner among `accounts`. */
  ghost predicate OwnedThroughout(start: MemState, acts: seq<Action>, sha: string -> string, id: string, accounts: seq<string>) {
    && OwnerOf(MemWorld(start, acts, sha).store, id).Some?
    && OwnerOf(MemWorld(start, acts, sha).store, id).value in accounts
    && (acts == [] || OwnedThroughout(start, acts[..|acts| - 1], sha, id, accounts))
  }

  const MOVE := Frame(RebindKey, "", "a", "k", "", [], Blob(0, []))

  function KeyOwnedBy(owner: string): MemState {
    MemState(map["k" := APIKey("k", owner, [])], map["h" := "k"], map[])
  }

  /** Two devices that proved both accounts move the key onto "a"; the second passes the first's search. */
  function Overlap(): seq<Action> {
    [Arrive(["a", "b"], MOVE), Work(0), Work(0), Arrive(["b", "a"], MOVE), Work(1), Work(1), Work(0), Work(0)]
  }

  /** A step that leaves the key with an owner among `accounts`. */
  lemma OwnedStep(start: MemState, acts: seq<Action>, act: Action, sha: string -> string, id: string, accounts: seq<string>)
    requires OwnedThroughout(start, acts, sha, id, accounts)
    requires var owner := OwnerOf(Next(MemStep(sha), MemWorld(start, acts, sha), act).store, id);
             owner.Some? && owner.value in accounts
    ensures MemWorld(start, acts + [act], sha) == Next(MemStep(sha), MemWorld(start, acts, sha), act)
    ensures OwnedThroughout(start, acts + [act], sha, id, accounts)
  {
    RunSnoc(MemStep(sha), start, acts, act);
    assert (acts + [act])[..|acts|] == acts;
  }

  lemma OneOwnedStep(start: MemState, acts: seq<Action>, act: Action, sha: string -> string, w: World<MemState>)
    requires OwnedThroughout(start, acts, sha, "k", ["a", "b"])
    requires Next(MemStep(sha), MemWorld(start, acts, sha), act) == w && (w.store == KeyOwnedBy("a") || w.store == KeyOwnedBy("b"))
    ensures MemWorld(start, acts + [act], sha) == w && OwnedThroughout(start, acts + [act], sha, "k", ["a", "b"])
  {
    hide Next, OwnedThroughout, MemWorld;
    OwnedStep(start, acts, act, sha, "k", ["a", "b"]);
  }

  /** One step of moving the key onto "a", when `owner` has it. */
  lemma MoveStep(owner: string, accounts: seq<string>, pc: Pc, sha: string -> string)
    requires "a" in accounts && (pc.Fresh? || pc.Searching?)
    ensures Advance(MemStep(sha), KeyOwnedBy(owner), Task(accounts, MOVE, pc)) ==
            if pc.Fresh? then (KeyOwnedBy(owner), Task(accounts, MOVE, Searching(0)))
            else if pc.next >= |accounts| then (KeyOwnedBy(owner), Task(accounts, MOVE, Replied(Refused(MOVE, KeyNotFound))))
            else if accounts[pc.next] == owner then (KeyOwnedBy("a"), Task(accounts, MOVE, Replied(Confirmed(MOVE))))
            else (KeyOwnedBy(owner), Task(accounts, MOVE, Searching(pc.next + 1)))
  {
    var s := KeyOwnedBy(owner);
    assert s.(keys := s.keys["k" := s.keys["k"].(owner := "a")]) == KeyOwnedBy("a");
  }

  /** With such an operation in between, the search can miss: the first device is told there is no such key. */
  lemma SearchCanMiss(sha: string -> string)
    ensures OwnedThroughout(KeyOwnedBy("b"), Overlap(), sha, "k", ["a", "b"])
    ensures var tasks := MemWorld(KeyOwnedBy("b"), Overlap(), sha).tasks;
            tasks == [Task(["a", "b"], MOVE, Replied(Refused(MOVE, KeyNotFound))), Task(["b", "a"], MOVE, Replied(Confirmed(MOVE)))]
  {
    hide Advance, MemWorld, MemStep, OwnerOf, Confirmed, Refused, KeyOwnedBy, OwnedThroughout;
    var b, a := KeyOwnedBy("b"), KeyOwnedBy("a");
    var one, two := Arrive(["a", "b"], MOVE), Arrive(["b", "a"], MOVE);
    var first := (pc: Pc) => Task(["a", "b"], MOVE, pc);
    var second := (pc: Pc) => Task(["b", "a"], MOVE, pc);
    OwnedAtFirst(sha);
    var p1 := [] + [one];
    OneOwnedStep(b, [], one, sha, World(b, [first(Fresh)]));
    var p2 := p1 + [Work(0)];
    MoveStep("b", ["a", "b"], Fresh, sha);
    OneOwnedStep(b, p1, Work(0), sha, World(b, [first(Searching(0))]));
    var p3 := p2 + [Work(0)];
    MoveStep("b", ["a", "b"], Searching(0), sha);
    OneOwnedStep(b, p2, Work(0), sha, World(b, [first(Searching(1))]));
    var p4 := p3 + [two];
    OneOwnedStep(b, p3, two, sha, World(b, [first(Searching(1)), second(Fresh)]));
    var p5 := p4 + [Work(1)];
    MoveStep("b", ["b", "a"], Fresh, sha);
    OneOwnedStep(b, p4, Work(1), sha, World(b, [first(Searching(1)), second(Searching(0))]));
    var p6 := p5 + [Work(1)];
    MoveStep("b", ["b", "a"], Searching(0), sha);
    OneOwnedStep(b, p5, Work(1), sha, World(a, [first(Searching(1)), second(Replied(Confirmed(MOVE)))]));
    var p7 := p6 + [Work(0)];
    MoveStep("a", ["a", "b"], Searching(1), sha);
    OneOwnedStep(b, p6, Work(0), sha, World(a, [first(Searching(2)), second(Replied(Confirmed(MOVE)))]));
    MoveStep("a", ["a", "b"], Searching(2), sha);
    OneOwnedStep(b, p7, Work(0), sha, World(a, [first(Replied(Refused(MOVE, KeyNotFound))), second(Replied(Confirmed(MOVE)))]));
    assert Overlap() == p7 + [Work(0)];
  }

  lemma OwnedAtFirst(sha: string -> string)
    ensures OwnedThroughout(KeyOwnedBy("b"), [], sha, "k", ["a", "b"])
    ensures MemWorld(KeyOwnedBy("b"), [], sha) == World(KeyOwnedBy("b"), [])
  {
  }

  // ---------- policies ----------

  /** The blobs put for an account, in the order of the operations that put them. */
  function PutsFor(start: MemState, acts: seq<Action>, sha: string -> string, account: string): seq<Blob> {
    if acts == [] then []
    else
      var n := |acts| - 1;
      PutsFor(start, acts[..n], sha, account) + PutBy(MemWorld(start, acts[..n], sha), acts[n], account)
  }

  function PutBy(w: World<MemState>, act: Action, account: string): seq<Blob> {
    if act.Work? && act.t < |w.tasks| && Asks(w.tasks[act.t]).Some? then
      match Asks(w.tasks[act.t]).value
      case PutPolicy(to, blob) => if to == account then [blob] else []
      case _ => []
    else []
  }

  /** Only a connection that proved the account puts for it. */
  lemma PutsAreProven(w: World<MemState>, act: Action, account: string)
    requires PutBy(w, act, account) != []
    ensures act.Work? && act.t < |w.tasks| && account in w.tasks[act.t].accounts
    ensures w.tasks[act.t].frame.op == StoreBlob && PutBy(w, act, account) == [w.tasks[act.t].frame.blob]
  {
  }

  lemma OperationOnPolicy(s: MemState, op: Op, sha: string -> string, account: string)
    ensures Lookup(MemDo(s, op, sha).0.policy, account) ==
            if op.PutPolicy? && op.account == account then Lookup(Newer(s.policy, account, op.blob), account)
            else Lookup(s.policy, account)
  {
  }

  lemma StepOnPolicy(w: World<MemState>, act: Action, sha: string -> string, account: string)
    ensures Lookup(Next(MemStep(sha), w, act).store.policy, account) ==
            if PutBy(w, act, account) == [] then Lookup(w.store.policy, account)
            else Lookup(Newer(w.store.policy, account, PutBy(w, act, account)[0]), account)
  {
    hide MemDo, Lookup, Newer, Asks, Heard;
    if act.Work? && act.t < |w.tasks| && Asks(w.tasks[act.t]).Some? {
      OperationOnPolicy(w.store, Asks(w.tasks[act.t]).value, sha, account);
    }
  }

  /** Through any stretch of a run in which no connection that proved the account works, its policy stays. */
  lemma {:induction false} ForeignPoliciesUntouched(start: MemState, acts: seq<Action>, more: seq<Action>, sha: string -> string, account: string)
    requires forall i :: 0 <= i < |more| && more[i].Work? ==>
               var w := MemWorld(start, acts + more[..i], sha);
               more[i].t < |w.tasks| ==> account !in w.tasks[more[i].t].accounts
    ensures Lookup(MemWorld(start, acts + more, sha).store.policy, account) == Lookup(MemWorld(start, acts, sha).store.policy, account)
  {
    hide Next, Lookup, PutBy, Newer;
    if more == [] {
      assert acts + more == acts;
    } else {
      var n := |more| - 1;
      assert forall i :: 0 <= i < n ==> more[..n][..i] == more[..i];
      ForeignPoliciesUntouched(start, acts, more[..n], sha, account);
      assert acts + more == acts + more[..n] + [more[n]];
      RunSnoc(MemStep(sha), start, acts + more[..n], more[n]);
      var w := MemWorld(start, acts + more[..n], sha);
      StepOnPolicy(w, more[n], sha, account);
      if PutBy(w, more[n], account) != [] {
        PutsAreProven(w, more[n], account);
        assert false;
      }
    }
  }

  /**
   * After any interleaving, an account's policy is the first blob put at the highest version that
   * connections which proved the account have put.
   */
  lemma {:induction false} PolicyIsNewest(acts: seq<Action>, account: string, sha: string -> string)
    ensures Lookup(MemWorld(EMPTY_MEM, acts, sha).store.policy, account) == Best(PutsFor(EMPTY_MEM, acts, sha, account))
  {
    hide Next, Lookup, Best, PutBy, Newer;
    if acts == [] {
      NoPolicies(account);
    } else {
      var n := |acts| - 1;
      PolicyIsNewest(acts[..n], account, sha);
      var w := MemWorld(EMPTY_MEM, acts[..n], sha);
      StepOnPolicy(w, acts[n], sha, account);
      var puts, put := PutsFor(EMPTY_MEM, acts[..n], sha, account), PutBy(w, acts[n], account);
      if put == [] {
        assert puts + put == puts;
      } else {
        PutsAreProven(w, acts[n], account);
        BestSnoc(puts, put[0]);
        NewerLookup(w.store.policy, account, put[0]);
      }
    }
  }

  lemma NoPolicies(account: string)
    ensures Lookup(EMPTY_MEM.policy, account) == Best([])
  {
  }

  /** Two interleavings that put the same blobs for an account, each version once, agree on it. */
  lemma PoliciesConverge(acts: seq<Action>, others: seq<Action>, account: string, sha: string -> string)
    requires forall b :: b in PutsFor(EMPTY_MEM, acts, sha, account) <==> b in PutsFor(EMPTY_MEM, others, sha, account)
    requires forall b, d ::
               b in PutsFor(EMPTY_MEM, acts, sha, account) && d in PutsFor(EMPTY_MEM, acts, sha, account) && b.version == d.version
               ==> b == d
    ensures Lookup(MemWorld(EMPTY_MEM, acts, sha).store.policy, account) ==
            Lookup(MemWorld(EMPTY_MEM, others, sha).store.policy, account)
  {
    hide Lookup, Best, PutsFor;
    PolicyIsNewest(acts, account, sha);
    PolicyIsNewest(others, account, sha);
    BestConverges(PutsFor(EMPTY_MEM, acts, sha, account), PutsFor(EMPTY_MEM, others, sha, account));
  }

  // ---------- the two stores behind the handler ----------

  function SqlWorld(start: Table, acts: seq<Action>, sha: string -> string): World<Table> {
    Run<Table>(SqlStep(sha), start, acts)
  }

  /** The step registers a hash that another key holds. */
  predicate TakesHash(w: World<Table>, act: Action) {
    act.Work? && act.t < |w.tasks| && Asks(w.tasks[act.t]).Some? && Steals(w.store, Asks(w.tasks[act.t]).value)
  }

  ghost predicate NoHashTaken(start: Table, acts: seq<Action>, sha: string -> string) {
    acts == [] ||
    var n := |acts| - 1;
    NoHashTaken(start, acts[..n], sha) && !TakesHash(SqlWorld(start, acts[..n], sha), acts[n])
  }

  ghost predicate Together(m: World<MemState>, q: World<Table>) {
    Same(m.store, q.store) && m.tasks == q.tasks
  }

  /** A register that memory took and SQLite refused. */
  ghost predicate Split(mine: Task, other: Task) {
    && mine.frame == other.frame && mine.frame.op == RegisterKey
    && (mine.pc.Labelling? || Succeeded(mine.pc)) && other.pc.Replied? && other.pc.reply.error.Some?
  }

  ghost predicate Apart(m: World<MemState>, q: World<Table>) {
    exists t :: 0 <= t < |m.tasks| && t < |q.tasks| && Split(m.tasks[t], q.tasks[t])
  }

  lemma SplitStays(s: MemState, mine: Task, other: Task, sha: string -> string)
    requires Split(mine, other)
    ensures Split(Advance(MemStep(sha), s, mine).1, other)
  {
  }

  lemma ApartStays(m: World<MemState>, q: World<Table>, act: Action, sha: string -> string)
    requires Apart(m, q)
    ensures Apart(Next(MemStep(sha), m, act), Next<Table>(SqlStep(sha), q, act))
  {
    var t :| 0 <= t < |m.tasks| && t < |q.tasks| && Split(m.tasks[t], q.tasks[t]);
    TaskStays(MemStep(sha), m, act, t);
    TaskStays<Table>(SqlStep(sha), q, act, t);
    SplitStays(m.store, m.tasks[t], q.tasks[t], sha);
    hide Split, Advance;
    assert Split(Next(MemStep(sha), m, act).tasks[t], Next<Table>(SqlStep(sha), q, act).tasks[t]);
  }

  lemma RegisterAnswers(m: MemState, q: Table, op: Op, sha: string -> string)
    requires Steals(q, op)
    ensures MemDo(m, op, sha).1 == Done && SqlDo(q, op, sha).1 == Failed(UniqueViolation)
  {
  }

  /** A step that takes no hash keeps the two side by side; one that does parts them for good. */
  lemma StepTogether(m: World<MemState>, q: World<Table>, act: Action, sha: string -> string)
    requires Together(m, q)
    ensures var m', q' := Next(MemStep(sha), m, act), Next<Table>(SqlStep(sha), q, act);
            if TakesHash(q, act) then Apart(m', q') else Together(m', q')
  {
    hide Same, MemDo, SqlDo, Steals;
    if act.Work? && act.t < |m.tasks| && Asks(m.tasks[act.t]).Some? {
      var op := Asks(m.tasks[act.t]).value;
      StepAgrees(m.store, q.store, op, sha);
      if TakesHash(q, act) {
        RegisterAnswers(m.store, q.store, op, sha);
        TakerSplits(m, q, act, sha);
      }
    }
  }

  lemma TakerSplits(m: World<MemState>, q: World<Table>, act: Action, sha: string -> string)
    requires m.tasks == q.tasks && TakesHash(q, act)
    requires MemDo(m.store, Asks(q.tasks[act.t]).value, sha).1 == Done
    requires SqlDo(q.store, Asks(q.tasks[act.t]).value, sha).1 == Failed(UniqueViolation)
    ensures Apart(Next(MemStep(sha), m, act), Next<Table>(SqlStep(sha), q, act))
  {
    hide MemDo, SqlDo;
    var t := act.t;
    assert q.tasks[t].frame.op == RegisterKey && q.tasks[t].pc == Fresh;
    assert Split(Next(MemStep(sha), m, act).tasks[t], Next<Table>(SqlStep(sha), q, act).tasks[t]);
  }

  /**
   * Over every interleaving, from stores with the same contents, every frame stands at the same point
   * and has got the same reply whichever store is behind the handler, exactly when no frame registers
   * a hash held by a different key at that moment.
   */
  lemma {:induction false} RepliesAgree(m: MemState, q: Table, acts: seq<Action>, sha: string -> string)
    requires Same(m, q)
    ensures MemWorld(m, acts, sha).tasks == SqlWorld(q, acts, sha).tasks <==> NoHashTaken(q, acts, sha)
    ensures if NoHashTaken(q, acts, sha) then Together(MemWorld(m, acts, sha), SqlWorld(q, acts, sha))
            else Apart(MemWorld(m, acts, sha), SqlWorld(q, acts, sha))
  {
    if acts != [] {
      hide Same, Next, TakesHash, MemStep, SqlStep, Split;
      var n := |acts| - 1;
      RepliesAgree(m, q, acts[..n], sha);
      var v, w := MemWorld(m, acts[..n], sha), SqlWorld(q, acts[..n], sha);
      if NoHashTaken(q, acts[..n], sha) {
        StepTogether(v, w, acts[n], sha);
      } else {
        ApartStays(v, w, acts[n], sha);
      }
    }
    if Apart(MemWorld(m, acts, sha), SqlWorld(q, acts, sha)) {
      ApartDiffers(MemWorld(m, acts, sha), SqlWorld(q, acts, sha));
    }
  }

  lemma ApartDiffers(m: World<MemState>, q: World<Table>)
    requires Apart(m, q)
    ensures m.tasks != q.tasks
  {
  }
}
