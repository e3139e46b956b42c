/** For which connections the search for a key's owner can never miss. */
module ControlSearch {
  import opened Wrappers
  import opened Store
  import opened Control
  import opened ControlSteps
  import opened ControlTheorems

  /** At every moment of the run at which task `t` is at work, the key has an owner among `accounts`. */
  ghost predicate OwnedMeanwhile(start: MemState, acts: seq<Action>, sha: string -> string, t: nat, id: string, accounts: seq<string>) {
    && (var w := MemWorld(start, acts, sha);
        t < |w.tasks| && !w.tasks[t].pc.Replied? ==> OwnerAmong(w.store, id, accounts))
    && (acts == [] || OwnedMeanwhile(start, acts[..|acts| - 1], sha, t, id, accounts))
  }

  predicate OwnerAmong(s: MemState, id: string, accounts: seq<string>) {
    OwnerOf(s, id).Some? && OwnerOf(s, id).value in accounts
  }

  predicate HandledAs(w: World<MemState>, t: nat, accounts: seq<string>, c: Frame) {
    t < |w.tasks| && w.tasks[t].accounts == accounts && w.tasks[t].frame == c
  }

  /** In every interleaving, the frame succeeds if an account of its connection owns the key until it replies. */
  ghost predicate NeverMisses(accounts: seq<string>, c: Frame, sha: string -> string) {
    forall start, acts, t: nat :: HandledAs(MemWorld(start, acts, sha), t, accounts, c) && OwnedMeanwhile(start, acts, sha, t, c.keyID, accounts) ==>
      MemWorld(start, acts, sha).tasks[t].pc.Replied? ==> Succeeded(MemWorld(start, acts, sha).tasks[t].pc)
  }

  /** The connection proved no two different accounts. */
  ghost predicate AllOne(accounts: seq<string>) {
    forall i, j :: 0 <= i < |accounts| && 0 <= j < |accounts| ==> accounts[i] == accounts[j]
  }

  // ---------- when it cannot miss ----------

  /** The search has not passed the owner by. */
  ghost predicate NotPassed(s: MemState, task: Task) {
    match task.pc
    case Fresh => true
    case Searching(i) =>
      i <= |task.accounts| && (OwnerAmong(s, task.frame.keyID, task.accounts) ==> OwnerOf(s, task.frame.keyID).value !in task.accounts[..i])
    case Labelling => false
    case Replied(_) => Succeeded(task.pc)
  }

  lemma OwnTry(s: MemState, task: Task, sha: string -> string)
    requires Searches(task.frame) && Refusal(task).None? && NotPassed(s, task)
    requires !task.pc.Replied? ==> OwnerAmong(s, task.frame.keyID, task.accounts)
    ensures var (t, after) := Advance(MemStep(sha), s, task); NotPassed(t, after)
  {
    if task.pc.Searching? && task.pc.next < |task.accounts| {
      var i := task.pc.next;
      assert task.accounts[..i + 1] == task.accounts[..i] + [task.accounts[i]];
    }
  }

  /** No frame moves a key whose id is empty; at most it goes away. */
  lemma NamelessStays(s: MemState, task: Task, sha: string -> string)
    requires Sound(task)
    ensures var t := Advance(MemStep(sha), s, task).0; OwnerOf(t, "") == OwnerOf(s, "") || OwnerOf(t, "").None?
  {
  }

  /** With one account, or no name, the owner is the same before and after the step of another task. */
  lemma OwnerFixed(w: World<MemState>, act: Action, sha: string -> string, id: string, accounts: seq<string>)
    requires AllSound(w.tasks) && (id == "" || AllOne(accounts))
    requires OwnerAmong(w.store, id, accounts) && OwnerAmong(Next(MemStep(sha), w, act).store, id, accounts)
    ensures OwnerOf(Next(MemStep(sha), w, act).store, id) == OwnerOf(w.store, id)
  {
    if id == "" {
      hide Advance, OwnerOf, Sound;
      if act.Work? && act.t < |w.tasks| {
        NamelessStays(w.store, w.tasks[act.t], sha);
      }
    }
  }

  lemma {:induction false} OneAccountNeverPassed(start: MemState, acts: seq<Action>, sha: string -> string, t: nat, accounts: seq<string>, c: Frame)
    requires Searches(c) && Refusal(Task(accounts, c, Fresh)).None? && (c.keyID == "" || AllOne(accounts))
    requires HandledAs(MemWorld(start, acts, sha), t, accounts, c) && OwnedMeanwhile(start, acts, sha, t, c.keyID, accounts)
    ensures NotPassed(MemWorld(start, acts, sha).store, MemWorld(start, acts, sha).tasks[t])
  {
    hide Advance, Refusal, OwnerOf, AllOne, Sound;
    var n := |acts| - 1;
    var v, w := MemWorld(start, acts[..n], sha), MemWorld(start, acts, sha);
    TasksSound(MemStep(sha), start, acts[..n]);
    if t < |v.tasks| {
      TaskStays(MemStep(sha), v, acts[n], t);
      OneAccountNeverPassed(start, acts[..n], sha, t, accounts, c);
      if acts[n] == Work(t) {
        RefusalStays(v.tasks[t]);
        OwnTry(v.store, v.tasks[t], sha);
      } else if v.tasks[t].pc.Searching? {
        OwnerFixed(v, acts[n], sha, c.keyID, accounts);
      }
    }
  }

  lemma RefusalStays(task: Task)
    ensures Refusal(task) == Refusal(Task(task.accounts, task.frame, Fresh))
  {
  }

  // ---------- when it can ----------

  /** A store with one key, of `owner`. */
  function OneKey(id: string, owner: string): MemState {
    MemState(map[id := APIKey(id, owner, [])], map[], map[])
  }

  function MoveTo(id: string, account: string): Frame {
    Frame(RebindKey, "", account, id, "", [], Blob(0, []))
  }

  lemma OneKeySound(id: string, owner: string)
    ensures MemInv(OneKey(id, owner)) && OwnerOf(OneKey(id, owner), id) == Some(owner)
  {
  }

  /** A try that names another account than the owner leaves the search one further on. */
  lemma MissedTry(id: string, owner: string, task: Task, sha: string -> string)
    requires Searches(task.frame) && task.frame.keyID == id && Refusal(task).None?
    requires task.pc.Searching? && task.pc.next < |task.accounts| && task.accounts[task.pc.next] != owner
    ensures Advance(MemStep(sha), OneKey(id, owner), task) == (OneKey(id, owner), task.(pc := Searching(task.pc.next + 1)))
  {
  }

  /** A device that proved both accounts moves the key from `owner` to `other` at its first try. */
  lemma MoverSteps(id: string, owner: string, other: string, sha: string -> string)
    requires id != ""
    ensures var mover := Task([owner, other], MoveTo(id, other), Fresh);
            && Advance(MemStep(sha), OneKey(id, owner), mover) == (OneKey(id, owner), mover.(pc := Searching(0)))
            && Advance(MemStep(sha), OneKey(id, owner), mover.(pc := Searching(0))) ==
               (OneKey(id, other), mover.(pc := Replied(Confirmed(mover.frame))))
  {
    var s := OneKey(id, owner);
    assert s.(keys := s.keys[id := s.keys[id].(owner := other)]) == OneKey(id, other);
  }

  /** The search of task 0, `n` tries on without success, in a run in which a proven account always owned the key. */
  ghost predicate Missing(start: MemState, acts: seq<Action>, sha: string -> string, accounts: seq<string>, c: Frame, n: nat, owner: string) {
    var w := MemWorld(start, acts, sha);
    && w.store == OneKey(c.keyID, owner) && OwnedThroughout(start, acts, sha, c.keyID, accounts)
    && |w.tasks| > 0 && w.tasks[0] == Task(accounts, c, Searching(n))
  }

  /** One action more, in a run that keeps the key owned. */
  lemma OwnedWork(start: MemState, acts: seq<Action>, sha: string -> string, id: string, accounts: seq<string>, owner: string, t: nat, task: Task)
    requires OwnedThroughout(start, acts, sha, id, accounts) && owner in accounts && t < |MemWorld(start, acts, sha).tasks|
    requires Advance(MemStep(sha), MemWorld(start, acts, sha).store, MemWorld(start, acts, sha).tasks[t]) == (OneKey(id, owner), task)
    ensures OwnedThroughout(start, acts + [Work(t)], sha, id, accounts)
    ensures MemWorld(start, acts + [Work(t)], sha) == World(OneKey(id, owner), MemWorld(start, acts, sha).tasks[t := task])
  {
    hide Advance, OwnerOf;
    OneKeySound(id, owner);
    OwnedStep(start, acts, Work(t), sha, id, accounts);
  }

  /** A second device takes the key from the account about to be tried to the other one. */
  lemma MoveAway(start: MemState, acts: seq<Action>, sha: string -> string, accounts: seq<string>, c: Frame, n: nat,
                 owner: string, other: string) returns (more: seq<Action>)
    requires Missing(start, acts, sha, accounts, c, n, owner) && c.keyID != "" && owner in accounts && other in accounts
    ensures Missing(start, more, sha, accounts, c, n, other)
  {
    hide Advance, OwnedThroughout, MemWorld, OneKey, MoveTo;
    var id := c.keyID;
    var w := MemWorld(start, acts, sha);
    var m := |w.tasks|;
    var mover := Task([owner, other], MoveTo(id, other), Fresh);
    OneKeySound(id, owner);
    OwnedStep(start, acts, Arrive(mover.accounts, mover.frame), sha, id, accounts);
    more := acts + [Arrive(mover.accounts, mover.frame)];
    MoverSteps(id, owner, other, sha);
    OwnedWork(start, more, sha, id, accounts, owner, m, mover.(pc := Searching(0)));
    more := more + [Work(m)];
    OwnedWork(start, more, sha, id, accounts, other, m, mover.(pc := Replied(Confirmed(mover.frame))));
    more := more + [Work(m)];
  }

  /** Before each try that would succeed, the key is moved to the other of two proven accounts. */
  lemma {:induction false} MissUpTo(sha: string -> string, accounts: seq<string>, c: Frame, x: string, y: string, n: nat)
    returns (acts: seq<Action>, owner: string)
    requires Searches(c) && Refusal(Task(accounts, c, Fresh)).None? && c.keyID != ""
    requires x in accounts && y in accounts && x != y && n <= |accounts|
    ensures Missing(OneKey(c.keyID, x), acts, sha, accounts, c, n, owner) && (owner == x || owner == y)
  {
    hide Advance, OwnedThroughout, MemWorld, OneKey, Refusal;
    var id, start := c.keyID, OneKey(c.keyID, x);
    var task := Task(accounts, c, Fresh);
    if n == 0 {
      owner := x;
      OneKeySound(id, x);
      NothingRun(start, sha, id, accounts);
      OwnedStep(start, [], Arrive(accounts, c), sha, id, accounts);
      FirstStep(start, task, sha);
      OwnedWork(start, [] + [Arrive(accounts, c)], sha, id, accounts, x, 0, task.(pc := Searching(0)));
      acts := [] + [Arrive(accounts, c)] + [Work(0)];
    } else {
      acts, owner := MissUpTo(sha, accounts, c, x, y, n - 1);
      if accounts[n - 1] == owner {
        var other := if owner == x then y else x;
        acts := MoveAway(start, acts, sha, accounts, c, n - 1, owner, other);
        owner := other;
      }
      RefusalStays(Task(accounts, c, Searching(n - 1)));
      MissedTry(id, owner, Task(accounts, c, Searching(n - 1)), sha);
      OwnedWork(start, acts, sha, id, accounts, owner, 0, Task(accounts, c, Searching(n)));
      acts := acts + [Work(0)];
    }
  }

  lemma FirstStep(s: MemState, task: Task, sha: string -> string)
    requires task.pc == Fresh && Searches(task.frame) && Refusal(task).None?
    ensures Advance(MemStep(sha), s, task) == (s, task.(pc := Searching(0)))
  {
  }

  lemma LastStep(s: MemState, task: Task, sha: string -> string)
    requires task.pc == Searching(|task.accounts|)
    ensures Advance(MemStep(sha), s, task) == (s, task.(pc := Replied(Refused(task.frame, KeyNotFound))))
  {
  }

  lemma NothingRun(start: MemState, sha: string -> string, id: string, accounts: seq<string>)
    requires OwnerAmong(start, id, accounts)
    ensures MemWorld(start, [], sha) == World(start, []) && OwnedThroughout(start, [], sha, id, accounts)
  {
  }

  /**
   * A connection that proved two different accounts: there is a run, from a sound store, in which one of
   * its accounts owns the key throughout, and its rebind or revoke is told there is no such key.
   */
  lemma TwoAccountsCanMiss(sha: string -> string, accounts: seq<string>, c: Frame, x: string, y: string)
    returns (start: MemState, acts: seq<Action>)
    requires Searches(c) && Refusal(Task(accounts, c, Fresh)).None? && c.keyID != ""
    requires x in accounts && y in accounts && x != y
    ensures MemInv(start) && OwnedThroughout(start, acts, sha, c.keyID, accounts)
    ensures |MemWorld(start, acts, sha).tasks| > 0
    ensures MemWorld(start, acts, sha).tasks[0] == Task(accounts, c, Replied(Refused(c, KeyNotFound)))
  {
    hide Advance, OwnedThroughout, MemWorld, OneKey, Refusal, MemInv;
    start := OneKey(c.keyID, x);
    OneKeySound(c.keyID, x);
    var owner;
    acts, owner := MissUpTo(sha, accounts, c, x, y, |accounts|);
    var task := Task(accounts, c, Searching(|accounts|));
    LastStep(OneKey(c.keyID, owner), task, sha);
    OwnedWork(start, acts, sha, c.keyID, accounts, owner, 0, task.(pc := Replied(Refused(c, KeyNotFound))));
    acts := acts + [Work(0)];
  }

  lemma {:induction false} ThroughoutIsMeanwhile(start: MemState, acts: seq<Action>, sha: string -> string, t: nat, id: string, accounts: seq<string>)
    requires OwnedThroughout(start, acts, sha, id, accounts)
    ensures OwnedMeanwhile(start, acts, sha, t, id, accounts)
  {
    if acts != [] {
      ThroughoutIsMeanwhile(start, acts[..|acts| - 1], sha, t, id, accounts);
    }
  }

  // ---------- exactly when ----------

  /**
   * A rebind or revoke that passes its checks succeeds in every interleaving in which its connection's
   * accounts own the key until it replies, exactly if the connection proved no two different accounts
   * (or the key has no name, so that nobody can move it).
   */
  lemma NeverMissesExactly(accounts: seq<string>, c: Frame, sha: string -> string)
    requires Searches(c) && Refusal(Task(accounts, c, Fresh)).None?
    ensures NeverMisses(accounts, c, sha) <==> c.keyID == "" || AllOne(accounts)
  {
    hide MemWorld, OwnedMeanwhile, OwnedThroughout, OwnerOf, Refusal, MemInv;
    if c.keyID == "" || AllOne(accounts) {
      forall start, acts, t: nat |
        HandledAs(MemWorld(start, acts, sha), t, accounts, c) && OwnedMeanwhile(start, acts, sha, t, c.keyID, accounts)
        ensures MemWorld(start, acts, sha).tasks[t].pc.Replied? ==> Succeeded(MemWorld(start, acts, sha).tasks[t].pc)
      {
        OneAccountNeverPassed(start, acts, sha, t, accounts, c);
      }
    } else {
      var i, j :| 0 <= i < |accounts| && 0 <= j < |accounts| && accounts[i] != accounts[j];
      var start, acts := TwoAccountsCanMiss(sha, accounts, c, accounts[i], accounts[j]);
      ThroughoutIsMeanwhile(start, acts, sha, 0, c.keyID, accounts);
      assert HandledAs(MemWorld(start, acts, sha), 0, accounts, c);
    }
  }
}
