/**
 * Control frames handled one at a time: what an enrolled device may change in the store. What holds when
 * the operations of several frames interleave is in ControlSteps and ControlTheorems.
 */
module Control {
  import opened Wrappers
  import opened Store
  import opened StoreClasses

  datatype ControlOp = RegisterKey | RebindKey | RevokeKey | SetOrigins | StoreBlob | LoadBlob | Other(name: string)

  datatype Frame = Frame(op: ControlOp, corrID: string, account: string, keyID: string, hash: string,
                         origins: seq<string>, blob: Blob)

  datatype ControlError = NotYourAccount | MissingField | StoreFailed(e: StoreError) | KeyNotFound | UnknownOp

  /** Fields left unset read as empty; `blob` is set only when a policy was found. */
  datatype Reply = Reply(corrID: string, error: Option<ControlError>, keyID: string, account: string, blob: Option<Blob>)

  // ---------- what the handler computes ----------

  function Refused(c: Frame, e: ControlError): Reply {
    Reply(c.corrID, Some(e), "", "", None)
  }

  /** What a store does with an operation. */
  type Step<!S> = (S, Op) -> (S, Answer)

  function MemStep(sha: string -> string): Step<MemState> {
    (s: MemState, op: Op) => MemDo(s, op, sha)
  }

  function SqlStep(sha: string -> string): Step<Table> {
    (s: Table, op: Op) => SqlDo(s, op, sha)
  }

  /** Tries the first `n` accounts in turn as the owner; the first that the store accepts wins. */
  function TryRebind<S>(do: Step<S>, s: S, accounts: seq<string>, n: nat, id: string, newOwner: string): (S, bool)
    requires n <= |accounts|
  {
    if n == 0 then (s, false)
    else
      var (t, ok) := TryRebind(do, s, accounts, n - 1, id, newOwner);
      if ok then (t, true)
      else
        var (u, answer) := do(t, Rebind(id, accounts[n - 1], newOwner));
        (u, answer == Done)
  }

  function TryRevoke<S>(do: Step<S>, s: S, accounts: seq<string>, n: nat, id: string): (S, bool)
    requires n <= |accounts|
  {
    if n == 0 then (s, false)
    else
      var (t, ok) := TryRevoke(do, s, accounts, n - 1, id);
      if ok then (t, true)
      else
        var (u, answer) := do(t, Revoke(accounts[n - 1], id));
        (u, answer == Done)
  }

  function AnswerTo(c: Frame, answer: Answer, ok: Reply): Reply {
    if answer.Failed? then Refused(c, StoreFailed(answer.e)) else ok
  }

  /** `accounts` are the accounts the connection proved. */
  function Handle<S>(do: Step<S>, s: S, accounts: seq<string>, c: Frame): (S, Reply) {
    match c.op
    case RegisterKey =>
      if c.account !in accounts then (s, Refused(c, NotYourAccount))
      else if c.keyID == "" || c.hash == "" then (s, Refused(c, MissingField))
      else
        var (t, answer) := do(s, Register(c.keyID, c.account, c.hash));
        var u := if answer.Failed? || c.origins == [] then t else do(t, UpdateOrigins(c.keyID, c.account, c.origins)).0;
        (u, AnswerTo(c, answer, Reply(c.corrID, None, c.keyID, c.account, None)))
    case RebindKey =>
      if c.account !in accounts then (s, Refused(c, NotYourAccount))
      else if c.keyID == "" then (s, Refused(c, MissingField))
      else
        var (t, ok) := TryRebind(do, s, accounts, |accounts|, c.keyID, c.account);
        (t, if ok then Reply(c.corrID, None, c.keyID, c.account, None) else Refused(c, KeyNotFound))
    case RevokeKey =>
      var (t, ok) := TryRevoke(do, s, accounts, |accounts|, c.keyID);
      (t, if ok then Reply(c.corrID, None, "", "", None) else Refused(c, KeyNotFound))
    case SetOrigins =>
      if c.account !in accounts then (s, Refused(c, NotYourAccount))
      else if c.keyID == "" then (s, Refused(c, MissingField))
      else
        var (t, answer) := do(s, UpdateOrigins(c.keyID, c.account, c.origins));
        (t, AnswerTo(c, answer, Reply(c.corrID, None, c.keyID, "", None)))
    case StoreBlob =>
      if c.account !in accounts then (s, Refused(c, NotYourAccount))
      else
        var (t, answer) := do(s, PutPolicy(c.account, c.blob));
        (t, AnswerTo(c, answer, Reply(c.corrID, None, "", "", None)))
    case LoadBlob =>
      if c.account !in accounts then (s, Refused(c, NotYourAccount))
      else
        var (t, answer) := do(s, GetPolicy(c.account));
        (t, AnswerTo(c, answer, Reply(c.corrID, None, "", c.account, if answer.Policy? then answer.p else None)))
    case Other(_) => (s, Refused(c, UnknownOp))
  }

  method Contains(list: seq<string>, v: string) returns (found: bool)
    ensures found <==> v in list
  {
    for i := 0 to |list|
      invariant v !in list[..i]
    {
      if list[i] == v {
        return true;
      }
    }
    return false;
  }

  /** The handler, on the store it edits; writing the reply to the connection is left to the caller. */
  method HandleControl(store: MemStore, accounts: seq<string>, c: Frame) returns (reply: Reply)
    requires store.Valid()
    modifies store
    ensures store.Valid() && (store.State(), reply) == Handle(MemStep(store.sha), old(store.State()), accounts, c)
  {
    hide MemDo, MemInv;
    ghost var s := store.State();
    reply := Reply(c.corrID, None, "", "", None);
    var mine := Contains(accounts, c.account);
    match c.op
    case RegisterKey =>
      if !mine {
        return Refused(c, NotYourAccount);
      }
      if c.keyID == "" || c.hash == "" {
        return Refused(c, MissingField);
      }
      store.RegisterAPIKey(c.keyID, c.account, c.hash);
      if |c.origins| > 0 {
        var _ := store.UpdateKeyOrigins(c.keyID, c.account, c.origins);
      }
      reply := reply.(keyID := c.keyID, account := c.account);
    case RebindKey =>
      if !mine {
        return Refused(c, NotYourAccount);
      }
      if c.keyID == "" {
        return Refused(c, MissingField);
      }
      var rebound := false;
      for i := 0 to |accounts|
        invariant store.Valid() && !rebound
        invariant (store.State(), rebound) == TryRebind(MemStep(store.sha), s, accounts, i, c.keyID, c.account)
      {
        var ok := store.RebindAPIKey(c.keyID, accounts[i], c.account);
        if ok {
          rebound := true;
          RebindStays(s, accounts, i + 1, |accounts|, c.keyID, c.account, store.sha);
          break;
        }
      }
      if !rebound {
        return Refused(c, KeyNotFound);
      }
      reply := reply.(keyID := c.keyID, account := c.account);
    case RevokeKey =>
      var revoked := false;
      for i := 0 to |accounts|
        invariant store.Valid() && !revoked
        invariant (store.State(), revoked) == TryRevoke(MemStep(store.sha), s, accounts, i, c.keyID)
      {
        var ok := store.RevokeAPIKey(accounts[i], c.keyID);
        if ok {
          revoked := true;
          RevokeStays(s, accounts, i + 1, |accounts|, c.keyID, store.sha);
          break;
        }
      }
      if !revoked {
        return Refused(c, KeyNotFound);
      }
    case SetOrigins =>
      if !mine {
        return Refused(c, NotYourAccount);
      }
      if c.keyID == "" {
        return Refused(c, MissingField);
      }
      var ok := store.UpdateKeyOrigins(c.keyID, c.account, c.origins);
      if !ok {
        return Refused(c, StoreFailed(NotFound));
      }
      reply := reply.(keyID := c.keyID);
    case StoreBlob =>
      if !mine {
        return Refused(c, NotYourAccount);
      }
      store.StorePolicy(c.account, c.blob);
    case LoadBlob =>
      if !mine {
        return Refused(c, NotYourAccount);
      }
      var found := store.LoadPolicy(c.account);
      LoadIsLookup(s, c.account, store.sha);
      reply := reply.(blob := found, account := c.account);
    case Other(_) =>
      return Refused(c, UnknownOp);
  }

  lemma LoadIsLookup(s: MemState, account: string, sha: string -> string)
    ensures MemDo(s, GetPolicy(account), sha) == (s, Policy(Lookup(s.policy, account)))
  {
  }

  lemma {:induction false} RebindStays(s: MemState, accounts: seq<string>, i: nat, n: nat, id: string, newOwner: string, sha: string -> string)
    requires i <= n <= |accounts| && TryRebind(MemStep(sha), s, accounts, i, id, newOwner).1
    ensures TryRebind(MemStep(sha), s, accounts, n, id, newOwner) == TryRebind(MemStep(sha), s, accounts, i, id, newOwner)
  {
    if i < n {
      RebindStays(s, accounts, i, n - 1, id, newOwner, sha);
    }
  }

  lemma {:induction false} RevokeStays(s: MemState, accounts: seq<string>, i: nat, n: nat, id: string, sha: string -> string)
    requires i <= n <= |accounts| && TryRevoke(MemStep(sha), s, accounts, i, id).1
    ensures TryRevoke(MemStep(sha), s, accounts, n, id) == TryRevoke(MemStep(sha), s, accounts, i, id)
  {
    if i < n {
      RevokeStays(s, accounts, i, n - 1, id, sha);
    }
  }

  // ---------- the search is the authorisation check ----------

  lemma {:induction false} TryRebindExact(s: MemState, accounts: seq<string>, n: nat, id: string, newOwner: string, sha: string -> string)
    requires n <= |accounts|
    ensures var (t, ok) := TryRebind(MemStep(sha), s, accounts, n, id, newOwner);
            && (ok <==> id in s.keys && s.keys[id].owner in accounts[..n])
            && t == if ok then s.(keys := s.keys[id := s.keys[id].(owner := newOwner)]) else s
  {
    if n > 0 {
      TryRebindExact(s, accounts, n - 1, id, newOwner, sha);
      assert accounts[..n] == accounts[..n - 1] + [accounts[n - 1]];
    }
  }

  lemma {:induction false} TryRevokeExact(s: MemState, accounts: seq<string>, n: nat, id: string, sha: string -> string)
    requires n <= |accounts|
    ensures var (t, ok) := TryRevoke(MemStep(sha), s, accounts, n, id);
            && (ok <==> id in s.keys && s.keys[id].owner in accounts[..n])
            && t == if ok then s.(keys := s.keys - {id}, byHash := DropHashes(s.byHash, id)) else s
  {
    if n > 0 {
      TryRevokeExact(s, accounts, n - 1, id, sha);
      assert accounts[..n] == accounts[..n - 1] + [accounts[n - 1]];
    }
  }

  /**
   * A rebind succeeds exactly when both the key's owner and the new account were proven on the
   * connection; then the owner changes and nothing else, and otherwise nothing changes.
   */
  lemma RebindIsAuthorised(s: MemState, accounts: seq<string>, c: Frame, sha: string -> string)
    requires c.op == RebindKey
    ensures var (t, reply) := Handle(MemStep(sha), s, accounts, c);
            && (reply.error == None <==>
                  c.keyID != "" && c.account in accounts && c.keyID in s.keys && s.keys[c.keyID].owner in accounts)
            && t == if reply.error == None then s.(keys := s.keys[c.keyID := s.keys[c.keyID].(owner := c.account)]) else s
  {
    hide TryRebind, TryRevoke;
    TryRebindExact(s, accounts, |accounts|, c.keyID, c.account, sha);
    assert accounts[..|accounts|] == accounts;
  }

  /** A revoke succeeds exactly when the key's owner was proven; then that key and its hashes go. */
  lemma RevokeIsAuthorised(s: MemState, accounts: seq<string>, c: Frame, sha: string -> string)
    requires c.op == RevokeKey
    ensures var (t, reply) := Handle(MemStep(sha), s, accounts, c);
            && (reply.error == None <==> c.keyID in s.keys && s.keys[c.keyID].owner in accounts)
            && t == if reply.error == None then s.(keys := s.keys - {c.keyID}, byHash := DropHashes(s.byHash, c.keyID)) else s
  {
    hide TryRebind, TryRevoke;
    TryRevokeExact(s, accounts, |accounts|, c.keyID, sha);
    assert accounts[..|accounts|] == accounts;
  }

  // ---------- keeping the newest blob ----------

  /** What keeping only strictly newer versions makes of a list of puts. */
  function Best(puts: seq<Blob>): Option<Blob> {
    if puts == [] then None
    else
      var before := Best(puts[..|puts| - 1]);
      var last := puts[|puts| - 1];
      if before.Some? && last.version <= before.value.version then before else Some(last)
  }

  /** The highest version put, and of those at it the first. */
  ghost predicate IsFirstHighest(puts: seq<Blob>, i: nat) {
    && i < |puts|
    && (forall j :: 0 <= j < |puts| ==> puts[j].version <= puts[i].version)
    && (forall j :: 0 <= j < i ==> puts[j].version < puts[i].version)
  }

  lemma {:induction false} BestIsFirstHighest(puts: seq<Blob>) returns (i: nat)
    requires puts != []
    ensures IsFirstHighest(puts, i) && Best(puts) == Some(puts[i])
  {
    var n := |puts| - 1;
    if n == 0 {
      i := 0;
    } else {
      var k := BestIsFirstHighest(puts[..n]);
      i := if puts[n].version <= puts[k].version then k else n;
      assert forall j :: 0 <= j < n ==> puts[..n][j] == puts[j];
    }
  }

  lemma BestSnoc(puts: seq<Blob>, blob: Blob)
    ensures Best(puts + [blob]) ==
            if Best(puts).Some? && blob.version <= Best(puts).value.version then Best(puts) else Some(blob)
  {
    assert (puts + [blob])[..|puts|] == puts;
  }

  lemma NewerLookup(blobs: map<string, Blob>, account: string, blob: Blob)
    ensures Lookup(Newer(blobs, account, blob), account) ==
            var cur := Lookup(blobs, account);
            if cur.Some? && blob.version <= cur.value.version then cur else Some(blob)
  {
  }

  lemma SomeMember(puts: seq<Blob>)
    ensures puts == [] || exists b :: b in puts
  {
    if puts != [] {
      assert puts[0] in puts;
    }
  }

  lemma BestConverges(puts: seq<Blob>, others: seq<Blob>)
    requires forall b :: b in puts <==> b in others
    requires forall b, d :: b in puts && d in puts && b.version == d.version ==> b == d
    ensures Best(puts) == Best(others)
  {
    SomeMember(puts);
    SomeMember(others);
    if puts != [] {
      var i := BestIsFirstHighest(puts);
      var j := BestIsFirstHighest(others);
      assert puts[i] in others && others[j] in puts;
    }
  }
}
