/**
 * The key and policy store: what the in-memory store and the SQLite store compute, and exactly when
 * they agree.
 *
 * SHA-256 of a secret is a parameter. A table is a finite map from its primary key to its row, and a
 * statement an update of it that fails, without effect, if it would break UNIQUE (key_hash).
 */
module Store {
  import opened Wrappers

  datatype APIKey = APIKey(id: string, owner: string, origins: seq<string>)

  datatype Blob = Blob(version: int, data: seq<nat>)

  datatype MemState = MemState(
    keys: map<string, APIKey>,    // by id
    byHash: map<string, string>,  // the id of the key with that secret
    policy: map<string, Blob>)    // by account, opaque to the relay

  datatype Row = Row(owner: string, hash: string, origins: seq<string>)

  datatype SqlState = SqlState(rows: map<string, Row>, blobs: map<string, Blob>)

  datatype StoreError = NotFound | UniqueViolation

  datatype Op =
    | Register(id: string, owner: string, hash: string)
    | Rebind(id: string, oldOwner: string, newOwner: string)
    | UpdateOrigins(id: string, owner: string, origins: seq<string>)
    | Revoke(owner: string, id: string)
    | Resolve(secret: string)
    | OriginAllowed(origin: string)
    | PutPolicy(account: string, blob: Blob)
    | GetPolicy(account: string)

  datatype Answer = Done | Failed(e: StoreError) | Key(key: APIKey) | Flag(b: bool) | Policy(p: Option<Blob>)

  // ---------- policies: the same in both stores ----------

  function Newer(blobs: map<string, Blob>, account: string, blob: Blob): map<string, Blob> {
    if account in blobs && blob.version <= blobs[account].version then blobs else blobs[account := blob]
  }

  function Lookup(blobs: map<string, Blob>, account: string): Option<Blob> {
    if account in blobs then Some(blobs[account]) else None
  }

  // ---------- the in-memory store ----------

  const EMPTY_MEM := MemState(map[], map[], map[])

  function DropHashes(byHash: map<string, string>, id: string): map<string, string> {
    map h | h in byHash && byHash[h] != id :: byHash[h]
  }

  predicate Owned(s: MemState, id: string, owner: string) {
    id in s.keys && s.keys[id].owner == owner
  }

  function OriginsOf(s: MemState, id: string): seq<string> {
    if id in s.keys then s.keys[id].origins else []
  }

  /** A missing key reads as the zero value. */
  function KeyAt(s: MemState, id: string): APIKey {
    if id in s.keys then s.keys[id] else APIKey("", "", [])
  }

  function MemDo(s: MemState, op: Op, sha: string -> string): (MemState, Answer) {
    match op
    case Register(id, owner, hash) =>
      (s.(keys := s.keys[id := APIKey(id, owner, OriginsOf(s, id))],
          byHash := DropHashes(s.byHash, id)[hash := id]), Done)
    case Rebind(id, oldOwner, newOwner) =>
      if Owned(s, id, oldOwner) then (s.(keys := s.keys[id := s.keys[id].(owner := newOwner)]), Done)
      else (s, Failed(NotFound))
    case UpdateOrigins(id, owner, origins) =>
      if Owned(s, id, owner) then (s.(keys := s.keys[id := s.keys[id].(origins := origins)]), Done)
      else (s, Failed(NotFound))
    case Revoke(owner, id) =>
      if Owned(s, id, owner) then (s.(keys := s.keys - {id}, byHash := DropHashes(s.byHash, id)), Done)
      else (s, Failed(NotFound))
    case Resolve(secret) =>
      (s, if sha(secret) in s.byHash then Key(KeyAt(s, s.byHash[sha(secret)])) else Failed(NotFound))
    case OriginAllowed(origin) =>
      (s, Flag(exists id :: id in s.keys && origin in s.keys[id].origins))
    case PutPolicy(account, blob) => (s.(policy := Newer(s.policy, account, blob)), Done)
    case GetPolicy(account) => (s, Policy(Lookup(s.policy, account)))
  }

  /** Each hash points to an existing key, no key has two hashes, and keys know their id. */
  ghost predicate MemInv(s: MemState) {
    && (forall h :: h in s.byHash ==> s.byHash[h] in s.keys)
    && (forall h, g :: h in s.byHash && g in s.byHash && s.byHash[h] == s.byHash[g] ==> h == g)
    && (forall id :: id in s.keys ==> s.keys[id].id == id)
  }

  lemma MemDoKeeps(s: MemState, op: Op, sha: string -> string)
    requires MemInv(s)
    ensures MemInv(MemDo(s, op, sha).0)
  {
  }

  // ---------- the SQLite store ----------

  /** UNIQUE (key_hash). */
  ghost predicate Unique(rows: map<string, Row>) {
    forall i, j :: i in rows && j in rows && rows[i].hash == rows[j].hash ==> i == j
  }

  /** A database whose constraint holds. */
  type Table = s: SqlState | Unique(s.rows) witness SqlState(map[], map[])

  const EMPTY_SQL: Table := SqlState(map[], map[])

  /** Some other row holds the hash. */
  predicate HeldByOther(rows: map<string, Row>, id: string, hash: string) {
    exists i :: i in rows && i != id && rows[i].hash == hash
  }

  /** The statement's ON CONFLICT (id) covers the primary key only. */
  function Upserted(rows: map<string, Row>, id: string, row: Row): Option<map<string, Row>> {
    if HeldByOther(rows, id, row.hash) then None else Some(rows[id := row])
  }

  function RowWith(rows: map<string, Row>, hash: string): (id: Option<string>)
    requires Unique(rows)
    ensures id.Some? ==> id.value in rows && rows[id.value].hash == hash
    ensures id.None? ==> forall i :: i in rows ==> rows[i].hash != hash
  {
    if exists i :: i in rows && rows[i].hash == hash then
      var i :| i in rows && rows[i].hash == hash;
      Some(i)
    else None
  }

  predicate Matches(s: SqlState, id: string, owner: string) {
    id in s.rows && s.rows[id].owner == owner
  }

  function SqlDo(s: Table, op: Op, sha: string -> string): (Table, Answer) {
    match op
    case Register(id, owner, hash) =>
      var origins := if id in s.rows then s.rows[id].origins else [];
      (match Upserted(s.rows, id, Row(owner, hash, origins))
       case None => (s, Failed(UniqueViolation))
       case Some(rows) => (s.(rows := rows), Done))
    case Rebind(id, oldOwner, newOwner) =>
      if Matches(s, id, oldOwner) then (s.(rows := s.rows[id := s.rows[id].(owner := newOwner)]), Done)
      else (s, Failed(NotFound))
    case UpdateOrigins(id, owner, origins) =>
      if Matches(s, id, owner) then (s.(rows := s.rows[id := s.rows[id].(origins := origins)]), Done)
      else (s, Failed(NotFound))
    case Revoke(owner, id) =>
      if Matches(s, id, owner) then (s.(rows := s.rows - {id}), Done) else (s, Failed(NotFound))
    case Resolve(secret) =>
      (match RowWith(s.rows, sha(secret))
       case None => (s, Failed(NotFound))
       case Some(id) => (s, Key(APIKey(id, s.rows[id].owner, s.rows[id].origins))))
    case OriginAllowed(origin) =>
      (s, Flag(exists id :: id in s.rows && origin in s.rows[id].origins))
    case PutPolicy(account, blob) => (s.(blobs := Newer(s.blobs, account, blob)), Done)
    case GetPolicy(account) => (s, Policy(Lookup(s.blobs, account)))
  }

  // ---------- the two side by side ----------

  predicate Points(byHash: map<string, string>, h: string, id: string) {
    h in byHash && byHash[h] == id
  }

  predicate Holds(rows: map<string, Row>, h: string, id: string) {
    id in rows && rows[id].hash == h
  }

  /** The index of the one is the hash column of the other; the rest is the same. */
  ghost predicate Same(m: MemState, q: SqlState) {
    && MemInv(m) && Unique(q.rows)
    && (forall id :: id in m.keys <==> id in q.rows)
    && (forall id :: id in m.keys ==> m.keys[id] == APIKey(id, q.rows[id].owner, q.rows[id].origins))
    && (forall h, id :: Points(m.byHash, h, id) <==> Holds(q.rows, h, id))
    && m.policy == q.blobs
  }

  /** A register that takes over the hash of another key: the one case the stores treat differently. */
  predicate Steals(q: SqlState, op: Op) {
    op.Register? && HeldByOther(q.rows, op.id, op.hash)
  }

  lemma RegisterPoints(byHash: map<string, string>, rows: map<string, Row>, id: string, row: Row, h: string, i: string)
    requires forall g, k :: Points(byHash, g, k) <==> Holds(rows, g, k)
    requires !HeldByOther(rows, id, row.hash)
    ensures Points(DropHashes(byHash, id)[row.hash := id], h, i) <==> Holds(rows[id := row], h, i)
  {
    assert Points(byHash, h, i) <==> Holds(rows, h, i);
    if h == row.hash && i != id {
      assert !Holds(rows, h, i);
    }
  }

  lemma RegisterSame(m: MemState, q: SqlState, id: string, owner: string, hash: string, sha: string -> string)
    requires Same(m, q) && !HeldByOther(q.rows, id, hash)
    ensures Same(MemDo(m, Register(id, owner, hash), sha).0, SqlDo(q, Register(id, owner, hash), sha).0)
  {
    var m', q' := MemDo(m, Register(id, owner, hash), sha).0, SqlDo(q, Register(id, owner, hash), sha).0;
    MemDoKeeps(m, Register(id, owner, hash), sha);
    forall h, i
      ensures Points(m'.byHash, h, i) <==> Holds(q'.rows, h, i)
    {
      RegisterPoints(m.byHash, q.rows, id, q'.rows[id], h, i);
    }
    hide Points, Holds, DropHashes, HeldByOther, MemInv, Unique;
  }

  lemma RevokeSame(m: MemState, q: SqlState, owner: string, id: string, sha: string -> string)
    requires Same(m, q)
    ensures Same(MemDo(m, Revoke(owner, id), sha).0, SqlDo(q, Revoke(owner, id), sha).0)
  {
    var m', q' := MemDo(m, Revoke(owner, id), sha).0, SqlDo(q, Revoke(owner, id), sha).0;
    MemDoKeeps(m, Revoke(owner, id), sha);
    forall h, i
      ensures Points(m'.byHash, h, i) <==> Holds(q'.rows, h, i)
    {
      assert Points(m.byHash, h, i) <==> Holds(q.rows, h, i);
    }
  }

  /** Editing one key beside its hash, in both stores. */
  lemma EditedSame(m: MemState, q: SqlState, id: string, row: Row)
    requires Same(m, q) && id in q.rows && row.hash == q.rows[id].hash
    ensures Same(m.(keys := m.keys[id := APIKey(id, row.owner, row.origins)]), q.(rows := q.rows[id := row]))
  {
    var q' := q.(rows := q.rows[id := row]);
    forall h, i
      ensures Points(m.byHash, h, i) <==> Holds(q'.rows, h, i)
    {
      assert Points(m.byHash, h, i) <==> Holds(q.rows, h, i);
    }
  }

  lemma EditSame(m: MemState, q: SqlState, op: Op, sha: string -> string)
    requires Same(m, q) && (op.Rebind? || op.UpdateOrigins?)
    ensures Same(MemDo(m, op, sha).0, SqlDo(q, op, sha).0) && MemDo(m, op, sha).1 == SqlDo(q, op, sha).1
  {
    if SqlDo(q, op, sha).1 == Done {
      var row := q.rows[op.id];
      EditedSame(m, q, op.id, if op.Rebind? then row.(owner := op.newOwner) else row.(origins := op.origins));
    }
  }

  lemma ResolveSame(m: MemState, q: SqlState, secret: string, sha: string -> string)
    requires Same(m, q)
    ensures MemDo(m, Resolve(secret), sha).1 == SqlDo(q, Resolve(secret), sha).1
  {
    var h := sha(secret);
    if h in m.byHash {
      assert Points(m.byHash, h, m.byHash[h]);
      assert Holds(q.rows, h, m.byHash[h]);
    } else {
      forall i | i in q.rows
        ensures q.rows[i].hash != h
      {
        assert Points(m.byHash, h, i) <==> Holds(q.rows, h, i);
      }
    }
  }

  /** One operation: equal answers and equal stores after, or a stolen hash and different answers. */
  lemma StepAgrees(m: MemState, q: SqlState, op: Op, sha: string -> string)
    requires Same(m, q)
    ensures MemDo(m, op, sha).1 == SqlDo(q, op, sha).1 <==> !Steals(q, op)
    ensures !Steals(q, op) ==> Same(MemDo(m, op, sha).0, SqlDo(q, op, sha).0)
  {
    match op
    case Register(id, owner, hash) =>
      if !Steals(q, op) {
        RegisterSame(m, q, id, owner, hash, sha);
      }
    case Revoke(owner, id) => RevokeSame(m, q, owner, id, sha);
    case Rebind(_, _, _) => EditSame(m, q, op, sha);
    case UpdateOrigins(_, _, _) => EditSame(m, q, op, sha);
    case Resolve(secret) => ResolveSame(m, q, secret, sha);
    case _ =>
  }

  // ---------- whole runs ----------

  /** The state after a run of operations on an empty store, and the answers given. */
  ghost function MemRun(ops: seq<Op>, sha: string -> string): (r: (MemState, seq<Answer>))
    ensures MemInv(r.0)
  {
    if ops == [] then (EMPTY_MEM, [])
    else
      var (s, answers) := MemRun(ops[..|ops| - 1], sha);
      MemDoKeeps(s, ops[|ops| - 1], sha);
      var (after, answer) := MemDo(s, ops[|ops| - 1], sha);
      (after, answers + [answer])
  }

  ghost function SqlRun(ops: seq<Op>, sha: string -> string): (Table, seq<Answer>) {
    if ops == [] then (EMPTY_SQL, [])
    else
      var (s, answers) := SqlRun(ops[..|ops| - 1], sha);
        var (after, answer) := SqlDo(s, ops[|ops| - 1], sha);
      (after, answers + [answer])
  }

  /** No register along the run takes a hash that another key holds at that point. */
  ghost predicate NoTheft(ops: seq<Op>, sha: string -> string) {
    ops == [] ||
    (NoTheft(ops[..|ops| - 1], sha) && !Steals(SqlRun(ops[..|ops| - 1], sha).0, ops[|ops| - 1]))
  }

  lemma SnocEqual<T>(a: seq<T>, x: T, b: seq<T>, y: T)
    requires |a| == |b|
    ensures a + [x] == b + [y] <==> a == b && x == y
  {
    if a + [x] == b + [y] {
      assert a == (a + [x])[..|a|] == (b + [y])[..|b|] == b;
      assert x == (a + [x])[|a|] == (b + [y])[|b|] == y;
    }
  }

  /**
   * Over every run of operations the two stores give the same answers throughout, exactly when no
   * register reuses a hash held by a different key.
   */
  lemma {:induction false} StoresAgree(ops: seq<Op>, sha: string -> string)
    ensures MemRun(ops, sha).1 == SqlRun(ops, sha).1 <==> NoTheft(ops, sha)
    ensures |MemRun(ops, sha).1| == |SqlRun(ops, sha).1| == |ops|
    ensures NoTheft(ops, sha) ==> Same(MemRun(ops, sha).0, SqlRun(ops, sha).0)
  {
    if ops != [] {
      hide Same, MemDo, SqlDo, Steals, MemInv, Unique;
      var n := |ops| - 1;
      StoresAgree(ops[..n], sha);
      var (m, ms) := MemRun(ops[..n], sha);
      var (q, qs) := SqlRun(ops[..n], sha);
      SnocEqual(ms, MemDo(m, ops[n], sha).1, qs, SqlDo(q, ops[n], sha).1);
      if NoTheft(ops[..n], sha) {
        StepAgrees(m, q, ops[n], sha);
      }
    }
  }

  /** The difference is real: the second register succeeds in memory and fails in SQLite. */
  lemma StolenHashDiffers(sha: string -> string)
    ensures var ops := [Register("a", "x", "h"), Register("b", "y", "h")];
            MemRun(ops, sha).1 == [Done, Done] && SqlRun(ops, sha).1 == [Done, Failed(UniqueViolation)]
  {
    var first, second := Register("a", "x", "h"), Register("b", "y", "h");
    FirstRun(first, sha);
    var q := SqlRun([first], sha).0;
    assert "a" in q.rows && q.rows["a"].hash == "h";
    assert HeldByOther(q.rows, "b", "h");
    assert [first, second][..1] == [first];
  }

  lemma FirstRun(op: Op, sha: string -> string)
    requires op.Register?
    ensures MemRun([op], sha).1 == [Done]
    ensures SqlRun([op], sha) == (SqlState(map[op.id := Row(op.owner, op.hash, [])], map[]), [Done])
  {
    assert [op][..0] == [];
    assert MemRun([], sha) == (EMPTY_MEM, []) && SqlRun([], sha) == (EMPTY_SQL, []);
    assert !HeldByOther(EMPTY_SQL.rows, op.id, op.hash);
    assert SqlDo(EMPTY_SQL, op, sha) == (SqlState(map[op.id := Row(op.owner, op.hash, [])], map[]), Done);
  }

  // ---------- what the operations promise a caller ----------

  /**
   * Registering a key id again rotates its secret: the new one resolves to it, with its origins kept,
   * the old ones stop, and every other key resolves as before.
   */
  lemma RegisterRotates(s: MemState, id: string, owner: string, hash: string, sha: string -> string, secret: string)
    requires MemInv(s)
    ensures MemInv(MemDo(s, Register(id, owner, hash), sha).0)
    ensures var before := MemDo(s, Resolve(secret), sha).1;
            var after := MemDo(MemDo(s, Register(id, owner, hash), sha).0, Resolve(secret), sha).1;
            after == if sha(secret) == hash then Key(APIKey(id, owner, OriginsOf(s, id)))
                     else if before.Key? && before.key.id == id then Failed(NotFound)
                     else before
  {
    MemDoKeeps(s, Register(id, owner, hash), sha);
  }

  /** Rebinding changes the owner of one key and nothing else that can be observed. */
  lemma RebindKeepsSecret(s: MemState, id: string, oldOwner: string, newOwner: string, sha: string -> string, op: Op)
    requires MemInv(s) && Owned(s, id, oldOwner)
    requires op.Resolve? || op.OriginAllowed? || op.GetPolicy?
    ensures MemInv(MemDo(s, Rebind(id, oldOwner, newOwner), sha).0)
    ensures var before := MemDo(s, op, sha).1;
            var after := MemDo(MemDo(s, Rebind(id, oldOwner, newOwner), sha).0, op, sha).1;
            after == if before.Key? && before.key.id == id then Key(before.key.(owner := newOwner)) else before
  {
    var t := MemDo(s, Rebind(id, oldOwner, newOwner), sha).0;
    MemDoKeeps(s, Rebind(id, oldOwner, newOwner), sha);
    if op.OriginAllowed? {
      assert forall i :: i in s.keys ==> t.keys[i].origins == s.keys[i].origins;
    }
  }

  /** A revoked key never resolves, and revoking touches no other key. */
  lemma RevokeRemoves(s: MemState, owner: string, id: string, sha: string -> string, secret: string)
    requires MemInv(s) && Owned(s, id, owner)
    ensures MemInv(MemDo(s, Revoke(owner, id), sha).0)
    ensures var before := MemDo(s, Resolve(secret), sha).1;
            var after := MemDo(MemDo(s, Revoke(owner, id), sha).0, Resolve(secret), sha).1;
            after == if before.Key? && before.key.id == id then Failed(NotFound) else before
  {
    MemDoKeeps(s, Revoke(owner, id), sha);
  }
}
