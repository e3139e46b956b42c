/** The Postgres to SQLite importer: two loops of upserts, and why running it again changes nothing. */
module Migrate {
  import opened Wrappers
  import opened Store
  import opened Control

  datatype SourceKey = SourceKey(id: string, owner: string, hash: string, origins: seq<string>)

  datatype SourceBlob = SourceBlob(account: string, blob: Blob)

  function RowOf(k: SourceKey): Row {
    Row(k.owner, k.hash, k.origins)
  }

  /** The destination, the count, and whether no upsert has failed, after at most `n` source rows. */
  function KeysCopied(source: seq<SourceKey>, n: nat, dst: map<string, Row>): (map<string, Row>, nat, bool)
    requires n <= |source|
  {
    if n == 0 then (dst, 0, true)
    else
      var (d, k, ok) := KeysCopied(source, n - 1, dst);
      if !ok then (d, k, false)
      else
        match Upserted(d, source[n - 1].id, RowOf(source[n - 1]))
        case None => (d, k, false)
        case Some(after) => (after, k + 1, true)
  }

  function BlobsCopied(source: seq<SourceBlob>, n: nat, dst: map<string, Blob>): map<string, Blob>
    requires n <= |source|
  {
    if n == 0 then dst else Newer(BlobsCopied(source, n - 1, dst), source[n - 1].account, source[n - 1].blob)
  }

  class Destination {
    var rows: map<string, Row>
    var blobs: map<string, Blob>

    /** Stops at the first row whose hash another row holds; rows copied so far stay. */
    method MigrateAPIKeys(source: seq<SourceKey>) returns (n: nat, ok: bool)
      modifies this`rows
      ensures (rows, n, ok) == KeysCopied(source, |source|, old(rows))
    {
      n := 0;
      for i := 0 to |source|
        invariant n == i && (rows, n, true) == KeysCopied(source, i, old(rows))
      {
        var after := Upserted(rows, source[i].id, RowOf(source[i]));
        if after.None? {
          FailureStays(source, i + 1, |source|, old(rows));
          return n, false;
        }
        rows := after.value;
        n := n + 1;
      }
      ok := true;
    }

    method MigratePolicyBlobs(source: seq<SourceBlob>) returns (n: nat)
      modifies this`blobs
      ensures n == |source| && blobs == BlobsCopied(source, |source|, old(blobs))
    {
      n := 0;
      for i := 0 to |source|
        invariant n == i && blobs == BlobsCopied(source, i, old(blobs))
      {
        blobs := Newer(blobs, source[i].account, source[i].blob);
        n := n + 1;
      }
    }
  }

  lemma {:induction false} FailureStays(source: seq<SourceKey>, i: nat, n: nat, dst: map<string, Row>)
    requires i <= n <= |source| && !KeysCopied(source, i, dst).2
    ensures KeysCopied(source, n, dst) == KeysCopied(source, i, dst)
  {
    if i < n {
      FailureStays(source, i, n - 1, dst);
    }
  }

  // ---------- api_keys ----------

  /** PRIMARY KEY (id) in the source table. */
  ghost predicate DistinctIds(source: seq<SourceKey>) {
    forall i, j :: 0 <= i < j < |source| ==> source[i].id != source[j].id
  }

  /** The first `k` source rows stand in the destination as they are. */
  ghost predicate Stands(source: seq<SourceKey>, k: nat, d: map<string, Row>) {
    k <= |source| && forall i :: 0 <= i < k ==>
      source[i].id in d && d[source[i].id] == Row(source[i].owner, source[i].hash, source[i].origins)
  }

  lemma UpsertStands(source: seq<SourceKey>, k: nat, d: map<string, Row>, e: map<string, Row>)
    requires k < |source| && DistinctIds(source) && Stands(source, k, d) && Unique(d)
    requires Upserted(d, source[k].id, RowOf(source[k])) == Some(e)
    ensures Stands(source, k + 1, e) && Unique(e)
  {
    assert e == d[source[k].id := RowOf(source[k])];
    forall i | 0 <= i < k + 1
      ensures source[i].id in e && e[source[i].id] == RowOf(source[i])
    {
      assert i < k ==> source[i].id != source[k].id;
    }
  }

  /** After `n` rows, those counted stand, the hash column is unique, and a failure has its cause. */
  lemma {:induction false} CopiedStand(source: seq<SourceKey>, n: nat, dst: map<string, Row>)
    requires n <= |source| && DistinctIds(source) && Unique(dst)
    ensures var (d, k, ok) := KeysCopied(source, n, dst);
            && Stands(source, k, d) && Unique(d) && k <= n && (ok <==> k == n)
            && (!ok ==> HeldByOther(d, source[k].id, source[k].hash))
  {
    if n > 0 {
      hide Stands, Unique, DistinctIds;
      CopiedStand(source, n - 1, dst);
      var (d, k, ok) := KeysCopied(source, n - 1, dst);
      var up := Upserted(d, source[n - 1].id, RowOf(source[n - 1]));
      if ok && up.Some? {
        UpsertStands(source, k, d, up.value);
      }
    } else {
      assert Stands(source, 0, dst);
    }
  }

  /** Rows of the destination that the source does not name are left alone, and no others appear. */
  lemma {:induction false} OtherRowsUntouched(source: seq<SourceKey>, n: nat, dst: map<string, Row>, id: string)
    requires n <= |source| && forall i :: 0 <= i < n ==> source[i].id != id
    ensures var d := KeysCopied(source, n, dst).0;
            (id in d <==> id in dst) && (id in d ==> d[id] == dst[id])
  {
    if n > 0 {
      OtherRowsUntouched(source, n - 1, dst, id);
    }
  }

  /** A row that stands is upserted onto itself. */
  lemma StandingUpsert(d: map<string, Row>, k: SourceKey)
    requires Unique(d) && k.id in d && d[k.id] == RowOf(k)
    ensures Upserted(d, k.id, RowOf(k)) == Some(d)
  {
    assert d[k.id := RowOf(k)] == d;
  }

  lemma {:induction false} StandingRerun(source: seq<SourceKey>, n: nat, d: map<string, Row>, k: nat)
    requires n <= k && Stands(source, k, d) && Unique(d)
    ensures KeysCopied(source, n, d) == (d, n, true)
  {
    if n > 0 {
      StandingRerun(source, n - 1, d, k);
      StandingUpsert(d, source[n - 1]);
    }
  }

  /** Running the import again leaves the table as it is and reports the same count and outcome. */
  lemma KeyImportIsIdempotent(source: seq<SourceKey>, dst: map<string, Row>)
    requires DistinctIds(source) && Unique(dst)
    ensures var first := KeysCopied(source, |source|, dst);
            KeysCopied(source, |source|, first.0) == first
  {
    hide KeysCopied, Stands, Unique, DistinctIds, HeldByOther;
    var (d, k, ok) := KeysCopied(source, |source|, dst);
    CopiedStand(source, |source|, dst);
    assert k <= |source| by { CopiedWithin(source, |source|, dst); }
    StandingRerun(source, k, d, k);
    if !ok {
      FailsAgain(source, k, d);
      FailureStays(source, k + 1, |source|, d);
    }
  }

  /** After a complete import, reading the same rows in any order and any number of times changes nothing. */
  lemma CompleteImportIsStable(source: seq<SourceKey>, again: seq<SourceKey>, dst: map<string, Row>)
    requires DistinctIds(source) && Unique(dst) && KeysCopied(source, |source|, dst).2
    requires forall k :: k in again ==> k in source
    ensures var d := KeysCopied(source, |source|, dst).0;
            KeysCopied(again, |again|, d) == (d, |again|, true)
  {
    hide KeysCopied, Unique, DistinctIds;
    var d := KeysCopied(source, |source|, dst).0;
    CopiedStand(source, |source|, dst);
    forall i | 0 <= i < |again|
      ensures again[i].id in d && d[again[i].id] == RowOf(again[i])
    {
      assert again[i] in source;
    }
    StandingRerun(again, |again|, d, |again|);
  }

  lemma {:induction false} CopiedWithin(source: seq<SourceKey>, n: nat, dst: map<string, Row>)
    requires n <= |source|
    ensures var (_, k, ok) := KeysCopied(source, n, dst); k <= n && (!ok ==> k < n)
  {
    if n > 0 {
      CopiedWithin(source, n - 1, dst);
    }
  }

  lemma FailsAgain(source: seq<SourceKey>, k: nat, d: map<string, Row>)
    requires k < |source| && KeysCopied(source, k, d) == (d, k, true) && HeldByOther(d, source[k].id, source[k].hash)
    ensures KeysCopied(source, k + 1, d) == (d, k, false)
  {
  }

  /**
   * The import succeeds from an empty destination when the source's hashes are unique too, and then
   * the destination is the source table and nothing else.
   */
  lemma FreshImportCopiesAll(source: seq<SourceKey>)
    requires DistinctIds(source)
    requires forall i, j :: 0 <= i < j < |source| ==> source[i].hash != source[j].hash
    ensures var (d, k, ok) := KeysCopied(source, |source|, map[]);
            && ok && k == |source| && Stands(source, k, d)
            && forall id :: id in d ==> exists i :: 0 <= i < |source| && source[i].id == id
  {
    FreshImportSucceeds(source, |source|);
    CopiedStand(source, |source|, map[]);
    var d := KeysCopied(source, |source|, map[]).0;
    forall id | id in d
      ensures exists i :: 0 <= i < |source| && source[i].id == id
    {
      if forall i :: 0 <= i < |source| ==> source[i].id != id {
        OtherRowsUntouched(source, |source|, map[], id);
      }
    }
  }

  lemma {:induction false} FreshImportSucceeds(source: seq<SourceKey>, n: nat)
    requires n <= |source| && DistinctIds(source)
    requires forall i, j :: 0 <= i < j < |source| ==> source[i].hash != source[j].hash
    ensures KeysCopied(source, n, map[]).2
  {
    if n > 0 {
      FreshImportSucceeds(source, n - 1);
      var d := KeysCopied(source, n - 1, map[]).0;
      forall id | id in d && id != source[n - 1].id
        ensures d[id].hash != source[n - 1].hash
      {
        if forall i :: 0 <= i < n - 1 ==> source[i].id != id {
          OtherRowsUntouched(source, n - 1, map[], id);
        } else {
          CopiedStand(source, n - 1, map[]);
        }
      }
    }
  }

  /**
   * After a complete import the destination answers for every source row: a secret with its hash resolves
   * to its id, owner and origins, and each of its origins is allowed.
   */
  lemma ImportedKeyAnswers(source: seq<SourceKey>, dst: map<string, Row>, blobs: map<string, Blob>, i: nat, secret: string,
                           origin: string, sha: string -> string)
    requires DistinctIds(source) && Unique(dst) && KeysCopied(source, |source|, dst).2
    requires i < |source| && sha(secret) == source[i].hash
    ensures Unique(KeysCopied(source, |source|, dst).0)
    ensures var q := SqlState(KeysCopied(source, |source|, dst).0, blobs);
            && SqlDo(q, Resolve(secret), sha).1 == Key(APIKey(source[i].id, source[i].owner, source[i].origins))
            && (origin in source[i].origins ==> SqlDo(q, OriginAllowed(origin), sha).1 == Flag(true))
  {
    hide KeysCopied;
    CopiedStand(source, |source|, dst);
    var d := KeysCopied(source, |source|, dst).0;
    assert source[i].id in d && d[source[i].id].hash == sha(secret);
  }

  // ---------- policy_blobs ----------

  /** The blobs for an account, the destination's own first, then those of the first `n` source rows. */
  function BlobsFor(source: seq<SourceBlob>, n: nat, dst: map<string, Blob>, account: string): seq<Blob>
    requires n <= |source|
  {
    if n == 0 then (if account in dst then [dst[account]] else [])
    else BlobsFor(source, n - 1, dst, account) + if source[n - 1].account == account then [source[n - 1].blob] else []
  }

  /** An account ends with the first blob at the highest version among the destination's and the source's. */
  lemma {:induction false} BlobsEndNewest(source: seq<SourceBlob>, n: nat, dst: map<string, Blob>, account: string)
    requires n <= |source|
    ensures Lookup(BlobsCopied(source, n, dst), account) == Best(BlobsFor(source, n, dst, account))
  {
    hide Newer, Lookup, Best;
    if n == 0 {
      OwnBlob(dst, account);
    } else {
      BlobsEndNewest(source, n - 1, dst, account);
      var puts, b := BlobsFor(source, n - 1, dst, account), source[n - 1];
      if b.account == account {
        BestSnoc(puts, b.blob);
        NewerLookup(BlobsCopied(source, n - 1, dst), account, b.blob);
      } else {
        assert puts + [] == puts;
        OtherBlob(BlobsCopied(source, n - 1, dst), b.account, b.blob, account);
      }
    }
  }

  lemma OwnBlob(dst: map<string, Blob>, account: string)
    ensures Lookup(dst, account) == Best(if account in dst then [dst[account]] else [])
  {
    if account in dst {
      BestSnoc([], dst[account]);
      assert [] + [dst[account]] == [dst[account]];
    }
  }

  lemma OtherBlob(d: map<string, Blob>, to: string, blob: Blob, account: string)
    requires to != account
    ensures Lookup(Newer(d, to, blob), account) == Lookup(d, account)
  {
  }

  /** The import's promise for one account, without naming the fold. */
  lemma ImportedPolicy(source: seq<SourceBlob>, dst: map<string, Blob>, account: string) returns (i: nat)
    ensures var puts := BlobsFor(source, |source|, dst, account);
            if puts == [] then account !in BlobsCopied(source, |source|, dst)
            else IsFirstHighest(puts, i) && Lookup(BlobsCopied(source, |source|, dst), account) == Some(puts[i])
  {
    BlobsEndNewest(source, |source|, dst, account);
    i := 0;
    if BlobsFor(source, |source|, dst, account) != [] {
      i := BestIsFirstHighest(BlobsFor(source, |source|, dst, account));
    }
  }

  /** The destination holds every source blob's account at its version or a later one. */
  ghost predicate UpToDate(source: seq<SourceBlob>, n: nat, d: map<string, Blob>) {
    n <= |source| && forall i :: 0 <= i < n ==> source[i].account in d && source[i].blob.version <= d[source[i].account].version
  }

  lemma {:induction false} BlobsUpToDate(source: seq<SourceBlob>, n: nat, dst: map<string, Blob>)
    requires n <= |source|
    ensures UpToDate(source, n, BlobsCopied(source, n, dst))
    ensures forall a :: a in dst ==> a in BlobsCopied(source, n, dst) && dst[a].version <= BlobsCopied(source, n, dst)[a].version
  {
    if n > 0 {
      BlobsUpToDate(source, n - 1, dst);
    }
  }

  lemma {:induction false} UpToDateRerun(source: seq<SourceBlob>, n: nat, d: map<string, Blob>)
    requires UpToDate(source, |source|, d) && n <= |source|
    ensures BlobsCopied(source, n, d) == d
  {
    if n > 0 {
      UpToDateRerun(source, n - 1, d);
    }
  }

  /** A second import, reading the same rows in any order and any number of times, changes nothing. */
  lemma BlobImportIsIdempotent(source: seq<SourceBlob>, again: seq<SourceBlob>, dst: map<string, Blob>)
    requires forall b :: b in again ==> b in source
    ensures var d := BlobsCopied(source, |source|, dst);
            BlobsCopied(again, |again|, d) == d
  {
    var d := BlobsCopied(source, |source|, dst);
    BlobsUpToDate(source, |source|, dst);
    forall i | 0 <= i < |again|
      ensures again[i].account in d && again[i].blob.version <= d[again[i].account].version
    {
      assert again[i] in source;
    }
    UpToDateRerun(again, |again|, d);
  }
}
