/** The two stores as the program runs them: fields edited in place, each method one operation. */
module StoreClasses {
  import opened Wrappers
  import opened Store

  class MemStore {
    var keys: map<string, APIKey>
    var byHash: map<string, string>
    var policy: map<string, Blob>
    const sha: string -> string

    function State(): MemState
      reads this
    {
      MemState(keys, byHash, policy)
    }

    ghost predicate Valid()
      reads this
    {
      MemInv(State())
    }

    constructor (sha: string -> string)
      ensures Valid() && State() == EMPTY_MEM && this.sha == sha
    {
      keys, byHash, policy := map[], map[], map[];
      this.sha := sha;
    }

    /** The loop that deletes every hash pointing at `id`. */
    method DeleteHashes(id: string)
      modifies this`byHash
      ensures byHash == DropHashes(old(byHash), id)
    {
      var todo := byHash.Keys;
      while todo != {}
        invariant todo <= byHash.Keys <= old(byHash.Keys)
        invariant forall h :: h in byHash ==> byHash[h] == old(byHash)[h]
        invariant forall h :: h in old(byHash) && h !in todo ==> (h in byHash <==> old(byHash)[h] != id)
      {
        var h :| h in todo;
        todo := todo - {h};
        if byHash[h] == id {
          byHash := byHash - {h};
        }
      }
    }

    method RegisterAPIKey(keyID: string, owner: string, hash: string)
      requires Valid()
      modifies this`keys, this`byHash
      ensures Valid() && (State(), Done) == MemDo(old(State()), Register(keyID, owner, hash), sha)
    {
      MemDoKeeps(State(), Register(keyID, owner, hash), sha);
      DeleteHashes(keyID);
      var k := if keyID in keys then keys[keyID] else APIKey("", "", []);
      k := k.(id := keyID, owner := owner);
      keys := keys[keyID := k];
      byHash := byHash[hash := keyID];
    }

    method RebindAPIKey(keyID: string, oldAccount: string, newAccount: string) returns (ok: bool)
      requires Valid()
      modifies this`keys
      ensures Valid()
      ensures (State(), if ok then Done else Failed(NotFound)) == MemDo(old(State()), Rebind(keyID, oldAccount, newAccount), sha)
    {
      MemDoKeeps(State(), Rebind(keyID, oldAccount, newAccount), sha);
      if keyID !in keys || keys[keyID].owner != oldAccount {
        return false;
      }
      keys := keys[keyID := keys[keyID].(owner := newAccount)];
      return true;
    }

    method UpdateKeyOrigins(keyID: string, owner: string, origins: seq<string>) returns (ok: bool)
      requires Valid()
      modifies this`keys
      ensures Valid()
      ensures (State(), if ok then Done else Failed(NotFound)) == MemDo(old(State()), UpdateOrigins(keyID, owner, origins), sha)
    {
      MemDoKeeps(State(), UpdateOrigins(keyID, owner, origins), sha);
      if keyID !in keys || keys[keyID].owner != owner {
        return false;
      }
      keys := keys[keyID := keys[keyID].(origins := origins)];
      return true;
    }

    method RevokeAPIKey(owner: string, id: string) returns (ok: bool)
      requires Valid()
      modifies this`keys, this`byHash
      ensures Valid()
      ensures (State(), if ok then Done else Failed(NotFound)) == MemDo(old(State()), Revoke(owner, id), sha)
    {
      MemDoKeeps(State(), Revoke(owner, id), sha);
      if id !in keys || keys[id].owner != owner {
        return false;
      }
      keys := keys - {id};
      DeleteHashes(id);
      return true;
    }

    method ResolveAPIKey(plaintext: string) returns (r: Result<APIKey, StoreError>)
      requires Valid()
      ensures MemDo(State(), Resolve(plaintext), sha).1 == match r case Ok(k) => Key(k) case Err(e) => Failed(e)
    {
      var h := sha(plaintext);
      if h !in byHash {
        return Err(NotFound);
      }
      return Ok(keys[byHash[h]]);
    }

    method AnyOriginAllowed(origin: string) returns (allowed: bool)
      requires Valid()
      ensures MemDo(State(), OriginAllowed(origin), sha).1 == Flag(allowed)
    {
      var todo := keys.Keys;
      while todo != {}
        invariant todo <= keys.Keys
        invariant forall id :: id in keys && id !in todo ==> origin !in keys[id].origins
      {
        var id :| id in todo;
        todo := todo - {id};
        var origins := keys[id].origins;
        for i := 0 to |origins|
          invariant origin !in origins[..i]
        {
          if origins[i] == origin {
            return true;
          }
        }
      }
      return false;
    }

    method StorePolicy(account: string, blob: Blob)
      requires Valid()
      modifies this`policy
      ensures Valid() && (State(), Done) == MemDo(old(State()), PutPolicy(account, blob), sha)
    {
      if account in policy && blob.version <= policy[account].version {
        return;
      }
      policy := policy[account := blob];
    }

    method LoadPolicy(account: string) returns (found: Option<Blob>)
      requires Valid()
      ensures MemDo(State(), GetPolicy(account), sha).1 == Policy(found)
    {
      if account !in policy {
        return None;
      }
      return Some(policy[account]);
    }
  }

  class SqliteStore {
    var rows: map<string, Row>
    var blobs: map<string, Blob>
    const sha: string -> string

    function State(): SqlState
      reads this
    {
      SqlState(rows, blobs)
    }

    ghost predicate Valid()
      reads this
    {
      Unique(rows)
    }

    constructor (sha: string -> string)
      ensures Valid() && State() == EMPTY_SQL && this.sha == sha
    {
      rows, blobs := map[], map[];
      this.sha := sha;
    }

    method RegisterAPIKey(keyID: string, owner: string, hash: string) returns (ok: bool)
      requires Valid()
      modifies this`rows
      ensures Valid()
      ensures (State(), if ok then Done else Failed(UniqueViolation)) == SqlDo(old(State()), Register(keyID, owner, hash), sha)
    {
      var row := if keyID in rows then rows[keyID].(owner := owner, hash := hash) else Row(owner, hash, []);
      var after := Upserted(rows, keyID, row);
      if after.None? {
        return false;
      }
      rows := after.value;
      return true;
    }

    /** UPDATE ... WHERE id = ? AND owner_account = ?; no row affected means not found. */
    method RebindAPIKey(keyID: string, oldAccount: string, newAccount: string) returns (ok: bool)
      requires Valid()
      modifies this`rows
      ensures Valid()
      ensures (State(), if ok then Done else Failed(NotFound)) == SqlDo(old(State()), Rebind(keyID, oldAccount, newAccount), sha)
    {
      var affected := set id | id in rows && id == keyID && rows[id].owner == oldAccount;
      assert keyID in affected <==> Matches(State(), keyID, oldAccount);
      if affected == {} {
        return false;
      }
      rows := rows[keyID := rows[keyID].(owner := newAccount)];
      return true;
    }

    method UpdateKeyOrigins(keyID: string, owner: string, origins: seq<string>) returns (ok: bool)
      requires Valid()
      modifies this`rows
      ensures Valid()
      ensures (State(), if ok then Done else Failed(NotFound)) == SqlDo(old(State()), UpdateOrigins(keyID, owner, origins), sha)
    {
      var affected := set id | id in rows && id == keyID && rows[id].owner == owner;
      assert keyID in affected <==> Matches(State(), keyID, owner);
      if affected == {} {
        return false;
      }
      rows := rows[keyID := rows[keyID].(origins := origins)];
      return true;
    }

    method RevokeAPIKey(owner: string, id: string) returns (ok: bool)
      requires Valid()
      modifies this`rows
      ensures Valid()
      ensures (State(), if ok then Done else Failed(NotFound)) == SqlDo(old(State()), Revoke(owner, id), sha)
    {
      var affected := set i | i in rows && i == id && rows[i].owner == owner;
      assert id in affected <==> Matches(State(), id, owner);
      if affected == {} {
        return false;
      }
      rows := rows - {id};
      return true;
    }

    method ResolveAPIKey(plaintext: string) returns (r: Result<APIKey, StoreError>)
      requires Valid()
      ensures SqlDo(State(), Resolve(plaintext), sha).1 == match r case Ok(k) => Key(k) case Err(e) => Failed(e)
    {
      var found := RowWith(rows, sha(plaintext));
      if found.None? {
        return Err(NotFound);
      }
      var row := rows[found.value];
      return Ok(APIKey(found.value, row.owner, row.origins));
    }

    /** Scans the rows whose list is not empty. */
    method AnyOriginAllowed(origin: string) returns (allowed: bool)
      requires Valid()
      ensures SqlDo(State(), OriginAllowed(origin), sha).1 == Flag(allowed)
    {
      var todo := set id | id in rows && rows[id].origins != [];
      while todo != {}
        invariant todo <= rows.Keys
        invariant forall id :: id in rows && id !in todo ==> origin !in rows[id].origins
      {
        var id :| id in todo;
        todo := todo - {id};
        var origins := rows[id].origins;
        for i := 0 to |origins|
          invariant origin !in origins[..i]
        {
          if origins[i] == origin {
            return true;
          }
        }
      }
      return false;
    }

    method StorePolicy(account: string, blob: Blob)
      requires Valid()
      modifies this`blobs
      ensures Valid() && (State(), Done) == SqlDo(old(State()), PutPolicy(account, blob), sha)
    {
      if account !in blobs {
        blobs := blobs[account := blob];
      } else if blob.version > blobs[account].version {
        blobs := blobs[account := blob];
      }
    }

    method LoadPolicy(account: string) returns (found: Option<Blob>)
      requires Valid()
      ensures SqlDo(State(), GetPolicy(account), sha).1 == Policy(found)
    {
      if account !in blobs {
        return None;
      }
      return Some(blobs[account]);
    }
  }
}
