/**
 * The account index of the hub: which live connections serve which account.
 *
 * The functions here specify the methods of class Hub; the theorems compare the index, which
 * bind and unbind edit account by account, with one list of live connections in order of arrival.
 */
module Bindings {
  import opened Sequences
  import opened Wrappers

  type Account = string

  /** A connection's identity is its serial number: two connections of one device differ. */
  datatype AgentConn = AgentConn(serial: nat, deviceID: string, accounts: seq<Account>)

  type Index = map<Account, seq<AgentConn>>

  /** The list kept for an account; a missing entry reads as an empty list. */
  function Get(idx: Index, acc: Account): seq<AgentConn> {
    if acc in idx then idx[acc] else []
  }

  function Entry(idx: Index, acc: Account): Option<seq<AgentConn>> {
    if acc in idx then Some(idx[acc]) else None
  }

  function NonEmpty(list: seq<AgentConn>): Option<seq<AgentConn>> {
    if list == [] then None else Some(list)
  }

  /** What is left of `list` when `c` is taken out. */
  function Without(list: seq<AgentConn>, c: AgentConn): seq<AgentConn> {
    if list == [] then []
    else
      var n := |list| - 1;
      Without(list[..n], c) + if list[n] == c then [] else [list[n]]
  }

  ghost predicate Distinct(list: seq<AgentConn>) {
    forall i, j :: 0 <= i < j < |list| ==> list[i] != list[j]
  }

  /** The body of the loop of `bind`. */
  function BindOne(idx: Index, a: AgentConn, acc: Account): Index {
    idx[acc := Without(Get(idx, acc), a) + [a]]
  }

  /** The index after `bind` has handled the first `n` accounts of `a`. */
  function BindUpTo(idx: Index, a: AgentConn, n: nat): Index
    requires n <= |a.accounts|
  {
    if n == 0 then idx else BindOne(BindUpTo(idx, a, n - 1), a, a.accounts[n - 1])
  }

  function Bound(idx: Index, a: AgentConn): Index {
    BindUpTo(idx, a, |a.accounts|)
  }

  /** The body of the loop of `unbind`. */
  function UnbindOne(idx: Index, a: AgentConn, acc: Account): Index {
    var rest := Without(Get(idx, acc), a);
    if rest == [] then idx - {acc} else idx[acc := rest]
  }

  /** The index after `unbind` has handled the first `n` accounts of `a`. */
  function UnbindUpTo(idx: Index, a: AgentConn, n: nat): Index
    requires n <= |a.accounts|
  {
    if n == 0 then idx else UnbindOne(UnbindUpTo(idx, a, n - 1), a, a.accounts[n - 1])
  }

  function Unbound(idx: Index, a: AgentConn): Index {
    UnbindUpTo(idx, a, |a.accounts|)
  }

  /** The entry from its newest connection to its oldest. */
  function DevicesFor(idx: Index, acc: Account): seq<AgentConn> {
    Reverse(Get(idx, acc))
  }

  // ---------- the reference: one list of live connections ----------

  /** The members of `live` that proved `acc`, in order. */
  function Serving(live: seq<AgentConn>, acc: Account): seq<AgentConn> {
    if live == [] then []
    else
      var n := |live| - 1;
      Serving(live[..n], acc) + if acc in live[n].accounts then [live[n]] else []
  }

  /** Every entry is the live list filtered to its account, and no entry is empty. */
  ghost predicate Agrees(idx: Index, live: seq<AgentConn>) {
    forall acc :: Entry(idx, acc) == NonEmpty(Serving(live, acc))
  }

  lemma {:induction false} WithoutMembers(list: seq<AgentConn>, c: AgentConn)
    ensures forall x :: x in Without(list, c) <==> x in list && x != c
    ensures c !in list ==> Without(list, c) == list
  {
    if list != [] {
      var n := |list| - 1;
      WithoutMembers(list[..n], c);
      assert list == list[..n] + [list[n]];
    }
  }

  lemma {:induction false} ServingMembers(live: seq<AgentConn>, acc: Account)
    ensures forall x :: x in Serving(live, acc) <==> x in live && acc in x.accounts
  {
    if live != [] {
      var n := |live| - 1;
      ServingMembers(live[..n], acc);
      assert live == live[..n] + [live[n]];
    }
  }

  lemma ServingSnoc(live: seq<AgentConn>, a: AgentConn, acc: Account)
    ensures Serving(live + [a], acc) == Serving(live, acc) + if acc in a.accounts then [a] else []
  {
    assert (live + [a])[..|live|] == live;
  }

  lemma WithoutSnoc(list: seq<AgentConn>, x: AgentConn, c: AgentConn)
    ensures Without(list + [x], c) == Without(list, c) + if x == c then [] else [x]
  {
    assert (list + [x])[..|list|] == list;
  }

  lemma {:induction false} ServingWithout(live: seq<AgentConn>, a: AgentConn, acc: Account)
    ensures Serving(Without(live, a), acc) == Without(Serving(live, acc), a)
  {
    if live != [] {
      var n := |live| - 1;
      var x := live[n];
      ServingWithout(live[..n], a, acc);
      ServingSnoc(Without(live[..n], a), x, acc);
      WithoutSnoc(Serving(live[..n], acc), x, a);
      if x == a {
        assert Without(live, a) == Without(live[..n], a);
      }
      if acc !in x.accounts {
        assert Serving(live, acc) == Serving(live[..n], acc);
      }
    }
  }

  lemma {:induction false} ServingDistinct(live: seq<AgentConn>, acc: Account)
    requires Distinct(live)
    ensures Distinct(Serving(live, acc))
  {
    if live != [] {
      var n := |live| - 1;
      ServingDistinct(live[..n], acc);
      ServingMembers(live[..n], acc);
    }
  }

  lemma {:induction false} WithoutDistinct(list: seq<AgentConn>, a: AgentConn)
    requires Distinct(list)
    ensures Distinct(Without(list, a))
  {
    if list != [] {
      var n := |list| - 1;
      WithoutDistinct(list[..n], a);
      WithoutMembers(list[..n], a);
      assert list[n] !in list[..n];
    }
  }

  lemma WithoutTwice(list: seq<AgentConn>, a: AgentConn)
    ensures Without(Without(list, a) + [a], a) == Without(list, a)
    ensures Without(Without(list, a), a) == Without(list, a)
  {
    WithoutMembers(list, a);
    WithoutMembers(Without(list, a), a);
    WithoutSnoc(Without(list, a), a, a);
  }

  lemma PrefixMember(accounts: seq<Account>, n: nat, acc: Account)
    requires 0 < n <= |accounts|
    ensures acc in accounts[..n] <==> acc in accounts[..n - 1] || acc == accounts[n - 1]
  {
    assert accounts[..n] == accounts[..n - 1] + [accounts[n - 1]];
  }

  /** A repeated account changes nothing: the loop is idempotent per account. */
  lemma {:induction false} BindUpToEntry(idx: Index, a: AgentConn, n: nat, acc: Account)
    requires n <= |a.accounts|
    ensures Entry(BindUpTo(idx, a, n), acc) ==
            if acc in a.accounts[..n] then Some(Without(Get(idx, acc), a) + [a]) else Entry(idx, acc)
  {
    hide Without;
    if n > 0 {
      BindUpToEntry(idx, a, n - 1, acc);
      PrefixMember(a.accounts, n, acc);
      WithoutTwice(Get(idx, acc), a);
    }
  }

  lemma {:induction false} UnbindUpToEntry(idx: Index, a: AgentConn, n: nat, acc: Account)
    requires n <= |a.accounts|
    ensures Entry(UnbindUpTo(idx, a, n), acc) ==
            if acc in a.accounts[..n] then NonEmpty(Without(Get(idx, acc), a)) else Entry(idx, acc)
  {
    hide Without;
    if n > 0 {
      UnbindUpToEntry(idx, a, n - 1, acc);
      PrefixMember(a.accounts, n, acc);
      WithoutTwice(Get(idx, acc), a);
    }
  }

  lemma BindAgrees(idx: Index, live: seq<AgentConn>, a: AgentConn)
    requires Agrees(idx, live) && Distinct(live)
    ensures Agrees(Bound(idx, a), Without(live, a) + [a])
    ensures Distinct(Without(live, a) + [a])
  {
    hide Without, Serving, BindUpTo;
    WithoutDistinct(live, a);
    WithoutMembers(live, a);
    var rest := Without(live, a);
    assert forall i :: 0 <= i < |rest| ==> rest[i] in rest && rest[i] != a;
    forall acc
      ensures Entry(Bound(idx, a), acc) == NonEmpty(Serving(rest + [a], acc))
    {
      BoundEntry(idx, live, a, acc);
    }
  }

  lemma BoundEntry(idx: Index, live: seq<AgentConn>, a: AgentConn, acc: Account)
    requires Entry(idx, acc) == NonEmpty(Serving(live, acc))
    ensures Entry(Bound(idx, a), acc) == NonEmpty(Serving(Without(live, a) + [a], acc))
  {
    hide Without, Serving, BindUpTo;
    assert a.accounts[..|a.accounts|] == a.accounts;
    BindUpToEntry(idx, a, |a.accounts|, acc);
    ServingSnoc(Without(live, a), a, acc);
    ServingWithout(live, a, acc);
    if acc in a.accounts {
      assert |Serving(Without(live, a) + [a], acc)| > 0;
    } else {
      ServingMembers(live, acc);
      WithoutMembers(Serving(live, acc), a);
      assert Serving(Without(live, a) + [a], acc) == Serving(live, acc);
    }
  }

  lemma UnbindAgrees(idx: Index, live: seq<AgentConn>, a: AgentConn)
    requires Agrees(idx, live) && Distinct(live)
    ensures Agrees(Unbound(idx, a), Without(live, a))
    ensures Distinct(Without(live, a))
  {
    hide Without, Serving, BindUpTo, UnbindUpTo;
    WithoutDistinct(live, a);
    WithoutMembers(live, a);
    forall acc
      ensures Entry(Unbound(idx, a), acc) == NonEmpty(Serving(Without(live, a), acc))
    {
      assert a.accounts[..|a.accounts|] == a.accounts;
      assert Entry(idx, acc) == NonEmpty(Serving(live, acc));
      UnbindUpToEntry(idx, a, |a.accounts|, acc);
      ServingWithout(live, a, acc);
      if acc !in a.accounts {
        ServingMembers(live, acc);
        WithoutMembers(Serving(live, acc), a);
      }
    }
  }

  // ---------- whole runs ----------

  datatype Change = Join(a: AgentConn) | Leave(a: AgentConn)

  function IndexAfter(changes: seq<Change>): Index {
    if changes == [] then map[]
    else
      var n := |changes| - 1;
      match changes[n]
      case Join(a) => Bound(IndexAfter(changes[..n]), a)
      case Leave(a) => Unbound(IndexAfter(changes[..n]), a)
  }

  function LiveAfter(changes: seq<Change>): seq<AgentConn> {
    if changes == [] then []
    else
      var n := |changes| - 1;
      match changes[n]
      case Join(a) => Without(LiveAfter(changes[..n]), a) + [a]
      case Leave(a) => Without(LiveAfter(changes[..n]), a)
  }

  lemma {:induction false} IndexFollowsLive(changes: seq<Change>)
    ensures Agrees(IndexAfter(changes), LiveAfter(changes))
    ensures Distinct(LiveAfter(changes))
  {
    if changes != [] {
      var n := |changes| - 1;
      IndexFollowsLive(changes[..n]);
      match changes[n]
      case Join(a) => BindAgrees(IndexAfter(changes[..n]), LiveAfter(changes[..n]), a);
      case Leave(a) => UnbindAgrees(IndexAfter(changes[..n]), LiveAfter(changes[..n]), a);
    }
  }

  /**
   * After any run of binds and unbinds, in any order and with repeated accounts: the devices of an
   * account are exactly the live connections that proved it, newest first, each once; and the
   * account is online exactly when some live connection proved it.
   */
  lemma RoutingIsExact(changes: seq<Change>, acc: Account)
    ensures var devices := DevicesFor(IndexAfter(changes), acc);
            && devices == Reverse(Serving(LiveAfter(changes), acc))
            && Distinct(devices)
            && (forall c :: c in devices <==> c in LiveAfter(changes) && acc in c.accounts)
    ensures |Get(IndexAfter(changes), acc)| > 0 <==>
            exists c :: c in LiveAfter(changes) && acc in c.accounts
    ensures acc in IndexAfter(changes) ==> IndexAfter(changes)[acc] != []
  {
    IndexFollowsLive(changes);
    DevicesExact(IndexAfter(changes), LiveAfter(changes), acc);
    ServingMembers(LiveAfter(changes), acc);
    assert Entry(IndexAfter(changes), acc) == NonEmpty(Serving(LiveAfter(changes), acc));
    var served := Serving(LiveAfter(changes), acc);
    if served != [] {
      assert served[0] in LiveAfter(changes) && acc in served[0].accounts;
    }
  }

  lemma DevicesExact(idx: Index, live: seq<AgentConn>, acc: Account)
    requires Agrees(idx, live) && Distinct(live)
    ensures DevicesFor(idx, acc) == Reverse(Serving(live, acc))
    ensures Distinct(DevicesFor(idx, acc))
    ensures forall c :: c in DevicesFor(idx, acc) <==> c in live && acc in c.accounts
  {
    hide Serving;
    ServingDistinct(live, acc);
    ServingMembers(live, acc);
    assert Entry(idx, acc) == NonEmpty(Serving(live, acc));
    var served := Serving(live, acc);
    var devices := Reverse(served);
    forall c
      ensures c in devices <==> c in served
    {
      if c in served {
        var i :| 0 <= i < |served| && served[i] == c;
        assert devices[|served| - 1 - i] == c;
      }
    }
  }
}
