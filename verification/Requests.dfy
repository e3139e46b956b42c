/** The request built for a caller: bound to the key it authenticated with. */
module Requests {
  import opened Wrappers
  import opened Store
  import opened Address
  import opened Amount
  import Bits

  datatype Body = Body(kind: string, destination: string, amountRaw: string, amount: string,
                       counterparty: string, memo: string, nonce: string, action: string)

  datatype TxRequest = TxRequest(id: string, contactID: string, account: string, counterparty: string, memo: string,
                                 nonce: string, destination: string, amountRaw: string, signOnly: bool)

  datatype BuildError = NotASend | BadDestination | BadAmount(e: ResolveError)

  /** `id` is the fresh request id. */
  function BuildTxRequest(key: APIKey, body: Body, id: string, blake: seq<Bits.byte> -> Digest5, limit: nat): Result<TxRequest, BuildError> {
    if body.kind != "send" then Err(NotASend)
    else if Parsed(body.destination, blake).Err? then Err(BadDestination)
    else
      match ResolveAmount(body.amountRaw, body.amount, limit)
      case Err(e) => Err(BadAmount(e))
      case Ok(amount) =>
        Ok(TxRequest(id, key.id, key.owner, body.counterparty, body.memo,
                     if body.nonce == "" then id else body.nonce, body.destination, amount, body.action == "sign_only"))
  }

  /** A destination is accepted exactly when it is a spelling of some key. */
  lemma DestinationIsSpelling(text: string, blake: seq<Bits.byte> -> Digest5)
    ensures Parsed(text, blake).Ok? <==> exists pk: Key :: IsSpelling(text, pk, blake)
  {
    hide Parsed, IsSpelling;
    if Parsed(text, blake).Ok? {
      Address.ParsesExactly(text, Parsed(text, blake).value, blake);
    }
    if pk: Key :| IsSpelling(text, pk, blake) {
      Address.ParsesExactly(text, pk, blake);
    }
  }

  /**
   * Whatever the caller sends, a secret's request goes to the account its key is bound to in the store
   * at that moment, to a destination that is a spelling of some key, for a literal's exact value. It is
   * built exactly when the kind is a send, the destination a spelling and the amount resolves, carries the
   * fresh id and the caller's counterparty, memo and nonce (the id where there is none), and is to be
   * signed only exactly when the caller says so.
   */
  lemma RequestFollowsTheKey(s: MemState, secret: string, sha: string -> string, body: Body, id: string,
                             blake: seq<Bits.byte> -> Digest5, limit: nat)
    requires MemInv(s) && sha(secret) in s.byHash
    ensures var answer := MemDo(s, Resolve(secret), sha).1;
            && answer.Key?
            && var built := BuildTxRequest(answer.key, body, id, blake, limit);
               && (built.Ok? <==> && body.kind == "send" && (exists pk: Key :: IsSpelling(body.destination, pk, blake))
                                  && ResolveAmount(body.amountRaw, body.amount, limit).Ok?)
               && (built.Ok? ==>
                     && built.value.contactID == s.byHash[sha(secret)]
                     && built.value.account == s.keys[s.byHash[sha(secret)]].owner
                     && built.value.destination == body.destination
                     && built.value.id == id && built.value.nonce == (if body.nonce == "" then id else body.nonce)
                     && built.value.counterparty == body.counterparty && built.value.memo == body.memo
                     && (built.value.signOnly <==> body.action == "sign_only")
                     && (body.amountRaw != "" ==> built.value.amountRaw == body.amountRaw)
                     && (body.amountRaw == "" ==>
                           exists l :: WellFormed(l) && Text(l) == body.amount &&
                             AllDigits(built.value.amountRaw) && IsRaw(l, Nat(built.value.amountRaw))))
  {
    hide Parsed, ParseNanoAmount, IsRaw, Nat, Bits.Power, IsSpelling;
    var key := MemDo(s, Resolve(secret), sha).1.key;
    var built := BuildTxRequest(key, body, id, blake, limit);
    DestinationIsSpelling(body.destination, blake);
    if built.Ok? && body.amountRaw == "" {
      OnlyLiteralsParse(body.amount, limit);
      var l :| WellFormed(l) && Text(l) == body.amount && Reachable(l, limit);
      ResolvesExactly(l, limit, built.value.amountRaw);
    }
  }

  /** What is wrong with a request that is not built: the kind, else the destination, else the amount. */
  lemma RefusalHasItsCause(key: APIKey, body: Body, id: string, blake: seq<Bits.byte> -> Digest5, limit: nat)
    ensures var built := BuildTxRequest(key, body, id, blake, limit);
            && (built == Err(NotASend) <==> body.kind != "send")
            && (built == Err(BadDestination) <==> body.kind == "send" && forall pk: Key :: !IsSpelling(body.destination, pk, blake))
            && (forall e :: built == Err(BadAmount(e)) ==> ResolveAmount(body.amountRaw, body.amount, limit) == Err(e))
  {
    hide Parsed, IsSpelling, ResolveAmount;
    DestinationIsSpelling(body.destination, blake);
  }

  /** After a rebind the same secret's requests go to the new account. */
  lemma RebindMovesRequests(s: MemState, secret: string, sha: string -> string, oldOwner: string, newOwner: string, body: Body,
                            id: string, blake: seq<Bits.byte> -> Digest5, limit: nat)
    requires MemInv(s) && sha(secret) in s.byHash && Owned(s, s.byHash[sha(secret)], oldOwner)
    ensures var t := MemDo(s, Rebind(s.byHash[sha(secret)], oldOwner, newOwner), sha).0;
            && MemInv(t)
            && var before := BuildTxRequest(MemDo(s, Resolve(secret), sha).1.key, body, id, blake, limit);
               var after := MemDo(t, Resolve(secret), sha).1;
               && after.Key?
               && BuildTxRequest(after.key, body, id, blake, limit) ==
                  match before case Ok(r) => Ok(r.(account := newOwner)) case Err(e) => Err(e)
  {
    hide Parsed, ResolveAmount;
    RebindKeepsSecret(s, s.byHash[sha(secret)], oldOwner, newOwner, sha, Resolve(secret));
  }
}
