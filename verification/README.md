# nora-relay: a verified model

nora-relay is a hub between callers that hold API keys and the devices that hold Nano accounts. A
device proves control of its accounts over a WebSocket, callers ask for payments over HTTP, the hub
fans each request out to the account's devices, and the first answer wins. This project models the
parts of the relay whose behaviour spans several functions, or all interleavings of them, and proves
what they guarantee. `dafny verify dfyconfig.toml` checks it.

| files | what they model |
|---|---|
| `Bindings.dfy` | the account index, against one list of live connections |
| `Routing.dfy`, `RoutingInvariant.dfy`, `RoutingTheorems.dfy`, `RoutingCalls.dfy`, `RoutingDrain.dfy` | calls, connections and deliveries as a state machine, one action per critical section; its invariant; what every run guarantees; the story of one call; why the tables empty |
| `Hub.dfy` | class `Hub` with its maps and loops, proved against the functions the state machine uses |
| `Bits.dfy`, `Base32.dfy`, `Address.dfy` | bit strings, the two base32 loops, the address printer and parser |
| `TokenBucket.dfy`, `RateLimiter.dfy` | one bucket and its closed form; the map of buckets, with pruning |
| `RatePruning.dfy`, `RateSteps.dfy` | exactly when pruning is invisible; the same with lookups, decisions and prunes interleaved |
| `Group.dfy`, `Ed25519.dfy`, `Enroll.dfy` | an abstract group with a base point of order L; signing and verifying; enrollment |
| `Store.dfy`, `StoreClasses.dfy`, `Migrate.dfy` | the two stores as functions and as classes, the importer |
| `Control.dfy`, `ControlSteps.dfy`, `ControlTheorems.dfy`, `ControlSearch.dfy` | a control frame handled alone; frames handled side by side, one store operation at a time; what every interleaving guarantees; for which connections the search for an owner cannot miss |
| `Amount.dfy`, `Requests.dfy` | exact amounts; the request built for a caller |
| `Sequences.dfy`, `Wrappers.dfy` | reversal; options and results |

How the parts join: `Enroll` feeds `Routing` (a question reaches only a device that signed for the
account), `Control` runs over either store of `Store`, `Migrate` writes the rows of `Store`, and
`Requests` resolves a secret in `Store` and uses the parsers of `Address` and `Amount`.

## Reading the model

- **Hub.** `Connect`, `Disconnect`, `Begin`, `Advance`, `Lookup` and `Deliver` are single actions; a run
  is any enabled sequence of them. `Advance(c, ok)` is the next critical section of call `c`: a
  snapshot, a registration, one write, a receive or a timeout, a removal. A delivery is two actions,
  the table lookup and the non-blocking send, so one can fire after its call has cleaned up. A
  connection has one reader, hence one delivery under way. Request and query ids are fresh; that is
  an assumption, made by `Begin`. `Lookup` carries any reply of any connection, as the hub does not
  look at who sent a result. The deferred cleanup of a call runs on each of its exits.
- **Control frames.** `Control.Handle` is the handler's one sequential pass over any store. In the server
  the frames of different connections are handled side by side, and only a single store operation is
  atomic; `ControlSteps` models that, `AloneIsHandle` says that a frame with nobody in between is the
  sequential pass, and `ControlTheorems` is about every interleaving.
- **Rate limiter.** `RateLimit` takes a call as one step. `RateSteps` splits it into the lookup in the map
  and the decision, with other callers and prunes in between; `RateSteps.Embeds` says that the first is
  part of the second.
- **Classes.** `HubState.Hub`, `RateLimit.RateLimiter`, `StoreClasses.MemStore`,
  `StoreClasses.SqliteStore` and `Migrate.Destination` hold the fields the program edits in place. Each
  method is proved equal to a function, and the theorems are about that function.
- **Parameters.** BLAKE2b and SHA-256 are arbitrary functions with the right output lengths. The curve
  is any structure that satisfies `Group.Lawful`: an abelian group, encodings that decode, and a base
  point of order L. `Group.LawsCanBeMet` exhibits one. Scalar multiplication is defined by recursion
  and its laws are proved. The steps of `Ed25519` are those of sections 5.1.5 to 5.1.7 of RFC 8032
  with the hash replaced.
- **Numbers.** Tokens and times are reals. An amount's `limit` is the largest power of ten the rational
  library agrees to scale by.

## Where code and comments differ

- `cmd/relay/hub.go:125` says the withdraw goes to the devices that did not answer. The code sends it
  to every device bound when the withdraw looks them up, the one that answered included, and so does
  the model; `RoutingTheorems.AnswererIsWithdrawnToo` is such a run.
- `cmd/relay/store.go:101-104` says re-registering mirrors the SQLite store. It does not when the new
  hash already belongs to another key: memory moves the hash, SQLite refuses the statement.
  `Store.StoresAgree` and `ControlTheorems.RepliesAgree` prove this is the only difference.
- `cmd/relay/http.go:280-283` says the search for the old owner is the authorisation check. It is: no
  search succeeds without one. But the search takes one operation per account, and if another device
  moves the key meanwhile it can pass the owner by and report "key not found" of a key that one of the
  connection's accounts owned throughout. `ControlSearch.NeverMissesExactly` says for which connections it
  cannot: those that proved no two different accounts. `ControlTheorems.SearchCanMiss` is a run in which
  it does.
- `cmd/relay/ratelimit.go:33-34` says pruning removes idle entries to keep the map bounded. Removing an
  entry that a caller has looked up and not yet decided with gives the key a second bucket;
  `RateSteps.AlwaysInvisibleExactly` says no time to live avoids that.
- `internal/nano/sign.go:42` says non-canonical encodings are rejected. That is proved for the scalar;
  nothing is claimed for the encodings of points.
- A connection is bound before its welcome is written (`cmd/relay/http.go:127-132`), so a request may
  reach a device before the welcome does. No order between the two is claimed.

## Model

| member | source | states |
|---|---|---|
| Bindings.BindUpToEntry | cmd/relay/hub.go:61-68 | Binding moves the connection to the end of the list of each account it proved, repeats in its list notwithstanding, and leaves every other account's entry as it was |
| Bindings.UnbindUpToEntry | cmd/relay/hub.go:71-83 | Unbinding removes the connection from each account it proved, deletes an entry that becomes empty, and touches no other |
| Bindings.IndexFollowsLive | cmd/relay/hub.go:59-83 | After any run of binds and unbinds each entry is the list of live connections, in order of arrival, filtered to the account, and no entry is empty |
| Bindings.RoutingIsExact | cmd/relay/hub.go:61-101 | After any such run an account's devices are exactly the live connections that proved it, newest first, each once; the account is online exactly if there is one |
| RoutingInvariant.EveryRunKeeps | cmd/relay/hub.go:59-229 | Every reachable state has an index that agrees with the live connections, tables that hold exactly the registered calls, deliveries that carry their call's id, one-slot channels whose content is the first send, and per-device logs that hold exactly the accepted messages of each call |
| RoutingTheorems.HistoryOfSends | cmd/relay/hub.go:166-176 | The sends recorded on a call's channel are, in order, the deliveries of the run that found its slot empty |
| RoutingTheorems.FirstResultWins | cmd/relay/hub.go:111-176 | In every interleaving a call that returns a result returns the first reply ever sent on its channel, and every reply that ever reached the channel carries the call's id, stale two-step deliveries included |
| RoutingTheorems.OutcomeIsFinal | cmd/relay/hub.go:139-176 | No later action, a late delivery included, changes what a finished call returned |
| RoutingTheorems.NoAnswerBeforeItsWaiter | cmd/relay/hub.go:117-134 | Whenever a device has been sent a request or a query, that id belongs to a call whose waiter is in its table unless the call has begun cleanup, and the device proved the call's account |
| RoutingTheorems.PromptAnswerArrives | cmd/relay/hub.go:166-229 | An answer to a registered call, looked up and sent at once, is never lost: the channel then has, or has had, a reply, and it is this one if it was the first |
| RoutingTheorems.MessagesAboutACall | cmd/relay/hub.go:111-217 | At every moment a device has been sent about a call's id exactly the question, if it accepted it, then the withdraw, if it accepted that, each once; a query asks at most one device and withdraws nothing; a call ends offline exactly if nobody accepted |
| RoutingTheorems.RecallIsASnapshot | cmd/relay/hub.go:148-152 | The devices of a withdraw are those bound at one moment of the run, after the waiter has left the table |
| RoutingTheorems.WithdrawIsTried | cmd/relay/hub.go:148-153 | Each device of that snapshot is offered the withdraw at its own step, and counts as told exactly if it accepted |
| RoutingTheorems.WithdrawFollowsRequest | cmd/relay/hub.go:111-153 | When a sendRequest call has finished, each device that was written the request and was still bound at the withdraw snapshot was offered the withdraw; if it accepted, request then withdraw stand in its message order; if it did not, or was no longer bound, it never got one |
| RoutingTheorems.AnswererIsWithdrawnToo | cmd/relay/hub.go:121-153 | For every device, account, id and answer there is a run in which the device answers, its answer is returned, and it is sent the withdraw all the same |
| RoutingTheorems.PendingIsExact | cmd/relay/hub.go:117-126 | In every reachable state an id is in pending, or queryPending, exactly if a call of that kind with that id is between registration and cleanup |
| RoutingTheorems.RoutingFollowsConnections | cmd/relay/hub.go:92-101 | In every reachable state a snapshot returns exactly the live connections of the account, newest first, without duplicates |
| RoutingCalls.NothingElseHoldsBack | cmd/relay/hub.go:111-229 | In every reachable state any call that is not done can move, a delivery under way can fire whatever became of its call, any live connection can hand in any reply of either kind, and any call with a fresh id can begin |
| RoutingCalls.LiveFollowsChanges | cmd/relay/hub.go:59-83 | In every run the live connections and the index are exactly those that the run's connections and disconnections leave |
| RoutingCalls.CallsAreAsBegun | cmd/relay/hub.go:111-189 | The calls of a state are those begun, in order, each with the kind, account and id it was begun with, for good |
| RoutingCalls.NoteIsWritten | cmd/relay/http.go:127-132 | A welcome or control frame is written to its connection after everything written before |
| RoutingCalls.ReceivedIsReturned | cmd/relay/hub.go:139-145 | A request or query that receives returns, at once and for good, the first reply ever sent on its channel |
| RoutingCalls.OutcomeStays | cmd/relay/hub.go:121-145 | An outcome once reached is kept through cleanup and whatever follows |
| RoutingCalls.OutcomeHasItsCause | cmd/relay/hub.go:207-216 | Of either kind, a call ends by a reply exactly if it left its wait by receiving, and expired exactly if it left its wait by its deadline |
| RoutingCalls.FoundIsASnapshot | cmd/relay/hub.go:112-115 | The devices a call asks are those of one moment of the run: exactly the live connections of its account, newest first |
| RoutingCalls.WriteIsTried | cmd/relay/hub.go:130-134 | Each device found is offered the question at its own step, a query only up to the first that accepts, and counts as asked exactly if it accepted |
| RoutingCalls.RequestReachesEveryDevice | cmd/relay/hub.go:111-137 | A request is offered to every device that was live and had proven the account when it looked; each has it in its message order exactly if it accepted, and no other device has it |
| RoutingCalls.QueryAsksInTurn | cmd/relay/hub.go:182-209 | A query is offered to the devices found, newest first, until one accepts: those before refused, that one has it, no other does; if all refused the query ends offline |
| RoutingDrain.QuietRunIsBounded | cmd/relay/hub.go:111-153 | Once no calls and connections arrive, the number of call steps any continuation can take is bounded by a measure of the state reached, whatever is delivered or disconnected meanwhile |
| RoutingDrain.RestMeansEmpty | cmd/relay/hub.go:121-126 | When no call can time out or move any more, both tables are empty |
| RoutingDrain.TablesDrain | cmd/relay/hub.go:111-217 | From every reachable state, call steps alone, no more of them than the bound, reach a state with both tables empty |
| HubState.RemoveConn | cmd/relay/hub.go:156-164 | The loop returns the list without the connection, order kept |
| HubState.Hub.Bind | cmd/relay/hub.go:61-68 | The loop over the accounts leaves the index that the theorems about runs speak of |
| HubState.Hub.Unbind | cmd/relay/hub.go:71-83 | Likewise for removal |
| HubState.Hub.AccountOnline | cmd/relay/hub.go:85-89 | True exactly when some live connection proved the account |
| HubState.Hub.DevicesForAccount | cmd/relay/hub.go:92-101 | The filled array is the account's list reversed |
| HubState.FanLogsOf | cmd/relay/hub.go:130-134 | Fanning out adds the message once to each listed device that accepts and nothing to any other |
| HubState.FanOutIsWritingSteps | cmd/relay/hub.go:128-134 | The fan-out loop is the writing steps of the state machine taken with nobody in between: same logs, same count |
| HubState.WithdrawIsWithdrawingSteps | cmd/relay/hub.go:148-153 | The withdraw loop is the withdrawing steps |
| HubState.FirstTakerIsWritingSteps | cmd/relay/hub.go:199-209 | The query loop is the writing steps of the state machine taken with nobody in between: up to the first device that accepts, or through all of them to offline |
| HubState.Hub.FirstTaker | cmd/relay/hub.go:200-206 | A query is written to the first device that accepts and to no other, and is unsent exactly if none accepts |
| HubState.Hub.DeliverResult | cmd/relay/hub.go:166-176 | A known id's channel takes the result if it is empty and keeps its content if not; an unknown id changes nothing |
| HubState.Hub.DeliverQueryResult | cmd/relay/hub.go:219-229 | The same for queries |
| HubState.Hub.Await | cmd/relay/hub.go:139-144 | Waiting returns the first reply handed to the call's channel, or a timeout if there is none |
| HubState.Hub.SendRequest | cmd/relay/hub.go:111-145 | A call run alone leaves pending as it found it, offers every device the request and then the withdraw, and returns the first answer, a timeout, or offline if nobody accepted |
| HubState.Hub.SendQuery | cmd/relay/hub.go:182-217 | A query run alone asks the first device that accepts, withdraws nothing, and leaves queryPending as it found it |
| Base32.CharValueExact | internal/nano/account.go:10-21 | A character has a value exactly if it is in the alphabet, and the value is its one position there |
| Base32.AlphabetOmits | internal/nano/account.go:8-10 | The alphabet is the 32 digits and small letters other than 0, 2, l and v |
| Base32.EncodeBase32 | internal/nano/account.go:80-101 | The nested loops spell the padded bits, five at a time |
| Base32.DecodeBase32 | internal/nano/account.go:104-129 | The loops that OR bits into the output reject misaligned lengths and foreign characters, and otherwise yield the bits after the pad, eight at a time |
| Base32.OrBitSets | internal/nano/account.go:119-126 | OR-ing a bit into a byte changes that one position of the output's bit string |
| Base32.EncodeIsBaseConversion | internal/nano/account.go:80-101 | The digits written denote in base 32 the number the bytes denote in base 256, for every pad that makes the length whole |
| Base32.DecodeIsReduction | internal/nano/account.go:104-129 | What decodes denotes the base-32 value of the text modulo 2 to the output length in bits |
| Base32.DecodeOfEncode | internal/nano/account.go:78-129 | Decoding an encoding gives the data back, for every such pad |
| Base32.EncodeOfDecode | internal/nano/account.go:103-129 | Without pad bits encoding what was decoded gives the text back, so the codec is one to one |
| Base32.ReverseBytes | internal/nano/account.go:131-135 | The in-place loop reverses the array |
| Base32.BytesEqual | internal/nano/account.go:137-147 | True exactly for equal byte strings |
| Address.PrintAddress | internal/nano/account.go:28-36 | Prints prefix, key and reversed checksum: the canonical spelling the theorems speak of |
| Address.ParseAddress | internal/nano/account.go:40-76 | Every error branch and the result are those of the specification that ParsesExactly characterises; the check that 32 bytes came out never fires |
| Address.ParsesExactly | internal/nano/account.go:40-76 | A string parses as a key exactly if it is nano_ or xrb_ followed by the canonical 60 characters with any value of the four pad bits in the first |
| Address.ParseOfAddress | internal/nano/account.go:28-76 | A printed address is the spelling without pad bits and parses back to its key |
| Address.ThirtyTwoSpellings | internal/nano/account.go:40-76 | Exactly 32 strings parse as a given key |
| TokenBucket.ClosedForm | cmd/relay/ratelimit.go:17-31 | The tokens before the k-th decision are the least, over all windows ending now, of burst plus rate times elapsed minus the accepts in the window |
| TokenBucket.AllowedIffRoom | cmd/relay/ratelimit.go:17-31 | A call is allowed exactly when every window ending now has room for one more |
| TokenBucket.WindowBound | cmd/relay/ratelimit.go:17-31 | No window of a run on a non-decreasing clock accepts more than burst plus rate times elapsed |
| TokenBucket.LimiterKeepsWindows | cmd/relay/ratelimit.go:17-31 | The limiter is itself a policy that keeps all windows |
| TokenBucket.LimiterIsOptimal | cmd/relay/ratelimit.go:17-31 | No policy that keeps all windows accepts more calls in any prefix of a run |
| RateLimit.KeyLimiter.Allow | cmd/relay/ratelimit.go:17-31 | The field updates are one decision of that bucket |
| RateLimit.RateLimiter.Lookup | cmd/relay/ratelimit.go:52-59 | Returns the key's own bucket, which is new and full if there was none, and leaves every other key's alone |
| RateLimit.RateLimiter.Allow | cmd/relay/ratelimit.go:52-61 | With nobody between lookup and decision, decides with that bucket and changes no other |
| RateLimit.RateLimiter.Prune | cmd/relay/ratelimit.go:64-76 | Removes exactly the buckets last used before the cutoff |
| RateLimit.PruningIsInvisible | cmd/relay/ratelimit.go:52-76 | If a bucket refills within its time to live, the decisions for a key in any interleaving of calls of any keys with prunes are those of one never-pruned bucket run on that key's calls |
| RatePruning.InvisibleExactly | cmd/relay/ratelimit.go:17-76 | For every rate, burst and time to live, pruning is invisible in all runs and for all keys exactly if the bucket refills within the time to live or is too small to allow any call |
| RatePruning.NothingAllowed | cmd/relay/ratelimit.go:26-28 | With a burst below one token no call is ever allowed, with or without pruning |
| RatePruning.ShowsWithRefill | cmd/relay/ratelimit.go:17-76 | Whenever a bucket large enough to use refills, but not within the time to live, there is a run that the pruned limiter and the lone bucket decide differently |
| RatePruning.ShowsWithoutRefill | cmd/relay/ratelimit.go:17-76 | The same for a bucket large enough to use that never refills |
| RateLimit.ServerSettingsHaveRoom | cmd/relay/http.go:34-35 | The server's own settings refill in time |
| RateLimit.PruningShowsWithoutRoom | cmd/relay/ratelimit.go:64-76 | A concrete run, at one token a second, burst two and a second to live, that shows the difference |
| RateSteps.UnlessOrphaned | cmd/relay/ratelimit.go:52-76 | If the bucket refills in time, then however lookups, decisions and prunes interleave, a key's calls are decided as one bucket decides them, unless a prune drops the key's bucket between a lookup and its decision |
| RateSteps.NothingHoldsBack | cmd/relay/ratelimit.go:52-76 | In every reachable state a caller that is not between its two steps can look up, one that is can decide, and a prune can run |
| RateSteps.UnlessOrphanedExactly | cmd/relay/ratelimit.go:17-76 | Short of such a prune, interleaving adds no condition: invisible exactly if the bucket refills in time or is too small to use |
| RateSteps.AlwaysInvisibleExactly | cmd/relay/ratelimit.go:52-76 | With such prunes, no time to live makes pruning invisible; only a bucket too small to use does |
| RateSteps.LookThenTake | cmd/relay/ratelimit.go:52-61 | A lookup followed at once by its decision is the atomic call |
| RateSteps.SweepIsPruned | cmd/relay/ratelimit.go:64-76 | A prune of the interleaved limiter is the prune of the atomic one |
| RateSteps.Embeds | cmd/relay/ratelimit.go:52-76 | Every run of atomic calls and prunes is, taken one after the other, a run of the interleaved limiter, with the same decisions at the same times for every key, that orphans no bucket |
| Group.MulAdds | internal/nano/sign.go:63-65 | Scalar multiplication distributes over addition of scalars, from the group laws alone |
| Group.MulMul | internal/nano/sign.go:63-65 | Multiplying twice is multiplying by the product |
| Group.MulMod | internal/nano/sign.go:19-33 | Reducing a scalar modulo L does not change the multiple of the base point |
| Group.MulInjective | internal/nano/sign.go:52-67 | Scalars below L with the same multiple of the base point are equal |
| Group.OrderIsThatOfTheStandard | internal/nano/sign.go:32-33 | The order is the one of section 5.1 of RFC 8032 |
| Group.ToLEOfFromLE | internal/nano/sign.go:37-52 | Bytes are determined by the little-endian number they denote and their length |
| Group.LawsCanBeMet | internal/nano/sign.go:62-67 | The laws assumed of the curve are consistent: the integers modulo L satisfy them |
| Ed25519.SigningEquation | internal/nano/sign.go:32-33 | The multiple of the base point by k*a + r reduced modulo L is R plus k times the public key |
| Ed25519.AcceptedMeans | internal/nano/sign.go:41-68 | A signature is accepted exactly if the key and its first half decode to points A and R, its second half is a number S below L, and [S]B = R + [k]A with k the hash of those very bytes of R, of the key and of the message |
| Ed25519.TranscriptBinds | internal/nano/sign.go:57-57 | The bytes hashed determine R, the key and the message |
| Ed25519.AcceptsExactlyOneScalar | internal/nano/sign.go:43-68 | For a key's own public key and any nonce point, Verify accepts one 32-byte scalar and no other: the one that signing computes from the hash of R, the key and the message |
| Ed25519.NonceIsHashed | internal/nano/sign.go:18-24 | The nonce of a signature is the base point times the hash of the key's second half and the message |
| Ed25519.PublicIsClampedMultiple | internal/nano/keys.go:58-85 | The public key is the clamped first half of the key's hash, as it is, times the base point |
| Ed25519.PassesForAnother | internal/nano/sign.go:26-33 | A signature of one message passes for another exactly if the two hashes lead to the same scalar |
| Ed25519.SignVerifies | internal/nano/sign.go:13-68 | Every signature verifies under the key's public key, for every key and message |
| Ed25519.OneScalarPerNonce | internal/nano/sign.go:43-68 | Two accepted signatures on one key and message with the same first 32 bytes are equal, for any public key |
| Ed25519.PreimageBinds | internal/nano/auth.go:8-13 | The bytes hashed for a challenge determine both the nonce and the account |
| Ed25519.ChallengeMeans | internal/nano/auth.go:3-24 | An answer is accepted exactly if the equation holds over the hash of the bytes of nora-auth-v1, the nonce and the account |
| Ed25519.ChallengeVerifies | internal/nano/auth.go:15-24 | A signed challenge verifies for the signer's account and nonce |
| Ed25519.DerivationBinds | internal/nano/keys.go:47-56 | Different seeds or indices never hash the same bytes |
| Ed25519.DeriveKeyHashes | internal/nano/keys.go:47-56 | A derived key is the hash of the seed followed by the index in four bytes, highest first |
| Ed25519.ClampShape | internal/nano/keys.go:74-83 | As a number, clamping clears the three lowest bits and the highest, sets the one below it, and keeps the rest |
| Enroll.DecodeOfEncodeHex | cmd/relay/http.go:187-190 | Hexadecimal text of bytes decodes to those bytes |
| Enroll.DecodesExactly | cmd/relay/http.go:187-190 | A text decodes to exactly the bytes it writes out, two digits a byte in either case; nothing else decodes |
| Enroll.CheckMeans | cmd/relay/http.go:182-194 | The check passes exactly if the address is a spelling of a key and the text writes out 64 bytes that satisfy the group equation over the hash of the domain, this nonce and that key |
| Enroll.OneScalarEnrolls | cmd/relay/http.go:182-194 | Under a key's own address, and for any nonce point, exactly one scalar enrolls it |
| Enroll.HonestAnswerVerifies | cmd/relay/http.go:182-194 | The hex of a key's signed challenge, under the key's printed address, passes the relay's check |
| Enroll.DoEnroll | cmd/relay/http.go:138-180 | Enrollment succeeds exactly if both frames have the expected type and some announced account proved control; the connection carries the proven accounts in order, each of them announced and signed for by its key over this nonce, and each failure has its cause |
| Enroll.ProvenIsSound | cmd/relay/http.go:159-194 | An account is in the proven list exactly if it was announced and its answer satisfies the group equation for a key the address spells, over this connection's nonce |
| Enroll.HonestEnrollmentIsComplete | cmd/relay/http.go:159-194 | If every announced address is a key's own and carries that key's honest answer, the proven list is the announced list |
| Enroll.QuestionsReachProvenDevicesOnly | cmd/relay/http.go:127-180 | In every run of the hub, a device that was ever sent a call's question announced that call's account and signed its enrollment's nonce with a key the account spells |
| Store.MemDoKeeps | cmd/relay/store.go:78-181 | Every operation keeps the hash index sound: each hash names an existing key, no key has two hashes, every key knows its id |
| Store.StepAgrees | cmd/relay/store.go:78-181 | One operation on stores with the same contents gives the same answer exactly if it does not register a hash held by another key, and then leaves the same contents |
| Store.StoresAgree | cmd/relay/store_sqlite.go:67-179 | Over every sequence of operations both stores give the same answers throughout exactly if no register along the way reuses a hash held by a different key |
| Store.StolenHashDiffers | cmd/relay/store.go:98-118 | A concrete pair of registers that succeeds in memory and fails in SQLite |
| Store.RegisterRotates | cmd/relay/store.go:98-118 | Registering an id again makes its new secret resolve to it with its origins kept, its old secrets stop, and every other key resolve as before |
| Store.RebindKeepsSecret | cmd/relay/store.go:120-130 | After a rebind every secret, origin check and policy answers as before, but for the key's new owner |
| Store.RevokeRemoves | cmd/relay/store.go:157-171 | A revoked key's secrets stop resolving and no other key is affected |
| StoreClasses.MemStore.RegisterAPIKey | cmd/relay/store.go:98-118 | The in-place edits of both maps are the operation, and keep the index sound |
| StoreClasses.MemStore.DeleteHashes | cmd/relay/store.go:105-109 | The loop removes exactly the hashes of the key |
| StoreClasses.MemStore.RebindAPIKey | cmd/relay/store.go:120-130 | Changes the owner exactly if the key exists with the old owner, else reports not found and changes nothing |
| StoreClasses.MemStore.UpdateKeyOrigins | cmd/relay/store.go:132-142 | Likewise for the origins |
| StoreClasses.MemStore.RevokeAPIKey | cmd/relay/store.go:157-171 | Likewise for removal of the key and all its hashes |
| StoreClasses.MemStore.ResolveAPIKey | cmd/relay/store.go:173-181 | Finds the key of the secret's hash, or reports not found |
| StoreClasses.MemStore.AnyOriginAllowed | cmd/relay/store.go:144-155 | True exactly if some key lists the origin |
| StoreClasses.MemStore.StorePolicy | cmd/relay/store.go:78-86 | Keeps the stored blob unless the new version is strictly higher |
| StoreClasses.MemStore.LoadPolicy | cmd/relay/store.go:88-96 | The account's blob, if there is one |
| StoreClasses.SqliteStore.RegisterAPIKey | cmd/relay/store_sqlite.go:67-73 | The upsert keeps a row's origins, and fails without effect if another row holds the hash |
| StoreClasses.SqliteStore.RebindAPIKey | cmd/relay/store_sqlite.go:75-87 | Updates the row with that id and owner; no row affected is reported as not found |
| StoreClasses.SqliteStore.UpdateKeyOrigins | cmd/relay/store_sqlite.go:117-136 | Likewise for the origins |
| StoreClasses.SqliteStore.RevokeAPIKey | cmd/relay/store_sqlite.go:89-99 | Likewise for deletion |
| StoreClasses.SqliteStore.ResolveAPIKey | cmd/relay/store_sqlite.go:101-115 | The one row with the hash, or not found |
| StoreClasses.SqliteStore.AnyOriginAllowed | cmd/relay/store_sqlite.go:138-157 | Scanning only rows with a non-empty list still finds every origin listed anywhere |
| StoreClasses.SqliteStore.StorePolicy | cmd/relay/store_sqlite.go:159-166 | The conditional upsert keeps the row unless the new version is strictly higher |
| StoreClasses.SqliteStore.LoadPolicy | cmd/relay/store_sqlite.go:168-179 | The account's row, if there is one |
| Control.Contains | cmd/relay/http.go:689-696 | Membership |
| Control.HandleControl | cmd/relay/http.go:248-365 | The handler's branches and search loops, run on the in-memory store, give the reply and the store of the specification that the theorems below are about |
| Control.RebindIsAuthorised | cmd/relay/http.go:275-306 | Handled alone, a rebind succeeds exactly if the key exists and both its owner and the new account were proven on the connection; it then changes the owner and nothing else, and otherwise nothing |
| Control.RevokeIsAuthorised | cmd/relay/http.go:308-318 | Handled alone, a revoke succeeds exactly if the key exists and its owner was proven; it then removes that key and its hashes, and otherwise nothing |
| Control.BestIsFirstHighest | cmd/relay/store.go:81-84 | Keeping only strictly newer versions selects the first blob at the highest version |
| ControlSteps.AloneIsHandle | cmd/relay/http.go:248-365 | The steps of a frame taken with nobody in between are the handler's sequential pass: same store, same reply |
| ControlTheorems.IndexStaysSound | cmd/relay/store.go:78-171 | In every interleaving, after every single operation, the hash index is sound |
| ControlTheorems.AsksForProvenAccounts | cmd/relay/http.go:248-365 | In every interleaving over either store, whatever a frame asks of the store names only accounts its connection proved |
| ControlTheorems.NewOwnersAreProven | cmd/relay/http.go:254-306 | In every interleaving an account that comes to own a key, by a register or a rebind, was proven by the connection at work |
| ControlTheorems.ForeignKeysUntouched | cmd/relay/http.go:248-365 | Through any stretch of an interleaving in which only frames work whose connections did not prove a key's owner and that do not register its id, the key stays as it is |
| ControlTheorems.SearchStep | cmd/relay/http.go:293-313 | A step of a rebind or revoke succeeds by the one operation that names the key's owner, and otherwise leaves the store as it was |
| ControlTheorems.SuccessHadTheOwner | cmd/relay/http.go:275-318 | In every interleaving a rebind or revoke that succeeded found, at one of its operations, an owner its connection had proven, and did there what was asked and no more |
| ControlTheorems.OtherTriesChangeNothing | cmd/relay/http.go:293-315 | Every other step of it leaves the store as it was |
| ControlTheorems.OnlyMovesChangeTheOwner | cmd/relay/store.go:98-171 | Who owns a key changes only by an operation that registers, rebinds or revokes that very key |
| ControlTheorems.SearchIsExact | cmd/relay/http.go:275-318 | If no other frame's operation changes who owns the key while a rebind or revoke is at work, it succeeds exactly if the frame is in order and the key had a proven owner as it began |
| ControlTheorems.SearchCanMiss | cmd/relay/http.go:293-304 | A concrete interleaving in which a rebind is told the key was not found although a proven account owned it throughout |
| ControlSearch.NeverMissesExactly | cmd/relay/http.go:275-318 | A rebind or revoke that passes its checks succeeds in every interleaving in which its connection's accounts own the key until it replies, exactly if the connection proved no two different accounts (or the key id is empty, so that no frame can move it) |
| ControlSearch.OneAccountNeverPassed | cmd/relay/http.go:293-313 | With one account, or an empty id, the search never gets past the owner, whatever comes in between |
| ControlSearch.TwoAccountsCanMiss | cmd/relay/http.go:293-318 | For every list of accounts with two different ones, and every frame in order with a key id, there is a run from a sound store in which a proven account owns the key throughout and the reply is that there is no such key |
| ControlTheorems.PutsAreProven | cmd/relay/http.go:335-342 | A policy is put only by a frame whose connection proved the account |
| ControlTheorems.ForeignPoliciesUntouched | cmd/relay/http.go:335-342 | Through any stretch of an interleaving in which no frame works whose connection proved the account, the account's policy stays as it is |
| ControlTheorems.PolicyIsNewest | cmd/relay/http.go:335-342 | After every interleaving an account's policy is the first blob at the highest version put for it |
| ControlTheorems.PoliciesConverge | cmd/relay/http.go:335-342 | Interleavings that put the same blobs for an account, one per version, agree on its policy whatever their order and repetitions |
| ControlTheorems.RepliesAgree | cmd/relay/http.go:248-365 | In every interleaving, from stores with the same contents, each frame stands at the same point with the same reply whichever store is behind the handler, exactly if no frame registers a hash held by a different key at that moment |
| Migrate.Destination.MigrateAPIKeys | cmd/migrate/main.go:88-115 | The loop upserts row by row, stops at the first that breaks the unique hash, and returns how many it copied |
| Migrate.Destination.MigratePolicyBlobs | cmd/migrate/main.go:117-142 | The loop offers every blob to the destination, and counts them all |
| Migrate.CopiedStand | cmd/migrate/main.go:88-115 | The rows counted stand in the destination with their owner, hash and origins, hashes stay unique, and a failure means another row holds the hash of the next one |
| Migrate.ImportedKeyAnswers | cmd/migrate/main.go:88-115 | After a complete import a secret with a source row's hash resolves in the destination to that row's id, owner and origins, and each of its origins is allowed |
| Migrate.OtherRowsUntouched | cmd/migrate/main.go:106-112 | Rows the source does not name are neither added, changed nor removed |
| Migrate.FreshImportCopiesAll | cmd/migrate/main.go:88-115 | Into an empty destination every row is copied, and nothing else is there |
| Migrate.KeyImportIsIdempotent | cmd/migrate/main.go:88-115 | A second import, after a complete or a failed one, leaves the table as it is and ends the same way |
| Migrate.CompleteImportIsStable | cmd/migrate/main.go:88-115 | After a complete import, reading the rows again in any order and number changes nothing |
| Migrate.BlobsEndNewest | cmd/migrate/main.go:117-142 | An account ends with what keeping only strictly newer versions makes of the destination's blob followed by the source's |
| Migrate.ImportedPolicy | cmd/migrate/main.go:117-142 | That is the first blob at the highest version among them, and none if there is none |
| Migrate.BlobImportIsIdempotent | cmd/migrate/main.go:117-142 | A second import of the blobs, in any order and number, changes nothing, whatever the destination held first |
| Amount.ParsesLiteral | internal/nano/amount.go:14-18 | The text of every literal, with optional sign, point and exponent, is read as its decimal |
| Amount.ParsedIsLiteral | internal/nano/amount.go:14-18 | Whatever is read is the text of a literal |
| Amount.RatIsMeaning | internal/nano/amount.go:15-19 | The rational built from a literal is the number the literal denotes |
| Amount.ParsesExactly | internal/nano/amount.go:8-27 | A literal is accepted as n raw exactly if its digits are within reach and its value times 10^30 is n, is refused as negative exactly if that is a negative integer, and as no decimal exactly if it is out of reach |
| Amount.OnlyLiteralsParse | internal/nano/amount.go:14-18 | Text that is no literal within reach is refused as no decimal |
| Amount.ParseOfFormat | internal/nano/amount.go:14-35 | Every amount, written out, reads back as that amount |
| Amount.FormatIsInjective | internal/nano/amount.go:30-35 | Different amounts are written differently |
| Amount.FormatMeans | internal/nano/amount.go:29-35 | Every amount, negative ones included, is written as a literal with thirty decimals and no leading zeros whose value is exactly the amount |
| Amount.FormatOfNothing | internal/nano/amount.go:31-33 | A missing amount is written as zero |
| Amount.ResolvesExactly | cmd/relay/http.go:668-680 | The amount field resolves to the digits, without leading zeros, of the literal's exact value in raw, or is refused |
| Amount.ResolveTakesTheFirst | cmd/relay/http.go:668-680 | A raw amount is passed on unread, an amount is missing exactly if both fields are empty, and invalid exactly if only the decimal one is there and does not parse |
| Requests.DestinationIsSpelling | cmd/relay/http.go:652-655 | A destination is accepted exactly if it is a spelling of some key |
| Requests.RequestFollowsTheKey | cmd/relay/http.go:617-666 | A secret's request is built exactly if it is a send to a spelling of some key for an amount that resolves; it goes to the account the key is bound to, for the literal's exact value, carries the fresh id and the caller's counterparty, memo and nonce (the id where there is none), and is to be signed only exactly if the caller says so |
| Requests.RefusalHasItsCause | cmd/relay/http.go:648-659 | A request that is not built is refused for its kind, else for its destination, else for its amount |
| Requests.RebindMovesRequests | cmd/relay/http.go:630-666 | After a rebind the same secret's requests go to the new account and are otherwise the same |

## Left out

- The WebSocket and HTTP transport, deadlines, pings, CORS, JSON framing and status codes: a write is an append to a connection's log that may be refused.
- The frame dispatch of the read loop: each kind of frame is an action of `Routing` or an event of `Control`; frames without a payload are ignored there and have no action.
- A ping is not a message of a connection's log, and a challenge that cannot be written ends the connection before enrollment.
- BLAKE2b, SHA-256, curve arithmetic and random sources: parameters under stated laws, and fresh ids.
- Whether a hash ever collides: bindings are proved of the bytes hashed, not of the digests.
- The SQL engine, its connection and pragmas, timestamps, JSON storage of origins and nil blobs: a statement is an update of a finite map, origins are stored without loss, and a database never fails for other reasons.
- `decodeOrigins`: its tolerance of text that is not a JSON array, since the store writes only such arrays.
- The numbers of policy versions are unbounded; Go's `int` is 64 bits wide and nothing is added to it.
- Control.HandleControl: is one frame with no other frame's operation in between, on the in-memory store; interleavings, and SQLite, are in `ControlTheorems`, on values.
- Control.RebindIsAuthorised: is about a frame handled alone; `ControlTheorems.SearchIsExact` and `ControlTheorems.SuccessHadTheOwner` are about interleavings.
- Control.RevokeIsAuthorised: the same.
- HubState.Hub.Await: is a wait in which the replies come before the deadline.
- HubState.Hub.SendRequest: is a run with no other call beside it; what interleaved calls guarantee is stated in `RoutingTheorems`, on values.
- HubState.Hub.SendQuery: the same.
- HubState.Hub.DeliverResult: takes the lookup and the send together; `Routing` separates them.
- HubState.Hub.DeliverQueryResult: the same.
- Identity of connections: an `AgentConn` is a value with a serial number, so two connections of one device differ.
- Amount.ParsesExactly: covers signed decimals with an optional decimal exponent; fractions ("1/2"), binary exponents ("1p3"), base prefixes and underscores, which Go's rationals also read, are not literals of the model.
- Amount.OnlyLiteralsParse: is therefore not true of the code for those forms, which the model refuses and the code may accept.
- Amount.ParsedIsLiteral: the same.
- Requests.RequestFollowsTheKey: refuses amounts in those forms, where the code may build a request.
- Exponent text beyond Go's 64-bit range with a zero mantissa, which Go refuses and the model reads as zero.
- RateLimit.RateLimiter.Allow: is a call with nobody between its lookup and its decision; calls that interleave are in `RateSteps`, on values.
- RateLimit.PruningIsInvisible: is about such calls, and gives one direction; `RatePruning.InvisibleExactly` and `RateSteps` give the rest.
- RateSteps.SweepIsPruned: a prune is one action, where the source takes the lock of one bucket after the other, so a holder's decision on another key can fall inside a prune; for one key a prune is the check of that key's bucket.
- Floating-point rounding in the limiter, and a clock that jumps back.
- The trimming of the bearer header, and a request's creation time and contact name.
- Whether a device drops a repeated nonce: the repository's README mentions idempotency by nonce, and that code is not part of this model.
- Environment loading, configuration, the main functions, shutdown, status and lookup endpoints, and key encryption of policies.
