# A verified model of an Olm/Megolm library

This project models the cryptographic ratchet library in Dafny and proves what its ratchets and the layers
that carry them are for. To check everything: `dafny verify dfyconfig.toml` in this directory.

**Olm, the two-party double ratchet.** `DoubleRatchet` says what one encryption and one decryption do;
`OlmRatchet` does it in place, on bounded lists kept in arrays, and is proved equal to it. `Conversation` numbers
the chains of a whole conversation and proves that every operation acts on the keys exactly as a small step acts
on the numbers; `OlmMessage` and `OlmPreKeyMessage` have the same messages on bytes; `Protocol` puts two ends on a network that drops,
repeats, reorders, alters and forges, and proves agreement, delivery and at-most-once for every run. `OlmAccount`
and `OlmSession` model one-time keys and the triple Diffie-Hellman set-up. Keys are free terms (`KeyTerms`): two keys are equal only when derived alike, up to
the commutativity of Diffie-Hellman, and a ciphertext opens only under its own key and header. Fresh ratchet keys and fewer
than 2^32 messages on a chain are assumed of the environment. `RatchetBytes` gives the terms the bytes that HKDF, HMAC and
Diffie-Hellman make of them and proves that the ratchet does to those bytes what it does to the terms, and `DeliveryOnBytes` that
what the protocol delivers opens on the wire, also after the end has been saved and loaded again.

**Megolm and group sessions.** `Megolm` proves the byte-wise fast-forward equal to the iterated single step for any
hash function. `GroupSession` specifies on bytes what group sessions write and read, and proves them end to end, including
the cache of ratchets of the receiver; `OutboundGroupSession` and `InboundGroupSession` work in place in the caller's memory.

**The Curve25519 field layer.** `Field`, `FieldMultiply`, `FieldInverse` and `FieldEncoding` work on 64-bit and 32-bit limbs
whose types admit no overflow.

**The codec stack.** `Varint`, `MessageCodec` and `MessageFormats` (wire formats), `Base64`, `Sha256`, `Hmac`, `Cbc` and
`Cipher` (over an arbitrary compression function, an arbitrary inverse pair of block functions, and an arbitrary matching
signature pair), `Pickle`, `PickleEncoding` and `Persistence`. One array with offsets stands for memory, so input and output may
overlap wherever the code lets them. `Words`, `Sizes`, `ExclusiveOr` and `BoundedList` are shared.

Every function that a method is proved equal to has its meaning stated once more, against HMAC, HKDF, signature check and written-out constants rather
than through itself: what each step derives (`RatchetBytes.ChainSteps`, `Megolm.StepParts`), byte layouts, and exactly when each refusal is
given (`GroupSession.ReadableOutcome`, `Cipher.OutcomeIs`, `OlmSession.MatchesIs`, `OlmSession.SetUpIs`, `Persistence.ReadIs`).

Some things in the code turned out otherwise than its comments or the intended property say. Each is stated with the exact
condition under which it happens:

- The comment in `fcontract` that at most one is borrowed out of limb 9 is wrong: it can be three (`FieldEncoding.ThreeAreBorrowed`), and is one at
  most exactly under the condition of `FieldEncoding.BorrowedAtMostOnce`. What the code relies on holds all the same (`FieldEncoding.FContract`).
- The ratchet cache of an inbound group session can be led a full lap of the counter ahead by requests beyond 2^31 from the first
  known index; then it answers with the ratchet 2^32 steps on (`GroupSession.LapIsAnswered`), which can be another one
  (`GroupSession.LapGivesAnotherRatchet`); exactly when: `GroupSession.ExactUnlessLapped`.
- A session imported from an export can answer indices from before the export (`GroupSession.EarlierMayBeAnswered`; exactly when:
  `GroupSession.ImportAgrees`; with what: `GroupSession.EarlierIsAnswered`).
- A session key that is refused for its signature has already replaced the ratchets and the key of the session
  (`InboundGroupSession.Session.InitKeys`; exactly when a refusal changes nothing: `GroupSession.RefusalKeeps`).
- Unpickling a group session does not notice a pickle that ends early (`Persistence.GroupPrefixIsAccepted`); unpickling
  a session or an account does (`Persistence.AcceptedIsComplete`), but not a list that declares more items than it can hold. Exactly when the
  bytes read are written again: `Persistence.AcceptedIsWrittenAgain`, `Persistence.GroupIsWrittenAgain`. Two readable layouts never are:
  `Persistence.LoggedSessionIsConverted`, `Persistence.OldInboundIsConverted`.
- Decrypting a group message decodes it before looking at its length; a length that no encoding has is refused only after the message has been
  written over and the byte after it read (`InboundGroupSession.Session.Decrypt`, `Base64.DecodeBase64`).
- Setting up an inbound session reads an identity key that the message need not carry (exactly when: `OlmSession.InboundSetUp`).

## Model

| member | source | states |
|---|---|---|
| `DoubleRatchet.WithNewReceiver` | src/ratchet.cpp:595-613 | Taking up a new ratchet key leaves at most five receiver chains, the first of them that of the new key, at index 0 |
| `DoubleRatchet.NewReceiverIs` | src/ratchet.cpp:595-613 | Root key and chain come from the two ratchet keys and the root before, the new chain heads the list with the newest four of the others after it, and the sender chain is gone |
| `DoubleRatchet.ShelvedIsFront` | src/ratchet.cpp:615-620 | After shelving, the store holds the newest 40 of the keys shelved, latest first, and those stored before |
| `DoubleRatchet.KeyBelowAt` | src/ratchet.cpp:615-620 | The k-th of the keys shelved is the message key of the k-th index below that of the message |
| `DoubleRatchet.FindChain` | src/ratchet.cpp:540-551 | The receiver chain used is the first with the ratchet key of the message; the count if there is none |
| `DoubleRatchet.FailureKeepsState` | src/ratchet.cpp:504-593 | A decryption that fails leaves every key, chain and skipped entry as it was |
| `DoubleRatchet.RefusalsAre` | src/ratchet.cpp:504-538 | Exactly when each refusal is given: version, missing field, room, key length, in this order |
| `OlmRatchet.Ratchet.InitialiseAsAlice` | src/ratchet.cpp:211-229 | The root and the sender chain are those of the master secret; chains and skipped keys of an earlier set-up stay |
| `OlmRatchet.Ratchet.InitialiseAsBob` | src/ratchet.cpp:190-208 | The same root, and the same chain as the first receiver chain; what an earlier set-up left stays, short of what no longer fits |
| `DoubleRatchet.SetUpKeeps` | src/ratchet.cpp:190-229 | What a set-up leaves, whatever was set up before: the new root and chain, and which earlier chains and keys |
| `OlmRatchet.Ratchet.Encrypt` | src/ratchet.cpp:422-482 | In place: the refusals and their order, the chain started when there is none, the message, and the whole new state |
| `OlmRatchet.Ratchet.VerifyMacAndDecryptForExistingChain` | src/ratchet.cpp:110-141 | Advancing a copy of the chain finds the message key of the index, refusing indices behind it or more than 2000 ahead |
| `OlmRatchet.Ratchet.VerifyMacAndDecryptForNewChain` | src/ratchet.cpp:144-176 | The same on a chain derived from the own sender chain and the new key, with at most 2000 skipped |
| `OlmRatchet.Ratchet.TrySkippedKeys` | src/ratchet.cpp:556-582 | The search that erases an entry from the list it walks opens with, and removes, exactly the first entry that opens the message |
| `OlmRatchet.Ratchet.AdvanceReceiver` | src/ratchet.cpp:615-622 | The in-place loop shelves every skipped key and leaves the chain one past the message |
| `OlmRatchet.Ratchet.TakeUpChain` | src/ratchet.cpp:595-613 | Inserting the new chain, replacing the root and dropping the sender chain, in place |
| `OlmRatchet.Ratchet.Decrypt` | src/ratchet.cpp:504-625 | The in-place decryption, its bounded lists shifted in arrays, is exactly DoubleRatchet.Decrypted in state, result and error |
| `OlmMessage.Seal` | src/ratchet.cpp:454-482 | On bytes and in place: headers, ratchet key, ciphertext and tag end up as one sealed message at the output, and nothing else in memory changes |
| `OlmMessage.SealedLayout` | src/ratchet.cpp:454-482 | The sealed message byte for byte: version, three tagged fields, and eight bytes of tag over all before it, under OLM_KEYS |
| `OlmMessage.SealedMessage` | src/ratchet.cpp:400-415 | The sealed message is as long as the length function says |
| `OlmPreKeyMessage.SealPreKey` | src/session.cpp:285-331 | On bytes and in place: headers, the three public keys, each into its gap, and the sealed message into the last one end up as one pre-key message at the output, and nothing else in memory changes |
| `OlmPreKeyMessage.AroundLayout` | src/session.cpp:285-331 | The pre-key message byte for byte: version, the three keys, and the message, each under its tag |
| `OlmPreKeyMessage.PreKeyOpens` | src/session.cpp:299-317 | A pre-key message shows the three keys to every reader and holds a message that shows its own ratchet key and counter and opens under its key to its plaintext |
| `OlmPreKeyMessage.SealedPreKeyMessage` | src/session.cpp:262-279 | It is as long as the two length functions, one inside the other, say |
| `OlmMessage.SealedOpens` | src/ratchet.cpp:94-107 | On bytes: a sealed message shows its version, ratchet key and counter to every reader, and opens under its key to its plaintext |
| `Conversation.OtherRootsDeriveOtherChains` | src/ratchet.cpp:42-65 | The chain key derived for a ratchet key is the sender's only when the deriving end stands at the root before it |
| `Conversation.MessageKeysDiffer` | src/ratchet.cpp:68-90 | No two places (chain, index) of a conversation share a message key |
| `Conversation.DeliverSimulates` | src/ratchet.cpp:504-625 | For every state an end can be in and every honest message: decryption opens it exactly when the numbered view says so, to what was sent, and the keys afterwards are those of the new view |
| `Conversation.ShelvedPairsIsFront` | src/ratchet.cpp:615-620 | The skipped store after a gap is the newest 40 of the skipped indices, latest first, followed by what was there |
| `Conversation.TamperedNeverOpens` | src/ratchet.cpp:94-107 | An assumption spelled out, not a result: by the definition of sealing, junk, or a sealed body under another header, opens nowhere and changes nothing |
| `Conversation.SendSimulates` | src/ratchet.cpp:438-452 | Sending, on the own chain or on a fresh one, takes the keys of one view to those of the next and emits the next honest message |
| `Conversation.OtherEndKeeps` | src/ratchet.cpp:438-452 | An end that did not send still holds the keys of its view when the conversation has grown |
| `Conversation.HonestStays` | src/ratchet.cpp:464-477 | Messages already sent are the same messages after every later send |
| `Protocol.StepKeeps` | src/ratchet.cpp:422-625 | Every send and every delivery - honest, repeated, late, altered, forged - keeps the invariant: both ends hold exactly the keys of their views, are in step, and every key below a frontier is used, stored or pushed out, exactly one of the three |
| `Protocol.RunKeeps` | src/ratchet.cpp:422-625 | The invariant over every run of events |
| `Protocol.Agreement` | src/ratchet.cpp:42-65 | In every run, with n the newest chain: its owner stands at root R(n) and the next key of chain n; the peer is silent at R(n), following chain n on the very keys C(n, i), or still at R(n-1) with its own key T(n-1), from where it derives root R(n) and C(n, 0) |
| `Protocol.StoreIsSound` | src/ratchet.cpp:615-620 | In every run, at both ends: each stored entry holds exactly the message key of its index on its chain, no two entries are for the same message, and every entry lies behind its chain as long as that is retained |
| `Protocol.CanAlwaysAnswer` | src/ratchet.cpp:438-448 | In every run an end without a sender chain has a receiver chain to answer, which encryption assumes without checking |
| `Protocol.Delivery` | src/ratchet.cpp:504-593 | In every run, an honest message that fits the buffer opens, to what was sent, if and only if its chain is retained and its index lies in the window or in the store, or it is on the peer's newest chain not yet taken up and among the first 2001 |
| `Protocol.OnlyGenuineOpens` | src/ratchet.cpp:94-107 | What opens is a message of the conversation, unaltered, and comes out as it was sent, given that only the two ends seal |
| `Protocol.DeliverForgedKeeps` | src/ratchet.cpp:94-107 | Any other message fails and leaves the world as it is, given that only the two ends seal |
| `Protocol.AtMostOnce` | src/ratchet.cpp:574-582 | A message that has been opened is refused by that end ever after, whatever is sent and delivered in between |
| `RatchetBytes.CreateChainKeyOnBytes` | src/ratchet.cpp:42-65 | Deriving a root and a chain key from bytes gives the bytes that the derived terms stand for, for any commutative Diffie-Hellman |
| `RatchetBytes.KeyAfterOnBytes` | src/ratchet.cpp:68-78 | So does advancing a chain key any number of times; what one advance computes is RatchetBytes.ChainSteps |
| `RatchetBytes.ChainSteps` | src/ratchet.cpp:68-90 | The next chain key is the HMAC of the chain key with the byte 2, its message key the HMAC with the byte 1, after any number of steps |
| `RatchetBytes.ChainKeyCreated` | src/ratchet.cpp:42-65 | New root key and chain key together are the 64 bytes of HKDF over the shared secret, salted with the root key, under the info OLM_RATCHET |
| `RatchetBytes.SendsOnChain` | src/ratchet.cpp:422-482 | A send on a chain seals under HMAC(C, 1) and leaves HMAC(C, 2) and the next index, C being the chain key before it; nothing else changes |
| `RatchetBytes.SendsOnNewChain` | src/ratchet.cpp:422-482 | The first send of an answer derives root and chain from the new key and the newest key of the peer, and then does the same at index 0 |
| `RatchetBytes.NewReceiverIs` | src/ratchet.cpp:595-613 | What is held once a new ratchet key is taken up, byte for byte |
| `RatchetBytes.UnreadableIsRefused` | src/ratchet.cpp:504-538 | Exactly when bytes are refused before a key is tried, and that nothing but a plaintext changes the ratchet |
| `RatchetBytes.OpenIs` | src/ratchet.cpp:94-107 | What one message key makes of any bytes: plaintext if and only if tag, block length and padding are right, and which; beyond the ciphertext exactly for a right tag over a wrong length |
| `RatchetBytes.OpenedIsTagged` | src/ratchet.cpp:504-625 | Whatever opens carries the tag of a message key at hand for its ratchet key and counter: a skipped one, one of a chain held at most 2000 on, or one of a chain newly derived |
| `RatchetBytes.PlainIsTagged` | src/ratchet.cpp:504-625 | The same of a whole message on the wire: it starts with 3, and the plaintext is what that key makes of the ciphertext it shows |
| `RatchetBytes.SetUpOnBytes` | src/ratchet.cpp:190-229 | Both ends set up hold the two halves of 64 bytes derived from the three secrets |
| `RatchetBytes.EncryptOnBytes` | src/ratchet.cpp:422-482 | Encrypting does to the bytes held what it does to the terms, and writes the bytes of the message; which bytes those are: RatchetBytes.SendsOnChain, RatchetBytes.SendsOnNewChain |
| `RatchetBytes.DecryptOnBytes` | src/ratchet.cpp:504-625 | Every decryption that opens a message as a term opens its bytes as well, to the same plaintext, and does to the bytes held what it does to the terms |
| `DeliveryOnBytes.MasterOnBytes` | src/session.cpp:81-90 | Each side of the triple Diffie-Hellman computes, from its own private keys, the bytes of the one master secret |
| `DeliveryOnBytes.DeliveredOnBytes` | src/ratchet.cpp:504-625 | In every run, an honest message that the protocol delivers opens on bytes, to what was sent; no assumption about what a MAC withstands is needed |
| `DeliveryOnBytes.LoadedEndDelivers` | src/olm.cpp:234-305 | An end saved at any point of any run and loaded again holds the same bytes, and still opens every honest message that the protocol delivers |
| `DeliveryOnBytes.LoadedAccountFinds` | src/olm.cpp:218-276 | An account saved and loaded again is the same, and finds the same one-time key for every public half |
| `Protocol.LossNeedsOverflow` | include/self_olm/list.hh:66-80 | A delivery pushes message keys out only when the store and the new gap exceed 40 together |
| `Protocol.OrderIsForgotten` | src/ratchet.cpp:556-582 | Below the frontier of a retained chain a message can be opened if and only if it was not opened before and its key was not pushed out: earlier order matters in no other way |
| `BoundedList.List.Erase` | include/self_olm/list.hh:52-58 | Shifting down in place removes exactly the element |
| `BoundedList.List.MakeSpace` | include/self_olm/list.hh:66-78 | Shifting up in place keeps everything around the opened slot, dropping the last element of a full list, and moves an insertion at the end of a full list one place forward |
| `BoundedList.List.Insert` | include/self_olm/list.hh:91-95 | The list after an insertion, full or not |
| `BoundedList.EraseUndoesInsert` | include/self_olm/list.hh:52-95 | Erasing what was just inserted gives the list back, short of what was pushed out |
| `OlmAccount.Account.LookupKey` | src/account.cpp:28-37 | The first one-time key with the public half, or nothing |
| `OlmAccount.Account.RemoveKey` | src/account.cpp:39-51 | Removes that key and returns its id, or changes nothing |
| `OlmAccount.Account.MarkKeysAsPublished` | src/account.cpp:259-270 | Marks every key and counts those that were not marked |
| `OlmAccount.PublishedIs` | src/account.cpp:259-270 | Marking keeps id and key of every one-time key; what is counted are the keys without the mark |
| `OlmAccount.Account.GenerateOneTimeKeys` | src/account.cpp:283-300 | New keys go to the front under consecutive wrapping ids; refused as a whole without enough random bytes |
| `OlmAccount.GeneratedKeepsNewest` | src/account.cpp:283-300 | A key stays available, at a known place, while fewer than 100000 keys are newer |
| `OlmAccount.GeneratedAt` | src/account.cpp:283-300 | The k-th newest key after generating is the k-th last pair given, unpublished, under the id that many below the last one modulo 2^32 |
| `OlmAccount.RemovedIsGone` | src/account.cpp:39-51 | A removed key can no longer be found, and no other key is lost |
| `OlmSession.Session.NewOutboundSession` | src/session.cpp:57-100 | The identifiers on record and the ratchet started from the three shared secrets |
| `OlmSession.Session.NewInboundSession` | src/session.cpp:123-193 | Which message is refused, with which error and what is on record by then; which message makes it read a missing identity key; otherwise the answering ratchet |
| `OlmSession.InboundSetUp` | src/session.cpp:103-149 | The missing identity key is read exactly if the caller passes one and the other fields are there |
| `OlmSession.SetUpIs` | src/session.cpp:103-193 | Exactly when each refusal is given, an identity key other than the caller's among them, and exactly when the identifiers on record are those of the message |
| `OlmSession.MatchesIs` | src/session.cpp:218-248 | A match means: an inner message is there, base key and one-time key are those on record, and so is every identity key shown or passed, at least one being so; and nothing less matches |
| `OlmSession.OnlyItsOwnMatches` | src/session.cpp:218-248 | A pre-key message of any outbound session matches the session set up from another if and only if identity key, base key and one-time key are all the same |
| `OlmSession.Session.MatchesInboundSession` | src/session.cpp:218-248 | Answers whether the message matches the session; what that takes is OlmSession.MatchesIs |
| `OlmSession.Session.Encrypt` | src/session.cpp:285-331 | A pre-key message until something has been received, a plain message after that; which buffer or random length is refused, and that a refusal changes no key |
| `OlmSession.Session.Decrypt` | src/session.cpp:366-398 | The ratchet's decryption of the inner message; a failure changes no key and does not count as received |
| `OlmSession.MastersAgree` | src/session.cpp:81-90 | Both sides of the triple Diffie-Hellman compute the same master secret |
| `OlmSession.OutboundKeepsRatchetKey` | src/session.cpp:57-100 | However much was sent before the first answer, every message carries the first ratchet key |
| `OlmSession.SetUpAgrees` | src/session.cpp:123-248 | Any pre-key message of an unanswered outbound session sets up the matching inbound one: accepted, same identifiers, same master secret, matches_inbound_session holds, and the two ratchets are the two ends the protocol starts from |
| `Megolm.Ratchet.Init` | src/megolm.c:53-56 | Parts and counter are those given |
| `Megolm.Ratchet.Advance` | src/megolm.c:81-100 | In place, the single step; what it makes of each part is Megolm.StepParts |
| `Megolm.StepParts` | src/megolm.c:81-100 | One step part by part, each with its own seed: part i becomes h(Rj, i), j being the topmost part whose period divides the new counter, and stays if j is below i |
| `Megolm.Ratchet.AdvanceTo` | src/megolm.c:102-150 | The in-place fast-forward equals the single step iterated (target - counter) mod 2^32 times, in all four parts and the counter, for every start, target and hash; and it computes at most 1026 hashes |
| `Megolm.QuietUntilBoundary` | src/megolm.c:81-100 | Between two rekeyings of a part, it and the parts above it do not change |
| `Megolm.ReachBoundary` | src/megolm.c:127-147 | Going to the k-th rekeying of part j is: part j hashed k-1 times on its own, then everything from it down |
| `Megolm.RoundIsIteration` | src/megolm.c:106-149 | One round of the fast-forward is a whole number of single steps, the 0x100 case of wrapping part 0 included |
| `Megolm.CallsAreFew` | src/megolm.c:106-149 | However far the target, the rounds together compute at most 1026 hashes |
| `Megolm.IterateAdd` | src/megolm.c:81-100 | Steps add up |
| `GroupSession.FetchedIsIteration` | src/inbound_group_session.c:319-339 | Whatever was requested before, the cached ratchet is some number of steps from the unchanged initial one, and so is every answer |
| `GroupSession.HashIs` | src/megolm.c:28-50 | Rehashing part i is HMAC-SHA-256 keyed with the part over the one byte i |
| `GroupSession.ExactUnlessLapped` | src/inbound_group_session.c:319-339 | The answer lies at exactly the requested distance if and only if the code does not step the cached ratchet forward, or the cached ratchet was not beyond that distance |
| `GroupSession.WindowIsExact` | src/inbound_group_session.c:324-336 | A request within 2^31 of the first known index, with the cache inside that window, is granted, answered exactly, and keeps the cache inside |
| `GroupSession.RunIsExact` | src/inbound_group_session.c:319-339 | Over every run of requests in the window, in any order and with repeats, each is answered by the initial ratchet advanced by exactly its distance |
| `GroupSession.LapIsAnswered` | src/inbound_group_session.c:324-327 | Outside the window it fails, for every hash and every initial ratchet: two jumps forward, and then the first known index is answered by the initial ratchet 2^32 steps on |
| `GroupSession.LapGivesAnotherRatchet` | src/inbound_group_session.c:324-327 | That ratchet can be another than the one asked for: for one hash and one initial ratchet it is |
| `GroupSession.SessionKeyImports` | src/inbound_group_session.c:93-134 | A session key read back gives the receiver the sender's ratchet, counter and signing key, verified |
| `GroupSession.FromKeyIs` | src/inbound_group_session.c:93-134 | A key is refused for its version exactly if the first byte is wrong, for its signature exactly if that is right and a shared key does not verify under the key in it; otherwise every field is its slice |
| `GroupSession.SessionKeyLayout` | src/outbound_group_session.c:324-363 | The shared key byte for byte, and its signature over all before it |
| `GroupSession.ExportImports` | src/inbound_group_session.c:93-134 | An exported key read back gives the exported ratchet and key, and leaves the mark of verification alone |
| `GroupSession.ExportLayout` | src/inbound_group_session.c:485-524 | The exported key byte for byte, without a signature |
| `GroupSession.PlainIsReported` | src/inbound_group_session.c:366-380 | A plaintext comes with the index reported; of every message that reads well an index is reported, before anything is verified |
| `GroupSession.UnreadableIsRefused` | src/inbound_group_session.c:344-378 | Exactly when a message is refused for its version or its format, and that the session then stays as it was |
| `GroupSession.ReadableOutcome` | src/inbound_group_session.c:380-424 | A message that reads well, case by case and exactly: bad signature, no room, unknown index, bad MAC, beyond the ciphertext, or the plaintext under the ratchet fetched for its index |
| `GroupSession.OnlySignedOpens` | src/inbound_group_session.c:380-388 | Whatever opens is longer than tag and signature and carries the signature of the session's key over all before it |
| `GroupSession.GroupMessageIs` | src/outbound_group_session.c:203-252 | The group message byte for byte: version, index, ciphertext, tag and signature, tag and ciphertext under the four parts and MEGOLM_KEYS |
| `GroupSession.MessageReads` | src/outbound_group_session.c:203-252 | A group message reads back as its version, index, ciphertext, tagged text and signature |
| `GroupSession.GenuineOpens` | src/inbound_group_session.c:344-424 | A message sent d < 2^31 steps after the shared ratchet opens to its plaintext and index, and the session keeps following |
| `GroupSession.OnlyRequestsMove` | src/inbound_group_session.c:344-424 | Only a message that reads well, is signed and fits the buffer moves the session, and it moves the cached ratchet and the mark, nothing else, even when its MAC fails afterwards |
| `GroupSession.KeepsFollowing` | src/inbound_group_session.c:399-417 | Every message that asks for nothing outside the window, good or bad, leaves a following session following |
| `GroupSession.RunOpens` | src/inbound_group_session.c:344-424 | End to end: in any run of any messages, none asking for an index outside the window, each genuine message opens to its plaintext and index, in any order and however often |
| `GroupSession.SharedKeyFollows` | src/inbound_group_session.c:136-157 | The receiver of a session key follows its sender from the shared ratchet |
| `GroupSession.ImportAgrees` | src/inbound_group_session.c:485-524 | A session imported from an export agrees with the exporter on every index from the export on; an earlier index it refuses if and only if that index is at most 2^31 behind its cached ratchet |
| `GroupSession.EarlierIsAnswered` | src/inbound_group_session.c:319-339 | The other half of that: an index further behind the cached ratchet is answered, by the exported ratchet advanced almost all the way round |
| `GroupSession.EarlierMayBeAnswered` | src/inbound_group_session.c:319-339 | For example: exported two steps on and used up to the end of its window since, a session answers the first index, by the exported ratchet 2^32 - 2 steps on |
| `GroupSession.RefusalKeeps` | src/inbound_group_session.c:93-134 | A refused session key leaves the session as it was if and only if its version is wrong, or it is, up to its signature, the key of this very session, which has not moved from its first ratchet |
| `OutboundGroupSession.Session.Initialise` | src/outbound_group_session.c:154-174 | Ratchet and key from the random bytes, or a refusal that changes neither |
| `OutboundGroupSession.Session.EncryptRaw` | src/outbound_group_session.c:203-252 | Header, in-place ciphertext, tag and signature end up as one message at the given place, nothing else in memory changes, and the ratchet advances once |
| `OutboundGroupSession.Session.Encrypt` | src/outbound_group_session.c:254-286 | The message built at the end of the buffer and encoded over itself leaves exactly the base64 text of the message, or the call changes nothing |
| `OutboundGroupSession.Session.Key` | src/outbound_group_session.c:324-363 | The same for the signed session key |
| `OutboundGroupSession.RawLengthIsExact` | src/outbound_group_session.c:176-192 | The length reserved is the length of the message |
| `InboundGroupSession.Session.InitKeys` | src/inbound_group_session.c:93-134 | Accepted exactly when version and signature are right; a bad signature leaves both ratchets and the signing key replaced by those of the refused key, and the mark as it was |
| `InboundGroupSession.Session.FromText` | src/inbound_group_session.c:136-181 | The refusals of the two import functions by text length, and otherwise the session the decoded key stands for, or what the refused key leaves behind |
| `InboundGroupSession.Session.GetMegolm` | src/inbound_group_session.c:319-339 | In place on two ratchets: result, cache and refusal as specified, the initial ratchet untouched, and the result at the requested index |
| `InboundGroupSession.Session.DecryptRaw` | src/inbound_group_session.c:344-424 | The in-place decryption is exactly GroupSession.Decrypted in session, result and error, the plaintext is in the caller's memory, and the index is reported as soon as the message reads well; when each outcome is given: GroupSession.UnreadableIsRefused, GroupSession.ReadableOutcome |
| `InboundGroupSession.Session.Decrypt` | src/inbound_group_session.c:426-445 | The same after decoding the message over itself; a length that no encoding has is refused after that decoding, and changes nothing of the session |
| `InboundGroupSession.Session.Export` | src/inbound_group_session.c:485-524 | The text of the key of the ratchet fetched for the index, or the refusal, and what becomes of the session |
| `InboundGroupSession.MessageTextOpens` | src/outbound_group_session.c:254-286 | Through base64: what the sender's encryption writes, a following receiver's decryption opens to the plaintext and index |
| `InboundGroupSession.KeyTextFollows` | src/outbound_group_session.c:324-363 | Through base64: what the sender writes as session key makes the receiver follow |
| `FieldMultiply.ConvolutionIsProduct` | lib/curve25519-donna/curve25519-donna.c:99-200 | The nineteen mixed-radix coefficients stand for the product of the two values |
| `FieldMultiply.FProduct` | lib/curve25519-donna/curve25519-donna.c:99-200 | For limbs below 2^27 no intermediate overflows 64 bits, the result stands for the product, and each coefficient is bounded |
| `FieldMultiply.FSquareInner` | lib/curve25519-donna/curve25519-donna.c:345-407 | The same for the square, with its own shorter formulas |
| `FieldMultiply.FReduceDegree` | lib/curve25519-donna/curve25519-donna.c:206-233 | Folding the upper coefficients by 19 with shifts and adds keeps the value modulo 2^255-19 without overflow |
| `FieldMultiply.DivByTwoTo26` | lib/curve25519-donna/curve25519-donna.c:247-260 | The branch-free shift is division by 2^26 rounded towards zero, for negative operands too |
| `FieldMultiply.DivByTwoTo25` | lib/curve25519-donna/curve25519-donna.c:263-276 | The same for 2^25 |
| `FieldMultiply.FReduceCoefficients` | lib/curve25519-donna/curve25519-donna.c:279-322 | The carry loop and the wrap-around of the top carry keep the value modulo 2^255-19 and leave every limb below 2^26 |
| `FieldMultiply.FMul` | lib/curve25519-donna/curve25519-donna.c:328-337 | For inputs below 2^27: no overflow anywhere, limbs below 2^26, and the product modulo 2^255-19 |
| `FieldMultiply.FSquare` | lib/curve25519-donna/curve25519-donna.c:410-421 | For inputs below 2^27: no overflow anywhere, limbs below 2^26, and the square modulo 2^255-19 |
| `FieldInverse.PowAdd` | lib/curve25519-donna/curve25519-donna.c:776-841 | Exponents add when powers multiply: what turns the chain of products into one power |
| `FieldInverse.SquareTimes` | lib/curve25519-donna/curve25519-donna.c:795-840 | A squaring loop alternating between two buffers raises to the power of two to the n |
| `FieldInverse.CRecip` | lib/curve25519-donna/curve25519-donna.c:776-841 | The whole chain computes z^(p-2), p - 2 = 2^255 - 21, for every z in bounds, every intermediate in bounds |
| `FieldInverse.InverseIfFermat` | lib/curve25519-donna/curve25519-donna.c:776-841 | Where z^n is 1, z^(n-1) is the inverse of z: with n = p-1, what CRecip computes |
| `FieldEncoding.FExpand` | lib/curve25519-donna/curve25519-donna.c:424-442 | The ten limbs are in range and stand for the little-endian number in the bytes, top bit ignored |
| `FieldEncoding.FirstBorrow` | lib/curve25519-donna/curve25519-donna.c:483-510 | The first borrowing pass keeps the value modulo 2^255-19, leaves every limb but the lowest in range, and takes off the lowest nineteen times what is borrowed out of limb 9, at most three |
| `FieldEncoding.BorrowedAtMostOnce` | lib/curve25519-donna/curve25519-donna.c:514-519 | At most one is borrowed out of limb 9 if and only if limb 9, less what limb 8 borrows of it, is at least -2^25 (for non-negative lower limbs: if limb 9 is); at most three in any case |
| `FieldEncoding.ThreeAreBorrowed` | lib/curve25519-donna/curve25519-donna.c:514-519 | Three is reached: limbs 7, 8 and 9 at 1 - 2^26 and the rest 0 leave -57 in the lowest limb |
| `FieldEncoding.SecondBorrowBound` | lib/curve25519-donna/curve25519-donna.c:521-525 | In the second pass each limb takes at most one out of the next, and that only if the lowest was negative |
| `FieldEncoding.SecondBorrow` | lib/curve25519-donna/curve25519-donna.c:483-531 | After the second pass no limb is negative, so that the third borrow finds nothing to do |
| `FieldEncoding.SecondCarry` | lib/curve25519-donna/curve25519-donna.c:535-553 | After both carry passes every limb is in range and the value is kept modulo 2^255-19 |
| `FieldEncoding.S32Eq` | lib/curve25519-donna/curve25519-donna.c:449-457 | The bit-folding comparison is all ones exactly for equal operands, negative ones included |
| `FieldEncoding.S32Gte` | lib/curve25519-donna/curve25519-donna.c:461-466 | The sign-bit comparison is all ones exactly when the first operand is not smaller |
| `FieldEncoding.SubtractOnce` | lib/curve25519-donna/curve25519-donna.c:562-584 | The masked subtraction takes 2^255-19 off exactly when the limbs stand for at least that |
| `FieldEncoding.OrAdds` | lib/curve25519-donna/curve25519-donna.c:594-598 | Or-ing in a limb adds it where the bits do not meet |
| `FieldEncoding.Pack` | lib/curve25519-donna/curve25519-donna.c:586-612 | Shifting and or-ing the limbs writes their little-endian number, limb 4 shifted as a 32-bit pattern |
| `FieldEncoding.FContract` | lib/curve25519-donna/curve25519-donna.c:471-612 | Any limbs below 2^26 are written as the 32 little-endian bytes of the representative in [0, 2^255-19) |
| `FieldEncoding.ContractExpand` | lib/curve25519-donna/curve25519-donna.c:424-612 | Expanding what was contracted gives in-range limbs of exactly that representative |
| `FieldEncoding.PackedIsUnique` | lib/curve25519-donna/curve25519-donna.c:424-442 | Bytes determine the limbs packed in them |
| `FieldEncoding.EncodingIsCanonical` | lib/curve25519-donna/curve25519-donna.c:471-612 | Encodings are equal if and only if the elements are congruent |
| `Varint.VarintRoundTrip` | src/message.cpp:21-62 | A varint reads back as its number, over the bytes it occupies, whatever follows |
| `Varint.ByteAt` | src/message.cpp:34-45 | Byte k carries bits 7k to 7k + 6 of the number, and the high bit unless it is the last |
| `Varint.NoByteTooMany` | src/message.cpp:34-45 | No byte is wasted: the last one is zero only for the number zero |
| `Varint.ValueSplits` | src/message.cpp:48-62 | Of any bytes, complete or not: seven bits each, the first the lowest |
| `Varint.ComputeVarintLength` | src/message.cpp:21-31 | The loop counts the bytes of the varint |
| `Varint.EncodeVarint` | src/message.cpp:34-45 | The writing loop leaves the varint, and nothing else, in memory |
| `Varint.SkipVarint` | src/message.cpp:65-76 | Stops after the first byte without continuation bit, or at the end |
| `Varint.DecodeVarint` | src/message.cpp:48-62 | The value of the varint modulo the width of the result |
| `MessageCodec.ScanSplits` | src/message.cpp:222-239 | Fields before a boundary read the same whatever comes after it |
| `MessageCodec.UnknownFieldIgnored` | src/message.cpp:144-164 | A complete field of an unknown tag put in at any field boundary changes no known field |
| `MessageCodec.UnknownTypeEnds` | src/message.cpp:144-164 | A field of a wire type other than number and text ends the reading |
| `MessageCodec.TextIsRead` | src/message.cpp:126-142 | A text is as long as its length modulo 2^64; one that is cut short is not read and ends the reading |
| `MessageCodec.CutNumberIsRead` | src/message.cpp:110-123 | A number that is cut short is read as what there is of it |
| `MessageCodec.DecodeField` | src/message.cpp:110-142 | Takes the field of its tag if one stands here, as the one-field reference parser reads it, and otherwise nothing |
| `MessageCodec.SkipUnknown` | src/message.cpp:144-164 | Moves past exactly one field, never past the end |
| `MessageCodec.DecodeFields` | src/message.cpp:222-239 | For every byte string the decoding loop ends, stays inside, and holds for each tag the last value the reference parser reads |
| `MessageFormats.LengthsAreExact` | src/message.cpp:169-181 | The three length functions count the bytes of their formats |
| `MessageFormats.MessageLayout` | src/message.cpp:184-197 | The tags and their order, in bytes |
| `MessageFormats.PreKeyMessageLayout` | src/message.cpp:268-283 | The same of a pre-key message |
| `MessageFormats.GroupMessageLayout` | src/message.cpp:350-363 | The same of a group message |
| `MessageFormats.DecodeMessage` | src/message.cpp:200-240 | The reader holds what the reference parser reads |
| `MessageFormats.DecodePreKeyMessage` | src/message.cpp:286-328 | The reader holds what the reference parser reads |
| `MessageFormats.DecodeGroupMessage` | src/message.cpp:365-401 | The reader holds what the reference parser reads |
| `MessageFormats.MessageRoundTrip` | src/message.cpp:184-240 | Version, key, counter and ciphertext come back, at all lengths and counters |
| `MessageFormats.PreKeyMessageRoundTrip` | src/message.cpp:268-328 | Version and the four texts come back |
| `MessageFormats.GroupMessageRoundTrip` | src/message.cpp:350-401 | Version, index and ciphertext come back |
| `MessageFormats.EncodeMessage` | src/message.cpp:184-197 | Writes the headers around two gaps; filled in, it is the format, and nothing else in memory changes |
| `MessageFormats.FilledInMessage` | src/message.cpp:184-197 | Headers with their gaps filled in are the encoded message |
| `MessageFormats.EncodePreKeyMessage` | src/message.cpp:268-283 | The same for the four texts of a pre-key message |
| `MessageFormats.FilledInPreKeyMessage` | src/message.cpp:268-283 | Headers with their gaps filled in are the encoded pre-key message |
| `MessageFormats.EncodeGroupMessage` | src/message.cpp:350-363 | The same for a group message |
| `MessageFormats.FilledInGroupMessage` | src/message.cpp:350-363 | A header with its gap filled in is the encoded group message |
| `Base64.RoundTrip` | src/base64.cpp:54-136 | Decoding the encoding of any bytes gives the bytes, and every encoding is lawful input |
| `Base64.LengthRoundTrip` | src/base64.cpp:48-102 | Each length function undoes the other, and the refused lengths are exactly those no encoding has |
| `Base64.AlphabetIs` | src/base64.cpp:20-30 | Digit v is character v of the sixty-four, written out |
| `Base64.DecodeDigitIs` | src/base64.cpp:33-43 | A byte is read as digit v exactly if its low seven bits are character v, and is lawful exactly if it has seven bits and is read as a digit |
| `Base64.GroupIs` | src/base64.cpp:59-70 | Three bytes become the four digits of their 24-bit number, most significant first |
| `Base64.TailIs` | src/base64.cpp:71-88 | Two bytes become three digits and one byte two, filled up with zero bits at the low end |
| `Base64.EncodeBase64` | src/base64.cpp:54-90 | The loop writes the encoding of what the input was, also when the input lies at the end of the output room and is overwritten on the way |
| `Base64.JoinedIsOr` | src/base64.cpp:114-118 | Or-ing in what the table holds for a byte outside the alphabet sets the low eight bits, and for a digit adds it |
| `Base64.DecodeBase64` | src/base64.cpp:104-136 | The loop writes the decoding of what the input was, whatever its bytes, also over its own input; for a length of 1 modulo 4 the last character is decoded with the byte after the text |
| `Base64.StrayIs` | src/base64.cpp:104-136 | For a length of 1 modulo 4: the whole groups, then one byte made of the last character and the byte after the text, which may by then be the first byte decoded; nothing else in memory changes |
| `Sha256.Context.Update` | lib/crypto-algorithms/sha256.c:100-113 | However the message is cut into updates, the context stands for the whole of it |
| `Sha256.Context.Final` | lib/crypto-algorithms/sha256.c:115-158 | The streamed hash is the compression function folded over the padded message (section 5.1.1 of FIPS 180-4), in both padding cases |
| `Sha256.PaddedIs` | lib/crypto-algorithms/sha256.c:115-145 | The padding bit by bit: a one, the fewest zeros, and the 64-bit length in bits, most significant byte first |
| `Sha256.InitialWords` | lib/crypto-algorithms/sha256.c:86-98 | The initial words are the first 32 bits of the fractional parts of the square roots of the first eight primes (section 5.3.3 of FIPS 180-4) |
| `Sha256.TwoWords` | lib/crypto-algorithms/sha256.c:136-145 | The eight length bytes are the two words of the number, upper word first |
| `Sha256.LastBlocks` | lib/crypto-algorithms/sha256.c:115-138 | The padded message is its whole blocks and then one block or two, by the room left |
| `Sha256.FoldedMore` | lib/crypto-algorithms/sha256.c:100-113 | Hashing one block more applies the compression function once more |
| `Sha256.Output` | lib/crypto-algorithms/sha256.c:147-158 | The digest is the state words, most significant byte first |
| `Hmac.HmacSha256` | src/crypto.cpp:241-254 | The helpers together compute HMAC (section 2 of RFC 2104), long keys hashed first |
| `Hmac.MacIs` | src/crypto.cpp:51-99 | For keys up to a block: the two hashes over the key combined with 0x36 and 0x5C, byte by byte |
| `Hmac.LongKeyIsHashed` | src/crypto.cpp:51-63 | A key longer than a block stands for its hash |
| `Hmac.HkdfSha256` | src/crypto.cpp:257-299 | The loop computes the first L bytes of T(1) | T(2) | ... (section 2.3 of RFC 5869) for every L; past the standard's 255 blocks the octet wraps around |
| `Hmac.HkdfBlock` | src/crypto.cpp:257-299 | Byte for byte: block k of the output is HMAC over the block before, the info and the octet k + 1, under HMAC of the input with the salt, or with 32 zeros |
| `Hmac.Truncated` | src/crypto.cpp:280-295 | Whole blocks and the remaining part are the first L bytes |
| `ExclusiveOr.XorTwice` | src/crypto.cpp:40-48 | Exclusive or undoes itself on bytes |
| `ExclusiveOr.XorIs` | src/crypto.cpp:40-48 | Each of the eight bits of the result is set exactly if one of the two is |
| `Cbc.RoundTrip` | src/crypto.cpp:173-226 | Padded and chained (section 6.3 of RFC 5652, section 6.2 of NIST SP 800-38A), then unchained and unpadded: the plaintext and its length, for every inverse pair of block functions |
| `Cbc.UnchainedChained` | src/crypto.cpp:204-220 | Unchaining undoes chaining |
| `Cbc.ChainedAt` | src/crypto.cpp:173-201 | Every block of ciphertext is the encryption of its plaintext block combined with the ciphertext block before it, the first with the vector |
| `Cbc.UnchainedAt` | src/crypto.cpp:204-220 | Every decrypted block likewise |
| `Cbc.PaddingIs` | src/crypto.cpp:187-199 | One to sixteen bytes, each holding their number, up to a whole block |
| `Cbc.UnpaddedIs` | src/crypto.cpp:221-225 | What the last byte claims is taken off, and refused exactly if it is more than there is |
| `Cbc.EncryptCbc` | src/crypto.cpp:173-201 | The loop and the padded last block write that encryption, also over their own input |
| `Cbc.DecryptCbc` | src/crypto.cpp:204-226 | The loop writes that decryption, also over its own input, and returns the unpadded length or refuses the padding |
| `Cipher.CiphertextOpens` | src/cipher.cpp:64-142 | What was encrypted under a key opens under it, next to the text it was tagged with |
| `Cipher.KeysAreCut` | src/cipher.cpp:31-50 | The three keys joined are the 80 bytes of HKDF without salt, cut at 32 and 64 |
| `Cipher.TagIs` | src/cipher.cpp:52-96 | The tag is the first eight bytes of the HMAC under bytes 32 to 64 of those |
| `Cipher.CiphertextBlock` | src/cipher.cpp:64-96 | Every block of ciphertext, from the first 32 and the last 16 of those bytes |
| `Cipher.OutcomeIs` | src/cipher.cpp:106-142 | Plaintext if and only if the tag is the first eight bytes of HMAC(HKDF(..)[32..64], text), the ciphertext whole blocks, and the padding no longer than it; beyond the ciphertext exactly for a right tag over a wrong length; refused otherwise |
| `Cipher.DeriveKeys` | src/cipher.cpp:31-50 | Eighty derived bytes cut into the three keys |
| `Cipher.EncryptAndTag` | src/cipher.cpp:64-96 | Ciphertext in place, then the tag of all before it at the end of the output; refused for short buffers, with nothing written |
| `Cipher.CheckAndDecrypt` | src/cipher.cpp:106-142 | On any tag but the first eight bytes of the HMAC the input is refused and the memory stays as it was; otherwise the outcome of Cipher.OutcomeIs, and the plaintext in place |
| `Pickle.RoundTrip` | include/self_olm/pickle.hh:60-97 | Whatever follows, an object reads back as it was, every list in order, and exactly its bytes are consumed |
| `Pickle.ItemsRoundTrip` | include/self_olm/pickle.hh:84-97 | Inserting the items one by one at the end rebuilds the list |
| `Pickle.LengthIsExact` | include/self_olm/pickle.hh:60-69 | The length counted beforehand is the length written |
| `Pickle.ShortOfLimitIsComplete` | include/self_olm/pickle.hh:84-97 | A reader that stops short of its limit has read every field in full |
| `Pickle.ItemsAreCounted` | include/self_olm/pickle.hh:84-97 | A list short of its limit has as many items as were declared, or as many as it can hold if more were |
| `Pickle.WrittenAgain` | include/self_olm/pickle.hh:60-97 | What was read short of the limit is written again to the same bytes if and only if every flag byte is 0 or 1 and no list declares more items than it can hold |
| `Pickle.RecordTakes` | src/pickle.cpp:63-70 | A run of fields takes what it needs, or all there is |
| `Pickle.PutWord` | src/pickle.cpp:18-25 | Written from the back, a word lies most significant byte first |
| `Pickle.WordIs` | src/pickle.cpp:28-36 | A word is read most significant byte first; of fewer than four bytes it is zero and takes them all |
| `Pickle.FlagIs` | src/pickle.cpp:46-53 | Any byte but zero is a set flag; a missing one changes nothing |
| `Pickle.BytesAre` | src/pickle.cpp:63-70 | Bytes are read as they are, or not at all, what there is of them being passed over |
| `Pickle.PutObject` | src/pickle.cpp:18-125 | Writing in place leaves exactly the pickled bytes |
| `Pickle.GetItems` | include/self_olm/pickle.hh:84-97 | The list is rebuilt in place as specified, for every input, also for sizes beyond its capacity |
| `Pickle.GetObject` | src/pickle.cpp:28-138 | Reading moves and returns as specified, for every input |
| `PickleEncoding.SealedOpens` | src/pickle_encoding.c:44-92 | What was sealed under a key opens to the raw bytes under it |
| `PickleEncoding.SealedIs` | src/pickle_encoding.c:44-64 | A seal is the ciphertext and the tag over it, both under the key and the info Pickle |
| `PickleEncoding.OpenedIs` | src/pickle_encoding.c:67-92 | Raw bytes come out if and only if the tag is right and before it lie whole blocks with a padding no longer than they are; the other outcomes exactly as well |
| `PickleEncoding.EncOutput` | src/pickle_encoding.c:44-64 | Raw bytes at the position given are encrypted, tagged and encoded in one buffer into the text of their seal |
| `PickleEncoding.EncInput` | src/pickle_encoding.c:67-92 | Decoded and decrypted in one buffer: the error, or the raw bytes at its start |
| `Persistence.StoredObjectsReadBack` | src/session.cpp:442-498 | Sessions (with their ratchet), accounts, outbound and inbound group sessions read back from their pickles, consuming exactly the raw bytes |
| `Persistence.SessionLayout` | src/session.cpp:456-467 | The pickle of a session byte for byte, its three lists each after its count |
| `Persistence.AccountLayout` | src/account.cpp:386-396 | The pickle of an account byte for byte |
| `Persistence.InboundLayout` | src/inbound_group_session.c:202-223 | The pickle of an inbound group session byte for byte |
| `Persistence.OutboundLayout` | src/outbound_group_session.c:88-107 | The pickle of an outbound group session byte for byte |
| `Persistence.ReadIs` | src/olm.cpp:250-305 | Which versions are read of each kind, exactly when each refusal is given, and that a session or account must stop one byte, a group session no byte short of its limit |
| `Persistence.LoggedSessionReadsBack` | src/ratchet.cpp:381-397 | Session pickles of the other branch read back too, with their chain index at the end |
| `Persistence.ReadIsBounded` | include/self_olm/pickle.hh:84-97 | However many items are declared, a session read holds at most 1 sender chain, 5 receiver chains and 40 skipped keys, and an account at most 100000 keys |
| `Persistence.SessionObjectDetermines` | src/ratchet.cpp:358-397 | What is pickled of a session determines every field and every list of it |
| `Persistence.AccountObjectDetermines` | src/account.cpp:374-419 | What is pickled of an account determines every field and every key of it |
| `Persistence.GroupObjectsDetermine` | src/inbound_group_session.c:202-223 | What is pickled of a group session determines it |
| `Persistence.SavedLoads` | src/olm.cpp:218-305 | Pickled, padded, encrypted, tagged and encoded, then decoded, opened and read: the object is back |
| `Persistence.Save` | src/olm.cpp:218-247 | All of that in one buffer, or a refusal that writes nothing |
| `Persistence.Load` | src/olm.cpp:250-305 | In one buffer: the object, or which error |
| `Persistence.LoadedIs` | src/olm.cpp:250-305 | Exactly when a pickled text is refused for its length, and when for its key |
| `Persistence.AcceptedIsComplete` | src/olm.cpp:264-268 | A session or account is accepted only if every field of it was there |
| `Persistence.SavedSession` | src/olm.cpp:234-305 | Whatever session is saved, loading gives that session and no other |
| `Persistence.SavedAccount` | src/olm.cpp:218-276 | Whatever account is saved, loading gives that account and no other |
| `Persistence.AcceptedIsWrittenAgain` | src/session.cpp:436-498 | An accepted session or account is pickled again to the very bytes it was read from if and only if they are of the version that is written, its flags are 0 or 1, and no list declares more items than it can hold |
| `Persistence.LoggedSessionIsConverted` | src/ratchet.cpp:370-397 | A session pickle of the other branch is kept short of its chain index, and pickled again as one of this branch |
| `Persistence.GroupIsWrittenAgain` | src/inbound_group_session.c:202-276 | An accepted group session is pickled again to the bytes it was read from if and only if they are of the version that is written, nothing was cut off, and its flag is 0 or 1; whatever the object held before |
| `Persistence.OldInboundIsConverted` | src/inbound_group_session.c:257-264 | An inbound pickle without the mark of verification is kept as verified, and pickled again with the mark |
| `Persistence.GroupPrefixIsAccepted` | src/inbound_group_session.c:225-276 | Not so for group sessions: every prefix of a pickle that holds the version is accepted, and what is restored is complete if and only if nothing was cut off |

## Left out

- The Montgomery ladder, the group law, primality of 2^255-19, Ed25519, the AES rounds and the SHA-256 compression function: they
  are parameters, any functions with the stated inverse or matching property. That z^(p-2) is the inverse of z needs
  Fermat's theorem, which appears as a premise of InverseIfFermat.
- OlmRatchet.Ratchet.Decrypt: in place on terms. RatchetBytes.DecryptOnBytes carries over to bytes every decryption that opens a message; that
  nothing else opens on bytes is what the terms assume, as is that derived keys differ unless derived alike.
- OlmRatchet.Ratchet.Encrypt: in place on terms; its message on bytes is RatchetBytes.EncryptOnBytes, and OlmMessage.Seal writes it in place.
- OlmSession.Session.Encrypt: likewise; the bytes of a pre-key message are written by OlmPreKeyMessage.SealPreKey.
- OlmSession.Session.Decrypt: starts from a message as its reader shows it; OlmPreKeyMessage.PreKeyOpens is about the reading.
- Conversation.TamperedNeverOpens: the sealing assumption itself, as it bears on one decryption.
- Protocol.OnlyGenuineOpens: rests on that assumption, and on Enabled, by which the network seals nothing itself.
- Protocol.DeliverForgedKeeps: likewise.
- OlmSession.Session.NewInboundSession: once the missing identity key is read, nothing is said of what happens from there on.
- FieldMultiply.FProduct: the nineteen assignments are split over seven methods; FieldMultiply.FSquareInner likewise, and
  FieldInverse.CRecip over four.
- Cipher.CheckAndDecrypt: when the tag is right but the ciphertext is not a positive number of blocks the code reads outside it; the model stops there with an
  outcome of its own, which the group sessions and the pickles pass on.
- MessageFormats.DecodeMessage: an input no longer than its trailer leaves the version of the reader uninitialised; the model shows no version, and
  such a message is refused as of the wrong version.
- FieldInverse.InverseIfFermat: that z^(p-1) is 1 is its premise.
- Base64.DecodeBase64: for a length of 1 modulo 4 there must be a byte of memory after the text, since the code reads it.
- InboundGroupSession.Session.Decrypt: likewise.
- Sha256.Context.Update: one update takes fewer than 2^32 bytes, since the loop counter of the code has 32 bits.
- Pickle.PutObject: the overloads for the types are one interpreter of their layouts; that the layouts are those of the code is stated in
  Persistence, field by field.
- Persistence.Load: into a fresh object; an error left over from earlier calls on the same object is not modelled.
- OlmAccount.Account.GenerateOneTimeKeys: key pairs are given, not computed from the random bytes; accounts' identity JSON, one-time key JSON and signatures are left out.
- Session ids, length queries of the public interface, `describe`, error strings, memory clearing and constant-time behaviour: easy or not about values.
- The second field representation (curve25519-donna-c64), SAS, PK, the bindings and the unused algorithms.
- `List::operator=`: nothing in the core uses it.
