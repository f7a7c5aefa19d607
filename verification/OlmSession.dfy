/** Olm sessions (src/session.cpp): set-up by triple Diffie-Hellman, pre-key messages until the
    first answer has been read, and the ratchet in between. */
module OlmSession {
  import opened Words
  import opened BoundedList
  import opened KeyTerms
  import opened DoubleRatchet
  import opened OlmAccount
  import opened Sizes
  import OlmRatchet
  import MessageFormats
  import OlmMessage
  import OlmPreKeyMessage
  import Protocol

  /** A pre-key message as its reader sees it. */
  datatype PreKeyMessage = PreKeyMessage(oneTimeKey: KeyField, baseKey: KeyField, identityKey: KeyField, message: Option<Message>)

  datatype Wire = PreKey(preKey: PreKeyMessage) | Plain(message: Message)

  datatype Identifiers = Identifiers(aliceIdentityKey: PublicKey, aliceBaseKey: PublicKey, bobOneTimeKey: PublicKey)

  const NO_KEY := PublicKey(0)

  // ----- what both sides compute

  /** Alice: identity with one-time key, base with identity, base with one-time key. */
  function AliceMaster(identity: KeyPair, base: KeyPair, bobIdentity: PublicKey, bobOneTime: PublicKey): MasterSecret {
    MasterSecret(SharedSecret(identity, bobOneTime), SharedSecret(base, bobIdentity), SharedSecret(base, bobOneTime))
  }

  function BobMaster(identity: KeyPair, oneTime: KeyPair, aliceIdentity: PublicKey, aliceBase: PublicKey): MasterSecret {
    MasterSecret(SharedSecret(oneTime, aliceIdentity), SharedSecret(identity, aliceBase), SharedSecret(oneTime, aliceBase))
  }

  lemma MastersAgree(aliceIdentity: KeyPair, base: KeyPair, bobIdentity: KeyPair, oneTime: KeyPair)
    ensures AliceMaster(aliceIdentity, base, bobIdentity.Public(), oneTime.Public())
         == BobMaster(bobIdentity, oneTime, aliceIdentity.Public(), base.Public())
  {
  }

  // ----- checking a pre-key message

  predicate FieldsOk(m: PreKeyMessage, haveTheirIdentityKey: bool) {
    && (haveTheirIdentityKey || !m.identityKey.Absent?)
    && !m.identityKey.WrongLength?
    && m.message.Some? && m.baseKey.Key? && m.oneTimeKey.Key?
  }

  function Matches(ids: Identifiers, theirs: Option<PublicKey>, m: PreKeyMessage): bool {
    && FieldsOk(m, theirs.Some?)
    && (m.identityKey.Key? ==> m.identityKey.key == ids.aliceIdentityKey)
    && (theirs.Some? ==> theirs.value == ids.aliceIdentityKey)
    && m.baseKey.key == ids.aliceBaseKey
    && m.oneTimeKey.key == ids.bobOneTimeKey
  }

  /** A message matches a session if and only if it holds an inner message, its base key and its one-time key are those on record, and
      every identity key shown or passed is the one on record, at least one being shown or passed. */
  lemma MatchesIs(ids: Identifiers, theirs: Option<PublicKey>, m: PreKeyMessage)
    ensures Matches(ids, theirs, m)
       <==> && m.message.Some? && m.baseKey == Key(ids.aliceBaseKey) && m.oneTimeKey == Key(ids.bobOneTimeKey)
            && (theirs == None || theirs == Some(ids.aliceIdentityKey))
            && (m.identityKey == Key(ids.aliceIdentityKey) || (m.identityKey == Absent && theirs.Some?))
  {
  }

  /** What comes of setting up an inbound session. An identity key that the message does not carry is read
      all the same, through a null pointer: nothing is said of what happens from there on. */
  datatype SetUp = Ready | Refused(error: Error) | ReadsMissingKey

  /** Which identifiers are on record by then, and the outcome. */
  function InboundSetUp(ids: Identifiers, keys: seq<OneTimeKey>, theirs: Option<PublicKey>, m: PreKeyMessage): (r: (Identifiers, SetUp))
    ensures r.1 == ReadsMissingKey
       <==> theirs.Some? && m.identityKey.Absent? && m.message.Some? && m.baseKey.Key? && m.oneTimeKey.Key?
    ensures r.1.Ready? ==>
      && m.identityKey.Key? && m.baseKey.Key? && m.oneTimeKey.Key? && FindKey(keys, m.oneTimeKey.key) < |keys|
      && m.message.Some? && m.message.value.ratchetKey.Key?
  {
    if !FieldsOk(m, theirs.Some?) then (ids, Refused(BadMessageFormat))
    else if m.identityKey.Absent? then (ids, ReadsMissingKey)
    else if theirs.Some? && theirs.value != m.identityKey.key then (ids, Refused(BadMessageKeyId))
    else
      var recorded := Identifiers(m.identityKey.key, m.baseKey.key, m.oneTimeKey.key);
      if !m.message.value.ratchetKey.Key? then (recorded, Refused(BadMessageFormat))
      else if FindKey(keys, m.oneTimeKey.key) == |keys| then (recorded, Refused(BadMessageKeyId))
      else (recorded, Ready)
  }

  /** The fields that must be there: an inner message, a base key and a one-time key of the right length, and an identity key of the
      right length unless the caller knows it, in which case it may be left out. */
  predicate Readable(theirs: Option<PublicKey>, m: PreKeyMessage) {
    && m.message.Some? && m.baseKey.Key? && m.oneTimeKey.Key?
    && (m.identityKey.Key? || (m.identityKey == Absent && theirs.Some?))
  }

  /** When each refusal is given, and what is on record by then: the identifiers of the message as soon as its identity key has
      not been found to differ from the caller's. */
  lemma SetUpIs(ids: Identifiers, keys: seq<OneTimeKey>, theirs: Option<PublicKey>, m: PreKeyMessage)
    ensures var (recorded, r) := InboundSetUp(ids, keys, theirs, m);
            var other := theirs.Some? && m.identityKey.Key? && m.identityKey != Key(theirs.value);
            var taken := Readable(theirs, m) && m.identityKey.Key? && !other;
            var ours := m.oneTimeKey.Key? && exists k :: 0 <= k < |keys| && keys[k].key.Public() == m.oneTimeKey.key;
            && (r == ReadsMissingKey <==> Readable(theirs, m) && m.identityKey == Absent)
            && (r == Refused(BadMessageFormat) <==> !Readable(theirs, m) || (taken && !m.message.value.ratchetKey.Key?))
            && (r == Refused(BadMessageKeyId) <==>
                  (Readable(theirs, m) && other) || (taken && m.message.value.ratchetKey.Key? && !ours))
            && (r == Ready <==> taken && m.message.value.ratchetKey.Key? && ours)
            && recorded == if taken then Identifiers(m.identityKey.key, m.baseKey.key, m.oneTimeKey.key) else ids
  {
    hide FindKey;
    if m.oneTimeKey.Key? {
      var k := FindKey(keys, m.oneTimeKey.key);
    }
  }

  class Session {
    const ratchet: OlmRatchet.Ratchet
    var lastError: Error
    var receivedMessage: bool
    var ids: Identifiers

    ghost predicate Valid()
      reads this, ratchet, ratchet.repr
    {
      ratchet.Valid() && this !in ratchet.repr
    }

    /** Nothing has been set up yet. */
    ghost predicate Blank()
      requires Valid()
      reads this, ratchet, ratchet.repr
    {
      ratchet.Value().sender == [] && ratchet.Value().receivers == [] && ratchet.Value().skipped == [] && !receivedMessage
    }

    constructor ()
      ensures Valid() && Blank() && fresh(ratchet) && fresh(ratchet.repr)
      ensures lastError == NoError
    {
      lastError := NoError;
      receivedMessage := false;
      ids := Identifiers(NO_KEY, NO_KEY, NO_KEY);
      ratchet := new OlmRatchet.Ratchet();
    }

    method NewOutboundSession(account: Account, identityKey: PublicKey, oneTimeKey: PublicKey,
                              baseKey: KeyPair, ratchetKey: KeyPair, randomLength: nat) returns (ok: bool)
      requires Valid()
      modifies this, ratchet`rootKey, ratchet.repr
      ensures Valid() && ok == (randomLength >= 64)
      ensures !ok ==>
        lastError == NotEnoughRandom && ratchet.Value() == old(ratchet.Value()) && ids == old(ids) && receivedMessage == old(receivedMessage)
      ensures ok ==>
        && ids == Identifiers(account.identityKey.Public(), baseKey.Public(), oneTimeKey) && !receivedMessage
        && ratchet.Value() == SetUpAsAlice(old(ratchet.Value()), AliceMaster(account.identityKey, baseKey, identityKey, oneTimeKey), ratchetKey)
    {
      if randomLength < 2 * CURVE25519_RANDOM_LENGTH {
        lastError := NotEnoughRandom;
        return false;
      }
      receivedMessage := false;
      var ours := account.identityKey;
      ids := Identifiers(ours.Public(), baseKey.Public(), oneTimeKey);
      var first := SharedSecret(ours, oneTimeKey);
      var second := SharedSecret(baseKey, identityKey);
      var third := SharedSecret(baseKey, oneTimeKey);
      ratchet.InitialiseAsAlice(MasterSecret(first, second, third), ratchetKey);
      ok := true;
    }

    /** The identity key in the message is read even if the caller knows the key already. */
    method NewInboundSession(account: Account, theirs: Option<PublicKey>, m: PreKeyMessage) returns (r: SetUp)
      requires Valid() && account.Valid()
      modifies this, ratchet`rootKey, ratchet.repr
      ensures Valid()
      ensures (ids, r) == InboundSetUp(old(ids), old(account.Keys()), theirs, m)
      ensures receivedMessage == old(receivedMessage) && (!r.Ready? ==> ratchet.Value() == old(ratchet.Value()))
      ensures r.Refused? ==> lastError == r.error
      ensures r.Ready? ==>
        var key := old(account.Keys())[FindKey(old(account.Keys()), m.oneTimeKey.key)].key;
        ratchet.Value() == SetUpAsBob(old(ratchet.Value()), BobMaster(old(account.identityKey), key, m.identityKey.key, m.baseKey.key),
                                      m.message.value.ratchetKey.key)
    {
      if !CheckMessageFields(m, theirs.Some?) {
        lastError := BadMessageFormat;
        return Refused(BadMessageFormat);
      }
      if m.identityKey.Key? && theirs.Some? {
        if theirs.value != m.identityKey.key {
          lastError := BadMessageKeyId;
          return Refused(BadMessageKeyId);
        }
      }
      if m.identityKey.Absent? {
        return ReadsMissingKey;
      }
      ids := Identifiers(m.identityKey.key, m.baseKey.key, m.oneTimeKey.key);
      if !m.message.value.ratchetKey.Key? {
        lastError := BadMessageFormat;
        return Refused(BadMessageFormat);
      }
      var ours := account.LookupKey(ids.bobOneTimeKey);
      if ours == None {
        lastError := BadMessageKeyId;
        return Refused(BadMessageKeyId);
      }
      var first := SharedSecret(ours.value.key, ids.aliceIdentityKey);
      var second := SharedSecret(account.identityKey, ids.aliceBaseKey);
      var third := SharedSecret(ours.value.key, ids.aliceBaseKey);
      ratchet.InitialiseAsBob(MasterSecret(first, second, third), m.message.value.ratchetKey.key);
      r := Ready;
    }

    /** The conjunction as the library builds it up. */
    static function CheckMessageFields(m: PreKeyMessage, haveTheirIdentityKey: bool): (ok: bool)
      ensures ok == FieldsOk(m, haveTheirIdentityKey)
    {
      var ok := haveTheirIdentityKey || !m.identityKey.Absent?;
      var ok := if !m.identityKey.Absent? then ok && m.identityKey.Key? else ok;
      var ok := ok && m.message.Some?;
      var ok := ok && !m.baseKey.Absent?;
      var ok := ok && m.baseKey.Key?;
      var ok := ok && !m.oneTimeKey.Absent?;
      ok && m.oneTimeKey.Key?
    }

    method MatchesInboundSession(theirs: Option<PublicKey>, m: PreKeyMessage) returns (same: bool)
      ensures same == Matches(ids, theirs, m)
    {
      if !CheckMessageFields(m, theirs.Some?) {
        return false;
      }
      same := true;
      if m.identityKey.Key? {
        same := same && m.identityKey.key == ids.aliceIdentityKey;
      }
      if theirs.Some? {
        same := same && theirs.value == ids.aliceIdentityKey;
      }
      same := same && m.baseKey.key == ids.aliceBaseKey;
      same := same && m.oneTimeKey.key == ids.bobOneTimeKey;
    }

    /** The room of the message that is sent: a pre-key message around the sealed one until something has been received. */
    function EncryptMessageLength(plaintextLength: nat): (n: nat)
      requires ratchet.senderChain.end <= ratchet.senderChain.data.Length
      reads this, ratchet, ratchet.senderChain, ratchet.senderChain.data
      ensures var counter := if ratchet.senderChain.end == 0 then 0 else ratchet.senderChain.data[0].chainKey.index;
              n == if receivedMessage then OlmMessage.SealedLength(counter, plaintextLength)
                   else OlmPreKeyMessage.SealedPreKeyLength(counter, plaintextLength)
    {
      var length := ratchet.EncryptOutputLength(plaintextLength);
      if receivedMessage then length
      else MessageFormats.PreKeyMessageLength(CURVE25519_KEY_LENGTH, CURVE25519_KEY_LENGTH,
                                              CURVE25519_KEY_LENGTH, length)
    }

    /** A pre-key message until something has been received, a plain one from then on. */
    method Encrypt(plaintext: Plaintext, randomLength: nat, newKey: KeyPair, messageLength: nat) returns (r: Result<Wire>)
      requires Valid()
      requires ratchet.Value().sender == [] ==> ratchet.Value().receivers != []
      modifies this`lastError, ratchet`rootKey, ratchet`lastError, ratchet.repr
      ensures Valid()
      ensures messageLength < old(EncryptMessageLength(|plaintext|)) ==> r == Failure(OutputBufferTooSmall)
      ensures messageLength >= old(EncryptMessageLength(|plaintext|)) ==>
        if randomLength < old(ratchet.EncryptRandomLength()) then r == Failure(NotEnoughRandom) else r.Success?
      ensures r.Failure? ==> lastError == r.error && ratchet.Value() == old(ratchet.Value())
      ensures r.Success? ==>
        var (state, m) := Encrypted(old(ratchet.Value()), plaintext, newKey);
        && ratchet.Value() == state
        && r.value == if receivedMessage then Plain(m)
                      else PreKey(PreKeyMessage(Key(ids.bobOneTimeKey), Key(ids.aliceBaseKey), Key(ids.aliceIdentityKey), Some(m)))
    {
      if messageLength < EncryptMessageLength(|plaintext|) {
        lastError := OutputBufferTooSmall;
        return Failure(OutputBufferTooSmall);
      }
      var length := ratchet.EncryptOutputLength(|plaintext|);
      var inner := ratchet.Encrypt(plaintext, randomLength, newKey, length);
      if inner.Failure? {
        lastError := ratchet.lastError;
        ratchet.lastError := NoError;
        return Failure(lastError);
      }
      r := Success(if receivedMessage then Plain(inner.value)
                   else PreKey(PreKeyMessage(Key(ids.bobOneTimeKey), Key(ids.aliceBaseKey), Key(ids.aliceIdentityKey), Some(inner.value))));
    }

    method Decrypt(wire: Wire, capacity: nat) returns (r: Result<Plaintext>)
      requires Valid()
      modifies this`lastError, this`receivedMessage, ratchet`rootKey, ratchet`lastError, ratchet.repr
      ensures Valid()
      ensures wire.PreKey? && wire.preKey.message.None? ==> r == Failure(BadMessageFormat) && ratchet.Value() == old(ratchet.Value())
      ensures !(wire.PreKey? && wire.preKey.message.None?) ==>
        (ratchet.Value(), r) == Decrypted(old(ratchet.Value()), if wire.Plain? then wire.message else wire.preKey.message.value, capacity)
      ensures receivedMessage == (old(receivedMessage) || r.Success?)
      ensures r.Failure? ==> lastError == r.error && ratchet.Value() == old(ratchet.Value())
    {
      var body;
      if wire.Plain? {
        body := wire.message;
      } else {
        if wire.preKey.message.None? {
          lastError := BadMessageFormat;
          return Failure(BadMessageFormat);
        }
        body := wire.preKey.message.value;
      }
      FailureKeepsState(ratchet.Value(), body, capacity);
      r := ratchet.Decrypt(body, capacity);
      if r.Failure? {
        lastError := ratchet.lastError;
        ratchet.lastError := NoError;
        return r;
      }
      receivedMessage := true;
    }
  }

  // ----- set-up agrees

  /** Alice's ratchet once she has sent some messages and received none. */
  function OutboundState(master: MasterSecret, ratchetKey: KeyPair, plaintexts: seq<Plaintext>): (st: State)
    ensures st.sender != []
    decreases |plaintexts|
  {
    if plaintexts == [] then InitialisedAsAlice(master, ratchetKey)
    else
      Encrypted(OutboundState(master, ratchetKey, plaintexts[..|plaintexts| - 1]), plaintexts[|plaintexts| - 1], ratchetKey).0
  }

  /** However much Alice has sent before being answered, her messages carry her first ratchet key. */
  lemma {:induction false} OutboundKeepsRatchetKey(master: MasterSecret, ratchetKey: KeyPair, plaintexts: seq<Plaintext>, next: Plaintext, newKey: KeyPair)
    ensures OutboundState(master, ratchetKey, plaintexts).sender[0].ratchetKey == ratchetKey
    ensures Encrypted(OutboundState(master, ratchetKey, plaintexts), next, newKey).1.ratchetKey == Key(ratchetKey.Public())
    decreases |plaintexts|
  {
    if plaintexts != [] {
      OutboundKeepsRatchetKey(master, ratchetKey, plaintexts[..|plaintexts| - 1], plaintexts[|plaintexts| - 1], ratchetKey);
    }
  }

  /** Any pre-key message of a matching outbound session, whichever arrives first, sets up the
      other end of the same conversation: same identifiers, same master secret, and a ratchet
      that is Bob's end of the protocol that Alice has started. */
  lemma SetUpAgrees(aliceIdentity: KeyPair, base: KeyPair, ratchetKey: KeyPair, bobIdentity: KeyPair, keys: seq<OneTimeKey>, k: nat,
                    plaintexts: seq<Plaintext>, next: Plaintext, theirs: Option<PublicKey>, blank: Identifiers)
    requires k < |keys| && forall j :: 0 <= j < |keys| && keys[j].key.Public() == keys[k].key.Public() ==> j == k
    requires theirs == None || theirs == Some(aliceIdentity.Public())
    ensures var oneTime := keys[k].key;
            var master := AliceMaster(aliceIdentity, base, bobIdentity.Public(), oneTime.Public());
            var ids := Identifiers(aliceIdentity.Public(), base.Public(), oneTime.Public());
            var sent := Encrypted(OutboundState(master, ratchetKey, plaintexts), next, ratchetKey).1;
            var m := PreKeyMessage(Key(ids.bobOneTimeKey), Key(ids.aliceBaseKey), Key(ids.aliceIdentityKey), Some(sent));
            var start := Protocol.Start(master, ratchetKey.id);
            && InboundSetUp(blank, keys, theirs, m) == (ids, Ready)
            && keys[FindKey(keys, m.oneTimeKey.key)].key == oneTime
            && BobMaster(bobIdentity, oneTime, m.identityKey.key, m.baseKey.key) == master
            && Matches(ids, theirs, m)
            && InitialisedAsAlice(master, ratchetKey) == start.alice.state
            && InitialisedAsBob(master, sent.ratchetKey.key) == start.bob.state
            && Protocol.Invariant(start)
    {
      var oneTime := keys[k].key;
      var master := AliceMaster(aliceIdentity, base, bobIdentity.Public(), oneTime.Public());
      OutboundKeepsRatchetKey(master, ratchetKey, plaintexts, next, ratchetKey);
      FindKeyIs(keys, oneTime.Public(), k);
      MastersAgree(aliceIdentity, base, bobIdentity, oneTime);
      Protocol.StartIsFine(master, ratchetKey.id);
    }

  /** A pre-key message of an outbound session matches the session set up from another if and only if identity key, base key and
      one-time key are all the same. */
  lemma OnlyItsOwnMatches(identity: KeyPair, base: KeyPair, oneTime: PublicKey, identity': KeyPair, base': KeyPair, oneTime': PublicKey,
                          master: MasterSecret, ratchetKey: KeyPair, plaintexts: seq<Plaintext>, next: Plaintext, theirs: Option<PublicKey>)
    requires theirs == None || theirs == Some(identity.Public())
    ensures var ids := Identifiers(identity.Public(), base.Public(), oneTime);
            var sent := Encrypted(OutboundState(master, ratchetKey, plaintexts), next, ratchetKey).1;
            var m := PreKeyMessage(Key(oneTime'), Key(base'.Public()), Key(identity'.Public()), Some(sent));
            Matches(ids, theirs, m) <==> identity' == identity && base' == base && oneTime' == oneTime
  {
    var sent := Encrypted(OutboundState(master, ratchetKey, plaintexts), next, ratchetKey).1;
    MatchesIs(Identifiers(identity.Public(), base.Public(), oneTime), theirs,
              PreKeyMessage(Key(oneTime'), Key(base'.Public()), Key(identity'.Public()), Some(sent)));
  }
}
