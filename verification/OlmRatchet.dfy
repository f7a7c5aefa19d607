/** The Ratchet object of src/ratchet.cpp: root key, one optional sender chain, at most five
    receiver chains and at most forty skipped keys, all overwritten in place. */
module OlmRatchet {
  import opened Words
  import opened BoundedList
  import opened KeyTerms
  import opened DoubleRatchet
  import opened Sizes
  import MessageFormats
  import OlmMessage

  const MAC_LENGTH: nat := 8

  class Ratchet {
    var rootKey: RootKey
    const senderChain: List<SenderChain>
    const receiverChains: List<ReceiverChain>
    const skippedMessageKeys: List<SkippedMessageKey>
    var lastError: Error

    ghost const repr: set<object>

    ghost predicate Valid()
      reads repr
    {
      && repr == {senderChain, receiverChains, skippedMessageKeys, senderChain.data, receiverChains.data, skippedMessageKeys.data}
      && this !in repr
      && (senderChain as object) != receiverChains && (senderChain as object) != skippedMessageKeys
      && (receiverChains as object) != skippedMessageKeys
      && (senderChain.data as object) != receiverChains.data && (senderChain.data as object) != skippedMessageKeys.data
      && (receiverChains.data as object) != skippedMessageKeys.data
      && {senderChain as object, receiverChains, skippedMessageKeys} !! {senderChain.data as object, receiverChains.data, skippedMessageKeys.data}
      && senderChain.Valid() && receiverChains.Valid() && skippedMessageKeys.Valid()
      && senderChain.data.Length == 1
      && receiverChains.data.Length == MAX_RECEIVER_CHAINS
      && skippedMessageKeys.data.Length == MAX_SKIPPED_MESSAGE_KEYS
    }

    ghost function Value(): (st: State)
      requires Valid()
      reads this, repr
      ensures st.Fits()
    {
      State(rootKey, senderChain.Contents(), receiverChains.Contents(), skippedMessageKeys.Contents())
    }

    constructor ()
      ensures Valid() && fresh(repr)
      ensures Value().sender == [] && Value().receivers == [] && Value().skipped == []
      ensures lastError == NoError
    {
      var s := new List<SenderChain>(1);
      var r := new List<ReceiverChain>(MAX_RECEIVER_CHAINS);
      var k := new List<SkippedMessageKey>(MAX_SKIPPED_MESSAGE_KEYS);
      senderChain, receiverChains, skippedMessageKeys := s, r, k;
      lastError := NoError;
      repr := {s, r, k, s.data, r.data, k.data};
    }

    method InitialiseAsBob(master: MasterSecret, theirRatchetKey: PublicKey)
      requires Valid()
      modifies this`rootKey, repr
      ensures Valid() && Value() == SetUpAsBob(old(Value()), master, theirRatchetKey)
    {
      rootKey := FirstRoot(master);
      var _ := receiverChains.Insert(0, ReceiverChain(theirRatchetKey, ChainKey(0, FirstChain(master))));
    }

    method InitialiseAsAlice(master: MasterSecret, ourRatchetKey: KeyPair)
      requires Valid()
      modifies this`rootKey, repr
      ensures Valid() && Value() == SetUpAsAlice(old(Value()), master, ourRatchetKey)
    {
      rootKey := FirstRoot(master);
      var _ := senderChain.Insert(0, SenderChain(ourRatchetKey, ChainKey(0, FirstChain(master))));
    }

    // ----- encryption

    /** The room of the sealed message. */
    function EncryptOutputLength(plaintextLength: nat): (n: nat)
      requires senderChain.end <= senderChain.data.Length
      reads this, senderChain, senderChain.data
      ensures n == OlmMessage.SealedLength(if senderChain.end == 0 then 0 else senderChain.data[0].chainKey.index, plaintextLength)
    {
      var counter := if senderChain.end == 0 then 0 else senderChain.data[0].chainKey.index;
      MessageFormats.MessageLength(counter, CURVE25519_KEY_LENGTH, plaintextLength + 16 - plaintextLength % 16, MAC_LENGTH)
    }

    function EncryptRandomLength(): nat
      reads senderChain
    {
      if senderChain.end == 0 then CURVE25519_RANDOM_LENGTH else 0
    }

    /** `newKey` is the pair generated from the random bytes, should one be needed. */
    method Encrypt(plaintext: Plaintext, randomLength: nat, newKey: KeyPair, capacity: nat) returns (r: Result<Message>)
      requires Valid()
      requires Value().sender == [] ==> Value().receivers != []
      modifies this`rootKey, this`lastError, repr
      ensures Valid()
      ensures old(EncryptRandomLength()) == if old(Value()).sender == [] then 32 else 0
      ensures randomLength < old(EncryptRandomLength()) ==> r == Failure(NotEnoughRandom)
      ensures randomLength >= old(EncryptRandomLength()) && capacity < old(EncryptOutputLength(|plaintext|)) ==> r == Failure(OutputBufferTooSmall)
      ensures r.Success? <==> randomLength >= old(EncryptRandomLength()) && capacity >= old(EncryptOutputLength(|plaintext|))
      ensures r.Success? ==> (Value(), r.value) == Encrypted(old(Value()), plaintext, newKey) && lastError == old(lastError)
      ensures r.Failure? ==> Value() == old(Value()) && lastError == r.error
    {
      var outputLength := EncryptOutputLength(|plaintext|);
      if randomLength < EncryptRandomLength() {
        lastError := NotEnoughRandom;
        return Failure(lastError);
      }
      if capacity < outputLength {
        lastError := OutputBufferTooSmall;
        return Failure(lastError);
      }
      ghost var before := Value();
      if senderChain.end == 0 {
        var (root, chain) := CreateChainKey(rootKey, newKey, receiverChains.data[0].ratchetKey);
        var at := senderChain.Insert(0, SenderChain(newKey, chain));
        rootKey := root;
      }
      assert Value() == WithSender(before, newKey);
      ghost var mid := Value();
      var SenderChain(pair, chain) := senderChain.data[0];
      var keys := CreateMessageKeys(chain);
      senderChain.data[0] := SenderChain(pair, AdvanceChainKey(chain));
      assert Value() == mid.(sender := [SenderChain(pair, AdvanceChainKey(chain))]);
      r := Success(Message(PROTOCOL_VERSION, Key(pair.Public()), Some(keys.index),
                           Some(Sealed(keys.key, PROTOCOL_VERSION, pair.Public(), keys.index, plaintext))));
    }

    // ----- decryption

    /** Works on a copy of the chain, so that a wrong MAC costs nothing. */
    static method VerifyMacAndDecryptForExistingChain(chain: ChainKey, m: Message) returns (r: Option<Plaintext>)
      requires Complete(m)
      ensures r == OpenOnExistingChain(chain, m)
    {
      var counter := m.counter.value;
      if counter < chain.index {
        return None;
      }
      if counter - chain.index > MAX_MESSAGE_GAP {
        return None;
      }
      var newChain := chain;
      while newChain.index < counter
        invariant chain.index <= newChain.index <= counter
        invariant newChain.key == AdvancedBy(chain.key, newChain.index - chain.index)
      {
        newChain := AdvanceChainKey(newChain);
      }
      r := Open(CreateMessageKeys(newChain).key, m);
    }

    method VerifyMacAndDecryptForNewChain(m: Message) returns (r: Option<Plaintext>)
      requires Valid() && Complete(m)
      ensures r == OpenOnNewChain(Value(), m)
    {
      if senderChain.end == 0 {
        return None;
      }
      if m.counter.value > MAX_MESSAGE_GAP {
        return None;
      }
      var (_, chain) := CreateChainKey(rootKey, senderChain.data[0].ratchetKey, m.ratchetKey.key);
      r := VerifyMacAndDecryptForExistingChain(chain, m);
    }

    method LookUpChain(key: PublicKey) returns (k: nat)
      requires Valid()
      ensures k == FindChain(Value().receivers, key)
    {
      k := 0;
      while k != receiverChains.end && receiverChains.data[k].ratchetKey != key
        invariant k <= receiverChains.end
        invariant forall i :: 0 <= i < k ==> receiverChains.data[i].ratchetKey != key
        decreases receiverChains.end - k
      {
        k := k + 1;
      }
      FindChainIs(receiverChains.Contents(), key, k);
    }

    /** Tries every skipped key of the message's chain and index in turn. */
    method TrySkippedKeys(m: Message) returns (r: Option<Plaintext>)
      requires Valid() && Complete(m)
      modifies repr
      ensures Valid()
      ensures var i := FindSkipped(old(Value()).skipped, m);
              if i == |old(Value()).skipped| then r == None && Value() == old(Value())
              else r == Open(old(Value()).skipped[i].messageKey.key, m) && Value() == old(Value()).(skipped := Erased(old(Value()).skipped, i))
    {
      var k := 0;
      while k != skippedMessageKeys.end
        invariant Valid() && k <= skippedMessageKeys.end && Value() == old(Value())
        invariant forall i :: 0 <= i < k ==> !Opens(skippedMessageKeys.Contents()[i], m)
        decreases skippedMessageKeys.end - k
      {
        var skipped := skippedMessageKeys.data[k];
        if m.counter.value == skipped.messageKey.index && skipped.ratchetKey == m.ratchetKey.key {
          r := Open(skipped.messageKey.key, m);
          if r != None {
            FindSkippedIs(skippedMessageKeys.Contents(), m, k);
            skippedMessageKeys.Erase(k);
            return;
          }
        }
        k := k + 1;
      }
      FindSkippedIs(skippedMessageKeys.Contents(), m, k);
      r := None;
    }

    /** Puts the keys before `counter` aside and steps past it. */
    method AdvanceReceiver(k: nat, counter: uint32)
      requires Valid() && k < receiverChains.end && receiverChains.data[k].chainKey.index <= counter
      modifies repr
      ensures Valid() && Value() == Caught(old(Value()), k, counter)
    {
      hide Inserted;
      ghost var before := Value();
      ghost var start := receiverChains.data[k].chainKey;
      var key := receiverChains.data[k].ratchetKey;
      while receiverChains.data[k].chainKey.index < counter
        invariant Valid() && k < receiverChains.end
        invariant start.index <= receiverChains.data[k].chainKey.index <= counter
        invariant receiverChains.data[k].chainKey.key == AdvancedBy(start.key, receiverChains.data[k].chainKey.index - start.index)
        invariant receiverChains.Contents() == before.receivers[k := ReceiverChain(key, receiverChains.data[k].chainKey)]
        invariant Shelved(skippedMessageKeys.Contents(), key, receiverChains.data[k].chainKey, counter) == Shelved(before.skipped, key, start, counter)
        invariant senderChain.Contents() == before.sender && rootKey == before.rootKey
        decreases counter - receiverChains.data[k].chainKey.index
      {
        var chain := receiverChains.data[k].chainKey;
        var _ := skippedMessageKeys.Insert(0, SkippedMessageKey(key, CreateMessageKeys(chain)));
        receiverChains.data[k] := ReceiverChain(key, AdvanceChainKey(chain));
      }
      receiverChains.data[k] := ReceiverChain(key, AdvanceChainKey(receiverChains.data[k].chainKey));
    }

    method Decrypt(m: Message, capacity: nat) returns (r: Result<Plaintext>)
      requires Valid()
      modifies this`rootKey, this`lastError, repr
      ensures Valid() && (Value(), r) == Decrypted(old(Value()), m, capacity)
      ensures lastError == if r.Failure? then r.error else old(lastError)
    {
      hide FindChain;
      hide FindSkipped;
      hide OpenOnNewChain;
      hide OpenOnExistingChain;
      hide Open;
      hide Caught;
      hide WithNewReceiver;
      hide Erased;
      if m.version != PROTOCOL_VERSION {
        lastError := BadMessageVersion;
        return Failure(lastError);
      }
      if m.counter.None? || m.ratchetKey.Absent? || m.ciphertext.None? {
        lastError := BadMessageFormat;
        return Failure(lastError);
      }
      if capacity < m.ciphertext.value.Length() {
        lastError := OutputBufferTooSmall;
        return Failure(lastError);
      }
      if m.ratchetKey.WrongLength? {
        lastError := BadMessageFormat;
        return Failure(lastError);
      }
      var k := LookUpChain(m.ratchetKey.key);
      var isNew := k == receiverChains.end;
      var result;
      if isNew {
        result := VerifyMacAndDecryptForNewChain(m);
      } else if receiverChains.data[k].chainKey.index > m.counter.value {
        result := TrySkippedKeys(m);
        if result != None {
          return Success(result.value);
        }
      } else {
        result := VerifyMacAndDecryptForExistingChain(receiverChains.data[k].chainKey, m);
      }
      if result == None {
        lastError := BadMessageMac;
        return Failure(lastError);
      }
      if isNew {
        TakeUpChain(m.ratchetKey.key);
        k := 0;
      }
      AdvanceReceiver(k, m.counter.value);
      r := Success(result.value);
    }

    /** The peer has started a new chain: derive it, and drop our own sender chain. */
    method TakeUpChain(key: PublicKey)
      requires Valid() && Value().sender != []
      modifies this`rootKey, repr
      ensures Valid() && Value() == WithNewReceiver(old(Value()), key)
    {
      var (root, chain) := CreateChainKey(rootKey, senderChain.data[0].ratchetKey, key);
      var _ := receiverChains.Insert(0, ReceiverChain(key, chain));
      rootKey := root;
      senderChain.Erase(0);
    }
  }
}
