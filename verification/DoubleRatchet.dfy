/** One end of the double ratchet (src/ratchet.cpp). The functions say what encryption and
    decryption do to the state; the class of OlmRatchet does it in place. */
module DoubleRatchet {
  import opened Words
  import opened BoundedList
  import opened KeyTerms
  import opened Sizes

  const MAX_MESSAGE_GAP: nat := 2000
  const MAX_RECEIVER_CHAINS: nat := 5
  const MAX_SKIPPED_MESSAGE_KEYS: nat := 40

  datatype ChainKey = ChainKey(index: uint32, key: ChainKeyTerm)
  datatype MessageKey = MessageKey(index: uint32, key: MessageKeyTerm)
  datatype SenderChain = SenderChain(ratchetKey: KeyPair, chainKey: ChainKey)
  datatype ReceiverChain = ReceiverChain(ratchetKey: PublicKey, chainKey: ChainKey)
  datatype SkippedMessageKey = SkippedMessageKey(ratchetKey: PublicKey, messageKey: MessageKey)

  datatype State = State(
    rootKey: RootKey,
    sender: seq<SenderChain>,
    receivers: seq<ReceiverChain>,
    skipped: seq<SkippedMessageKey>
  ) {
    predicate Fits() {
      |sender| <= 1 && |receivers| <= MAX_RECEIVER_CHAINS && |skipped| <= MAX_SKIPPED_MESSAGE_KEYS
    }
  }

  /** A message as its reader sees it. */
  datatype Message = Message(
    version: nat,
    ratchetKey: KeyField,
    counter: Option<uint32>,
    ciphertext: Option<Ciphertext>
  )

  datatype Error = NoError | NotEnoughRandom | OutputBufferTooSmall | BadMessageVersion | BadMessageFormat | BadMessageMac | BadMessageKeyId

  datatype Result<+T> = Success(value: T) | Failure(error: Error)

  // ----- chains

  function AdvanceChainKey(chain: ChainKey): ChainKey {
    ChainKey(Wrap32(chain.index + 1), Advanced(chain.key))
  }

  function CreateMessageKeys(chain: ChainKey): MessageKey {
    MessageKey(chain.index, MessageKeyOf(chain.key))
  }

  /** The new root key and the first key of the new chain. */
  function CreateChainKey(root: RootKey, ours: KeyPair, theirs: PublicKey): (RootKey, ChainKey) {
    var secret := SharedSecret(ours, theirs);
    (NextRoot(root, secret), ChainKey(0, NewChain(root, secret)))
  }

  /** The end that starts the conversation, and the end that answers. */
  function InitialisedAsAlice(master: MasterSecret, ourRatchetKey: KeyPair): State {
    State(FirstRoot(master), [SenderChain(ourRatchetKey, ChainKey(0, FirstChain(master)))], [], [])
  }

  function InitialisedAsBob(master: MasterSecret, theirRatchetKey: PublicKey): State {
    State(FirstRoot(master), [], [ReceiverChain(theirRatchetKey, ChainKey(0, FirstChain(master)))], [])
  }

  /** A ratchet that has been set up before keeps its other chains and its skipped keys. */
  function SetUpAsAlice(st: State, master: MasterSecret, ourRatchetKey: KeyPair): (r: State)
    requires st.Fits()
    ensures r.Fits()
    ensures st.sender == [] && st.receivers == [] && st.skipped == [] ==> r == InitialisedAsAlice(master, ourRatchetKey)
  {
    st.(rootKey := FirstRoot(master), sender := [SenderChain(ourRatchetKey, ChainKey(0, FirstChain(master)))])
  }

  function SetUpAsBob(st: State, master: MasterSecret, theirRatchetKey: PublicKey): (r: State)
    requires st.Fits()
    ensures r.Fits()
    ensures st.sender == [] && st.receivers == [] && st.skipped == [] ==> r == InitialisedAsBob(master, theirRatchetKey)
  {
    st.(rootKey := FirstRoot(master),
        receivers := Inserted(st.receivers, MAX_RECEIVER_CHAINS, 0, ReceiverChain(theirRatchetKey, ChainKey(0, FirstChain(master)))))
  }

  /** Whatever was set up before, root key and first chain are those of the master secret. The end that starts keeps its receiver chains and
      skipped keys; the end that answers keeps its sender chain, its skipped keys and the newest four receiver chains behind the new one. */
  lemma SetUpKeeps(st: State, master: MasterSecret, ours: KeyPair, theirs: PublicKey)
    requires st.Fits()
    ensures SetUpAsAlice(st, master, ours)
         == State(FirstRoot(master), [SenderChain(ours, ChainKey(0, FirstChain(master)))], st.receivers, st.skipped)
    ensures SetUpAsBob(st, master, theirs)
         == State(FirstRoot(master), st.sender, [ReceiverChain(theirs, ChainKey(0, FirstChain(master)))]
                  + (if |st.receivers| <= 4 then st.receivers else st.receivers[..4]), st.skipped)
  {
  }

  // ----- encryption

  function WithSender(st: State, newKey: KeyPair): State
    requires st.sender == [] ==> st.receivers != []
  {
    if st.sender != [] then st
    else
      var (root, chain) := CreateChainKey(st.rootKey, newKey, st.receivers[0].ratchetKey);
      st.(rootKey := root, sender := [SenderChain(newKey, chain)])
  }

  function Encrypted(st: State, plaintext: Plaintext, newKey: KeyPair): (State, Message)
    requires st.sender == [] ==> st.receivers != []
  {
    var st1 := WithSender(st, newKey);
    var SenderChain(pair, chain) := st1.sender[0];
    var keys := CreateMessageKeys(chain);
    (st1.(sender := [SenderChain(pair, AdvanceChainKey(chain))]),
     Message(PROTOCOL_VERSION, Key(pair.Public()), Some(keys.index),
             Some(Sealed(keys.key, PROTOCOL_VERSION, pair.Public(), keys.index, plaintext))))
  }

  // ----- decryption

  /** Verifying the MAC and decrypting under a given key. */
  function Open(key: MessageKeyTerm, m: Message): Option<Plaintext>
    requires m.ciphertext.Some?
  {
    match m.ciphertext.value
    case Junk(_) => None
    case Sealed(k, version, ratchetKey, counter, plaintext) =>
      if k == key && version == m.version && Key(ratchetKey) == m.ratchetKey && m.counter.Some? && m.counter.value == counter
      then Some(plaintext) else None
  }

  predicate Complete(m: Message) {
    m.version == PROTOCOL_VERSION && m.ratchetKey.Key? && m.counter.Some? && m.ciphertext.Some?
  }

  function OpenOnExistingChain(chain: ChainKey, m: Message): Option<Plaintext>
    requires Complete(m)
  {
    var counter := m.counter.value;
    if counter < chain.index || counter - chain.index > MAX_MESSAGE_GAP then None
    else Open(MessageKeyOf(AdvancedBy(chain.key, counter - chain.index)), m)
  }

  function OpenOnNewChain(st: State, m: Message): (r: Option<Plaintext>)
    requires Complete(m)
    ensures r.Some? ==> st.sender != []
  {
    if st.sender == [] || m.counter.value > MAX_MESSAGE_GAP then None
    else OpenOnExistingChain(CreateChainKey(st.rootKey, st.sender[0].ratchetKey, m.ratchetKey.key).1, m)
  }

  /** The first receiver chain of a ratchet key, or the number of chains if there is none. */
  function FindChain(receivers: seq<ReceiverChain>, key: PublicKey): (k: nat)
    ensures k <= |receivers|
    ensures k < |receivers| ==> receivers[k].ratchetKey == key
    ensures forall i :: 0 <= i < k ==> receivers[i].ratchetKey != key
  {
    if receivers == [] then 0
    else if receivers[0].ratchetKey == key then 0
    else 1 + FindChain(receivers[1..], key)
  }

  lemma FindChainIs(receivers: seq<ReceiverChain>, key: PublicKey, k: nat)
    requires k <= |receivers|
    requires k < |receivers| ==> receivers[k].ratchetKey == key
    requires forall i :: 0 <= i < k ==> receivers[i].ratchetKey != key
    ensures FindChain(receivers, key) == k
  {
    var f := FindChain(receivers, key);
    assert !(f < k);
    assert !(k < f);
  }

  predicate Opens(e: SkippedMessageKey, m: Message)
    requires Complete(m)
  {
    e.messageKey.index == m.counter.value && e.ratchetKey == m.ratchetKey.key && Open(e.messageKey.key, m).Some?
  }

  /** The first skipped key that opens a message, or the number of keys if none does. */
  function FindSkipped(skipped: seq<SkippedMessageKey>, m: Message): (k: nat)
    requires Complete(m)
    ensures k <= |skipped|
    ensures k < |skipped| ==> Opens(skipped[k], m)
    ensures forall i :: 0 <= i < k ==> !Opens(skipped[i], m)
  {
    if skipped == [] then 0
    else if Opens(skipped[0], m) then 0
    else 1 + FindSkipped(skipped[1..], m)
  }

  lemma FindSkippedIs(skipped: seq<SkippedMessageKey>, m: Message, k: nat)
    requires Complete(m) && k <= |skipped|
    requires k < |skipped| ==> Opens(skipped[k], m)
    requires forall i :: 0 <= i < k ==> !Opens(skipped[i], m)
    ensures FindSkipped(skipped, m) == k
  {
    var f := FindSkipped(skipped, m);
    assert !(f < k);
    assert !(k < f);
  }

  /** The skipped store once every key of a chain below `counter` has been put aside. */
  function Shelved(skipped: seq<SkippedMessageKey>, key: PublicKey, chain: ChainKey, counter: uint32): (r: seq<SkippedMessageKey>)
    requires |skipped| <= MAX_SKIPPED_MESSAGE_KEYS
    ensures |r| <= MAX_SKIPPED_MESSAGE_KEYS
    decreases counter - chain.index
  {
    if chain.index >= counter then skipped
    else
      var e := SkippedMessageKey(key, CreateMessageKeys(chain));
      Shelved(Inserted(skipped, MAX_SKIPPED_MESSAGE_KEYS, 0, e), key, AdvanceChainKey(chain), counter)
  }

  /** The message keys of a chain from its own index up to `counter`, latest first. */
  function KeysBelow(key: PublicKey, chain: ChainKey, counter: uint32): (r: seq<SkippedMessageKey>)
    ensures |r| == if chain.index < counter then counter - chain.index else 0
    decreases counter - chain.index
  {
    if chain.index >= counter then []
    else KeysBelow(key, AdvanceChainKey(chain), counter) + [SkippedMessageKey(key, CreateMessageKeys(chain))]
  }

  /** The k-th of them is the key of the k-th index below the counter, by advancing the chain key so far. */
  lemma {:induction false} KeyBelowAt(key: PublicKey, chain: ChainKey, counter: uint32, k: nat)
    requires k < |KeysBelow(key, chain, counter)|
    ensures var i := counter - 1 - k;
            KeysBelow(key, chain, counter)[k]
            == SkippedMessageKey(key, MessageKey(i, MessageKeyOf(AdvancedBy(chain.key, i - chain.index))))
    decreases counter - chain.index
  {
    if k < counter - chain.index - 1 {
      KeyBelowAt(key, AdvanceChainKey(chain), counter, k);
      AdvancedBySplits(chain.key, 1, counter - 1 - k - chain.index - 1);
    }
  }

  function Front<T>(s: seq<T>): seq<T> {
    if |s| <= MAX_SKIPPED_MESSAGE_KEYS then s else s[..MAX_SKIPPED_MESSAGE_KEYS]
  }

  lemma FrontOfFront<T>(a: seq<T>, b: seq<T>, c: seq<T>)
    ensures Front(a + Front(b + c)) == Front((a + b) + c)
  {
    assert a + (b + c) == (a + b) + c;
    assert |b + c| > MAX_SKIPPED_MESSAGE_KEYS ==>
      (a + Front(b + c))[..MAX_SKIPPED_MESSAGE_KEYS] == (a + (b + c))[..MAX_SKIPPED_MESSAGE_KEYS];
  }

  lemma InsertedIsFront<T>(stored: seq<T>, e: T)
    requires |stored| <= MAX_SKIPPED_MESSAGE_KEYS
    ensures Inserted(stored, MAX_SKIPPED_MESSAGE_KEYS, 0, e) == Front([e] + stored)
  {
  }

  /** What is stored after shelving: the newest forty of the keys shelved, latest first, and those stored before. */
  lemma {:induction false} ShelvedIsFront(skipped: seq<SkippedMessageKey>, key: PublicKey, chain: ChainKey, counter: uint32)
    requires |skipped| <= MAX_SKIPPED_MESSAGE_KEYS
    ensures var all := KeysBelow(key, chain, counter) + skipped;
            Shelved(skipped, key, chain, counter) == Front(all) == if |all| <= 40 then all else all[..40]
    decreases counter - chain.index
  {
    if chain.index < counter {
      var e := SkippedMessageKey(key, CreateMessageKeys(chain));
      var next := AdvanceChainKey(chain);
      ShelvedIsFront(Inserted(skipped, MAX_SKIPPED_MESSAGE_KEYS, 0, e), key, next, counter);
      InsertedIsFront(skipped, e);
      hide Inserted;
      hide Front;
      FrontOfFront(KeysBelow(key, next, counter), [e], skipped);
    }
  }

  /** Chain k moved past `counter`. */
  function Caught(st: State, k: nat, counter: uint32): State
    requires st.Fits() && k < |st.receivers| && st.receivers[k].chainKey.index <= counter
  {
    var ReceiverChain(key, chain) := st.receivers[k];
    var last := ChainKey(counter, AdvancedBy(chain.key, counter - chain.index));
    st.(receivers := st.receivers[k := ReceiverChain(key, AdvanceChainKey(last))],
        skipped := Shelved(st.skipped, key, chain, counter))
  }

  /** The state once the peer's new ratchet key has been taken up. */
  function WithNewReceiver(st: State, key: PublicKey): (r: State)
    requires st.Fits() && st.sender != []
    ensures r.Fits() && r.receivers != [] && r.receivers[0].ratchetKey == key && r.receivers[0].chainKey.index == 0
  {
    var (root, chain) := CreateChainKey(st.rootKey, st.sender[0].ratchetKey, key);
    State(root, [], Inserted(st.receivers, MAX_RECEIVER_CHAINS, 0, ReceiverChain(key, chain)), st.skipped)
  }

  /** The new chain heads the list, at index 0 and with the chain key that our ratchet key and theirs give; of those before it the newest
      four stay. The root key is the next one, and the sender chain is gone. */
  lemma NewReceiverIs(st: State, key: PublicKey)
    requires st.Fits() && st.sender != []
    ensures var r, secret := WithNewReceiver(st, key), SharedSecret(st.sender[0].ratchetKey, key);
            && r.rootKey == NextRoot(st.rootKey, secret) && r.sender == [] && r.skipped == st.skipped
            && r.receivers == [ReceiverChain(key, ChainKey(0, NewChain(st.rootKey, secret)))]
                              + if |st.receivers| <= 4 then st.receivers else st.receivers[..4]
  {
  }

  function Decrypted(st: State, m: Message, capacity: nat): (State, Result<Plaintext>)
    requires st.Fits()
  {
    if m.version != PROTOCOL_VERSION then (st, Failure(BadMessageVersion))
    else if m.counter.None? || m.ratchetKey.Absent? || m.ciphertext.None? then (st, Failure(BadMessageFormat))
    else if capacity < m.ciphertext.value.Length() then (st, Failure(OutputBufferTooSmall))
    else if m.ratchetKey.WrongLength? then (st, Failure(BadMessageFormat))
    else
      var counter := m.counter.value;
      var k := FindChain(st.receivers, m.ratchetKey.key);
      if k == |st.receivers| then
        match OpenOnNewChain(st, m)
        case None => (st, Failure(BadMessageMac))
        case Some(plaintext) => (Caught(WithNewReceiver(st, m.ratchetKey.key), 0, counter), Success(plaintext))
      else if st.receivers[k].chainKey.index > counter then
        var i := FindSkipped(st.skipped, m);
        if i == |st.skipped| then (st, Failure(BadMessageMac))
        else (st.(skipped := Erased(st.skipped, i)), Success(Open(st.skipped[i].messageKey.key, m).value))
      else
        match OpenOnExistingChain(st.receivers[k].chainKey, m)
        case None => (st, Failure(BadMessageMac))
        case Some(plaintext) => (Caught(st, k, counter), Success(plaintext))
  }

  /** The three ways to decrypt a complete message that fits the buffer. */
  lemma DecryptedUnfolds(st: State, m: Message, capacity: nat)
    requires st.Fits() && Complete(m) && m.ciphertext.value.Length() <= capacity
    ensures var k, counter := FindChain(st.receivers, m.ratchetKey.key), m.counter.value;
            Decrypted(st, m, capacity)
            == if k == |st.receivers| then
                 (match OpenOnNewChain(st, m)
                  case None => (st, Failure(BadMessageMac))
                  case Some(plaintext) => (Caught(WithNewReceiver(st, m.ratchetKey.key), 0, counter), Success(plaintext)))
               else if st.receivers[k].chainKey.index > counter then
                 (var i := FindSkipped(st.skipped, m);
                  if i == |st.skipped| then (st, Failure(BadMessageMac))
                  else (st.(skipped := Erased(st.skipped, i)), Success(Open(st.skipped[i].messageKey.key, m).value)))
               else
                 match OpenOnExistingChain(st.receivers[k].chainKey, m)
                 case None => (st, Failure(BadMessageMac))
                 case Some(plaintext) => (Caught(st, k, counter), Success(plaintext))
  {
    hide FindChain;
    hide FindSkipped;
    hide OpenOnExistingChain;
    hide OpenOnNewChain;
    hide Caught;
    hide WithNewReceiver;
  }

  /** Why a message is refused, checked in this order: a version other than 3, a missing field, too little room, a ratchet key of
      the wrong length, and last of all that no key at hand opens it. */
  lemma RefusalsAre(st: State, m: Message, capacity: nat)
    requires st.Fits()
    ensures var r := Decrypted(st, m, capacity).1;
            var there := m.counter.Some? && !m.ratchetKey.Absent? && m.ciphertext.Some?;
            && (r == Failure(BadMessageVersion) <==> m.version != 3)
            && (r == Failure(OutputBufferTooSmall) <==> m.version == 3 && there && capacity < m.ciphertext.value.Length())
            && (r == Failure(BadMessageFormat) <==>
                  m.version == 3 && (!there || (m.ratchetKey.WrongLength? && m.ciphertext.value.Length() <= capacity)))
            && (r.Success? || r == Failure(BadMessageMac) <==>
                  m.version == 3 && there && m.ratchetKey.Key? && m.ciphertext.value.Length() <= capacity)
  {
    hide FindChain;
    hide FindSkipped;
    hide OpenOnExistingChain;
    hide OpenOnNewChain;
    hide Caught;
    hide WithNewReceiver;
  }

  /** A decryption that fails leaves every key, chain and skipped entry as it was. */
  lemma FailureKeepsState(st: State, m: Message, capacity: nat)
    requires st.Fits()
    ensures Decrypted(st, m, capacity).1.Failure? ==> Decrypted(st, m, capacity).0 == st
    ensures Decrypted(st, m, capacity).0.Fits()
  {
  }
}
