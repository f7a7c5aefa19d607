/** One end of the double ratchet on bytes (src/ratchet.cpp). The functions of DoubleRatchet work on keys as terms;
    here the keys are what HKDF, HMAC and Diffie-Hellman make of them, and messages are the bytes on the wire. Encrypting
    does to the bytes what it does to the terms, and so does every decryption that opens a message: no assumption
    about what a MAC withstands is needed for that half. */
module RatchetBytes {
  import opened Words
  import opened BoundedList
  import opened Hmac
  import opened Cipher
  import opened MessageCodec
  import opened MessageFormats
  import opened OlmMessage
  import opened Sizes
  import Cbc
  import T = KeyTerms
  import R = DoubleRatchet

  type Key32 = k: seq<byte> | |k| == 32 witness seq(32, _ => 0)

  datatype CurvePair = CurvePair(public: Key32, private: Key32)

  /** Curve25519: the public half of a private key, and the secret of a private key and another's public half. */
  datatype Curve = Curve(publicOf: Key32 -> Key32, secret: (Key32, Key32) -> Key32)

  ghost predicate Commutes(curve: Curve) {
    forall x: Key32, y: Key32 :: curve.secret(x, curve.publicOf(y)) == curve.secret(y, curve.publicOf(x))
  }

  /** "OLM_ROOT", "OLM_RATCHET" */
  const ROOT_INFO: seq<byte> := [0x4F, 0x4C, 0x4D, 0x5F, 0x52, 0x4F, 0x4F, 0x54]
  const RATCHET_INFO: seq<byte> := [0x4F, 0x4C, 0x4D, 0x5F, 0x52, 0x41, 0x54, 0x43, 0x48, 0x45, 0x54]

  const MESSAGE_KEY_SEED: seq<byte> := [1]
  const CHAIN_KEY_SEED: seq<byte> := [2]

  datatype Sender = Sender(ratchetKey: CurvePair, key: Key32, index: uint32)

  /** A receiver chain, or a skipped message key: both are a ratchet key, a shared key and an index. */
  datatype Indexed = Indexed(ratchetKey: Key32, key: Key32, index: uint32)

  datatype Ratchet = Ratchet(rootKey: Key32, senders: seq<Sender>, receivers: seq<Indexed>, skipped: seq<Indexed>) {
    predicate Fits() {
      |senders| <= 1 && |receivers| <= R.MAX_RECEIVER_CHAINS && |skipped| <= R.MAX_SKIPPED_MESSAGE_KEYS
    }
  }

  // ----- keys

  /** A root key and a chain key, of 64 derived bytes. */
  function Derived(p: Primitives, input: seq<byte>, salt: Option<seq<byte>>, info: seq<byte>): (Key32, Key32) {
    var d := Hkdf(p.compress, input, salt, info, 64);
    (d[..32], d[32..])
  }

  function CreateChainKey(p: Primitives, curve: Curve, root: Key32, ours: CurvePair, theirs: Key32): (Key32, Key32) {
    Derived(p, curve.secret(ours.private, theirs), Some(root), RATCHET_INFO)
  }

  function NextChainKey(p: Primitives, key: Key32): Key32 {
    Mac(p.compress, key, CHAIN_KEY_SEED)
  }

  function MessageKey(p: Primitives, key: Key32): Key32 {
    Mac(p.compress, key, MESSAGE_KEY_SEED)
  }

  function KeyAfter(p: Primitives, key: Key32, n: nat): Key32 {
    if n == 0 then key else NextChainKey(p, KeyAfter(p, key, n - 1))
  }

  /** A chain key is followed by its HMAC with the byte 2, and gives as message key its HMAC with the byte 1. */
  lemma ChainSteps(p: Primitives, key: Key32, n: nat)
    ensures KeyAfter(p, key, 0) == key
    ensures KeyAfter(p, key, n + 1) == Mac(p.compress, KeyAfter(p, key, n), [2])
    ensures MessageKey(p, key) == Mac(p.compress, key, [1])
  {
  }

  /** Root key and chain key are the 64 bytes that HKDF makes of the shared secret, salted with the root key before,
      under the info "OLM_RATCHET". */
  lemma ChainKeyCreated(p: Primitives, curve: Curve, root: Key32, ours: CurvePair, theirs: Key32)
    ensures var (next, chain) := CreateChainKey(p, curve, root, ours, theirs);
            var okm: seq<byte> := next;
            okm + chain
            == Hkdf(p.compress, curve.secret(ours.private, theirs), Some(root),
                    [0x4F, 0x4C, 0x4D, 0x5F, 0x52, 0x41, 0x54, 0x43, 0x48, 0x45, 0x54], 64)
  {
    hide Hkdf;
  }

  /** What a session is set up from. */
  function ThreeSecrets(first: seq<byte>, second: seq<byte>, third: seq<byte>): seq<byte> {
    first + second + third
  }

  // ----- encryption

  function WithSender(p: Primitives, curve: Curve, r: Ratchet, newKey: CurvePair): Ratchet
    requires r.senders == [] ==> r.receivers != []
  {
    if r.senders != [] then r
    else
      var (root, chain) := CreateChainKey(p, curve, r.rootKey, newKey, r.receivers[0].ratchetKey);
      r.(rootKey := root, senders := [Sender(newKey, chain, 0)])
  }

  /** The ratchet afterwards, and the message as it is written. */
  function Encrypted(p: Primitives, curve: Curve, r: Ratchet, plaintext: seq<byte>, newKey: CurvePair): (Ratchet, seq<byte>)
    requires r.senders == [] ==> r.receivers != []
  {
    var r1 := WithSender(p, curve, r, newKey);
    var Sender(pair, key, index) := r1.senders[0];
    (r1.(senders := [Sender(pair, NextChainKey(p, key), Wrap32(index + 1))]),
     SealedMessage(p, MessageKey(p, key), pair.public, index, plaintext))
  }

  /** Of a ratchet with a sender chain, encryption takes the message key from the chain key at hand, seals under it, and leaves the
      chain one key and one index on. */
  lemma SendsOnChain(p: Primitives, curve: Curve, r: Ratchet, plaintext: seq<byte>, newKey: CurvePair)
    requires |r.senders| == 1
    ensures var (after, raw) := Encrypted(p, curve, r, plaintext, newKey);
            var c := r.senders[0];
            && after == r.(senders := [Sender(c.ratchetKey, Mac(p.compress, c.key, [2]), (c.index + 1) % 0x1_0000_0000)])
            && raw == SealedMessage(p, Mac(p.compress, c.key, [1]), c.ratchetKey.public, c.index, plaintext)
  {
    hide SealedMessage;
    hide Mac;
  }

  /** Without one, it first derives root and chain from the new key and the newest key of the peer. */
  lemma SendsOnNewChain(p: Primitives, curve: Curve, r: Ratchet, plaintext: seq<byte>, newKey: CurvePair, okm: seq<byte>)
    requires r.senders == [] && r.receivers != []
    requires okm == Hkdf(p.compress, curve.secret(newKey.private, r.receivers[0].ratchetKey), Some(r.rootKey),
                         [0x4F, 0x4C, 0x4D, 0x5F, 0x52, 0x41, 0x54, 0x43, 0x48, 0x45, 0x54], 64)
    ensures var (after, raw) := Encrypted(p, curve, r, plaintext, newKey);
            && after == r.(rootKey := okm[..32], senders := [Sender(newKey, Mac(p.compress, okm[32..], [2]), 1)])
            && raw == SealedMessage(p, Mac(p.compress, okm[32..], [1]), newKey.public, 0, plaintext)
  {
    hide SealedMessage;
    hide Mac;
    hide Hkdf;
  }

  // ----- decryption

  /** Closed when the tag or the padding is wrong; Beyond where the code reads outside the ciphertext. */
  datatype Opening = Opened(plaintext: seq<byte>) | Closed | Beyond

  datatype Result = Plain(plaintext: seq<byte>) | Failed(error: R.Error) | BeyondInput

  function Open(p: Primitives, key: Key32, raw: seq<byte>, ciphertext: seq<byte>): Opening {
    if |raw| < MAC_LENGTH then Closed
    else
      var n := |raw| - MAC_LENGTH;
      match OutcomeOf(p, OLM_INFO, key, raw[..n], raw[n..], ciphertext)
      case Refused => Closed
      case BeyondCiphertext => Beyond
      case Plaintext(length) => Opened(DecryptedBlocks(p, OLM_INFO, key, ciphertext)[..length])
  }

  function OpenOnExistingChain(p: Primitives, key: Key32, index: uint32, raw: seq<byte>, counter: uint32, ciphertext: seq<byte>): Opening
  {
    if counter < index || counter - index > R.MAX_MESSAGE_GAP then Closed
    else Open(p, MessageKey(p, KeyAfter(p, key, counter - index)), raw, ciphertext)
  }

  function OpenOnNewChain(p: Primitives, curve: Curve, r: Ratchet, raw: seq<byte>, ratchetKey: Key32, counter: uint32,
                          ciphertext: seq<byte>): (o: Opening)
    ensures o != Closed ==> r.senders != []
  {
    if r.senders == [] || counter > R.MAX_MESSAGE_GAP then Closed
    else
      var chain := CreateChainKey(p, curve, r.rootKey, r.senders[0].ratchetKey, ratchetKey).1;
      OpenOnExistingChain(p, chain, 0, raw, counter, ciphertext)
  }

  function FindChain(receivers: seq<Indexed>, ratchetKey: Key32): (k: nat)
    ensures k <= |receivers|
    ensures k < |receivers| ==> receivers[k].ratchetKey == ratchetKey
    ensures forall i :: 0 <= i < k ==> receivers[i].ratchetKey != ratchetKey
  {
    if receivers == [] then 0 else if receivers[0].ratchetKey == ratchetKey then 0 else 1 + FindChain(receivers[1..], ratchetKey)
  }

  predicate IsFor(e: Indexed, ratchetKey: Key32, counter: uint32) {
    e.index == counter && e.ratchetKey == ratchetKey
  }

  predicate Takes(p: Primitives, e: Indexed, raw: seq<byte>, ratchetKey: Key32, counter: uint32, ciphertext: seq<byte>) {
    IsFor(e, ratchetKey, counter) && Open(p, e.key, raw, ciphertext) != Closed
  }

  function FirstThat(s: seq<Indexed>, f: Indexed -> bool): (k: nat)
    ensures k <= |s|
    ensures k < |s| ==> f(s[k])
    ensures forall i :: 0 <= i < k ==> !f(s[i])
  {
    if s == [] then 0 else if f(s[0]) then 0 else 1 + FirstThat(s[1..], f)
  }

  /** The first skipped key for the message that does not refuse it, or the number of keys. */
  function FindSkipped(p: Primitives, skipped: seq<Indexed>, raw: seq<byte>, ratchetKey: Key32, counter: uint32,
                       ciphertext: seq<byte>): (k: nat)
    ensures k <= |skipped|
  {
    FirstThat(skipped, (e: Indexed) => Takes(p, e, raw, ratchetKey, counter, ciphertext))
  }

  lemma FindSkippedIs(p: Primitives, skipped: seq<Indexed>, raw: seq<byte>, ratchetKey: Key32, counter: uint32, ciphertext: seq<byte>, k: nat)
    requires k < |skipped| && Takes(p, skipped[k], raw, ratchetKey, counter, ciphertext)
    requires forall i :: 0 <= i < k ==> !Takes(p, skipped[i], raw, ratchetKey, counter, ciphertext)
    ensures FindSkipped(p, skipped, raw, ratchetKey, counter, ciphertext) == k
  {
    hide Takes;
    var j := FindSkipped(p, skipped, raw, ratchetKey, counter, ciphertext);
    assert !(j < k);
    assert !(k < j);
  }

  function Shelved(p: Primitives, skipped: seq<Indexed>, ratchetKey: Key32, key: Key32, index: uint32, counter: uint32): (r: seq<Indexed>)
    requires |skipped| <= R.MAX_SKIPPED_MESSAGE_KEYS
    ensures |r| <= R.MAX_SKIPPED_MESSAGE_KEYS
    decreases counter - index
  {
    if index >= counter then skipped
    else
      var e := Indexed(ratchetKey, MessageKey(p, key), index);
      Shelved(p, Inserted(skipped, R.MAX_SKIPPED_MESSAGE_KEYS, 0, e), ratchetKey, NextChainKey(p, key), index + 1, counter)
  }

  /** Chain k moved past `counter`. */
  function Caught(p: Primitives, r: Ratchet, k: nat, counter: uint32): Ratchet
    requires r.Fits() && k < |r.receivers| && r.receivers[k].index <= counter
  {
    var Indexed(ratchetKey, key, index) := r.receivers[k];
    r.(receivers := r.receivers[k := Indexed(ratchetKey, NextChainKey(p, KeyAfter(p, key, counter - index)), Wrap32(counter + 1))],
       skipped := Shelved(p, r.skipped, ratchetKey, key, index, counter))
  }

  function WithNewReceiver(p: Primitives, curve: Curve, r: Ratchet, ratchetKey: Key32): (w: Ratchet)
    requires r.Fits() && r.senders != []
    ensures w.Fits() && w.receivers != [] && w.receivers[0].index == 0
  {
    var (root, chain) := CreateChainKey(p, curve, r.rootKey, r.senders[0].ratchetKey, ratchetKey);
    Ratchet(root, [], Inserted(r.receivers, R.MAX_RECEIVER_CHAINS, 0, Indexed(ratchetKey, chain, 0)), r.skipped)
  }

  /** The new chain heads the list, at index 0; of those before it the newest four stay. Root key and chain key are the 64 bytes derived from
      our ratchet key and theirs, and the sender chain is gone. */
  lemma NewReceiverIs(p: Primitives, curve: Curve, r: Ratchet, ratchetKey: Key32, okm: seq<byte>)
    requires r.Fits() && r.senders != []
    requires okm == Hkdf(p.compress, curve.secret(r.senders[0].ratchetKey.private, ratchetKey), Some(r.rootKey),
                         [0x4F, 0x4C, 0x4D, 0x5F, 0x52, 0x41, 0x54, 0x43, 0x48, 0x45, 0x54], 64)
    ensures WithNewReceiver(p, curve, r, ratchetKey)
         == Ratchet(okm[..32], [], [Indexed(ratchetKey, okm[32..], 0)] + if |r.receivers| <= 4 then r.receivers else r.receivers[..4], r.skipped)
  {
    hide Hkdf;
  }

  function DecryptedOf(p: Primitives, curve: Curve, r: Ratchet, raw: seq<byte>, ratchetKey: Key32, counter: uint32,
                       ciphertext: seq<byte>): (Ratchet, Result)
    requires r.Fits()
  {
    var k := FindChain(r.receivers, ratchetKey);
    if k == |r.receivers| then
      match OpenOnNewChain(p, curve, r, raw, ratchetKey, counter, ciphertext)
      case Closed => (r, Failed(R.BadMessageMac))
      case Beyond => (r, BeyondInput)
      case Opened(plaintext) => (Caught(p, WithNewReceiver(p, curve, r, ratchetKey), 0, counter), Plain(plaintext))
    else if r.receivers[k].index > counter then
      var i := FindSkipped(p, r.skipped, raw, ratchetKey, counter, ciphertext);
      if i == |r.skipped| then (r, Failed(R.BadMessageMac))
      else
        match Open(p, r.skipped[i].key, raw, ciphertext)
        case Opened(plaintext) => (r.(skipped := Erased(r.skipped, i)), Plain(plaintext))
        case _ => (r, BeyondInput)
    else
      match OpenOnExistingChain(p, r.receivers[k].key, r.receivers[k].index, raw, counter, ciphertext)
      case Closed => (r, Failed(R.BadMessageMac))
      case Beyond => (r, BeyondInput)
      case Opened(plaintext) => (Caught(p, r, k, counter), Plain(plaintext))
  }

  /** The ratchet after reading any bytes, and what comes of them. */
  function Decrypted(p: Primitives, curve: Curve, r: Ratchet, raw: seq<byte>, room: nat): (Ratchet, Result)
    requires r.Fits()
  {
    if |raw| <= MAC_LENGTH || raw[0] != PROTOCOL_VERSION then (r, Failed(R.BadMessageVersion))
    else
      var fields := Scan(raw[1..|raw| - MAC_LENGTH]);
      match (Last(fields, RATCHET_KEY_TAG), Last(fields, COUNTER_TAG), Last(fields, CIPHERTEXT_TAG))
      case (Some(Text(ratchetKey)), Some(Number(counter)), Some(Text(ciphertext))) =>
        if room < |ciphertext| then (r, Failed(R.OutputBufferTooSmall))
        else if |ratchetKey| != CURVE25519_KEY_LENGTH then (r, Failed(R.BadMessageFormat))
        else DecryptedOf(p, curve, r, raw, ratchetKey, Wrap32(counter), ciphertext)
      case _ => (r, Failed(R.BadMessageFormat))
  }

  // ----- what is refused

  /** Why a message is refused before any key is tried. */
  lemma UnreadableIsRefused(p: Primitives, curve: Curve, r: Ratchet, raw: seq<byte>, room: nat)
    requires r.Fits()
    ensures var o := Decrypted(p, curve, r, raw, room).1;
            var known := |raw| > 8 && raw[0] == 3;
            var fields := if known then Scan(raw[1..|raw| - 8]) else [];
            var key, counter, c := Last(fields, 0x0A), Last(fields, 0x10), Last(fields, 0x22);
            var there := key.Some? && key.value.Text? && counter.Some? && counter.value.Number? && c.Some? && c.value.Text?;
            && (o == Failed(R.BadMessageVersion) <==> !known)
            && (o == Failed(R.OutputBufferTooSmall) <==> known && there && room < |c.value.bytes|)
            && (o == Failed(R.BadMessageFormat) <==> known && (!there || (|c.value.bytes| <= room && |key.value.bytes| != 32)))
            && (!o.Plain? ==> Decrypted(p, curve, r, raw, room).0 == r)
  {
    hide Scan;
    hide Last;
    hide FindChain;
    hide FindSkipped;
    hide Open;
    hide OpenOnExistingChain;
    hide OpenOnNewChain;
    hide Caught;
    hide WithNewReceiver;
    hide Erased;
  }

  /** The info "OLM_KEYS". */
  ghost predicate TaggedUnder(p: Primitives, key: seq<byte>, raw: seq<byte>) {
    |raw| >= 8 && Tagged(p, [0x4F, 0x4C, 0x4D, 0x5F, 0x4B, 0x45, 0x59, 0x53], key, raw[..|raw| - 8], raw[|raw| - 8..])
  }

  /** What one key makes of a message: plaintext if and only if the tag is right, the ciphertext is a positive number of blocks, and its
      padding no longer than it; the code reads beyond the ciphertext if the tag is right and there are no such blocks. */
  lemma OpenIs(p: Primitives, key: Key32, raw: seq<byte>, c: seq<byte>)
    ensures var o, tagged, whole := Open(p, key, raw, c), TaggedUnder(p, key, raw), |c| > 0 && |c| % 16 == 0;
            && (o.Opened? <==> tagged && whole && DecryptedBlocks(p, OLM_INFO, key, c)[|c| - 1] <= |c|)
            && (o.Opened? ==> var s := DecryptedBlocks(p, OLM_INFO, key, c); o.plaintext == s[..|c| - s[|c| - 1] as int])
            && (o.Beyond? <==> tagged && !whole)
  {
    hide OutcomeOf;
    hide DecryptedBlocks;
    hide Tagged;
    if |raw| >= 8 {
      OutcomeIs(p, OLM_INFO, key, raw[..|raw| - 8], raw[|raw| - 8..], c);
    }
  }

  /** A message key that the ratchet has for a ratchet key and counter: a skipped one, or that of the chain of the ratchet key, advanced by at
      most 2000, or that of the chain newly derived from the ratchet key if there is none yet. */
  ghost predicate AtHand(p: Primitives, curve: Curve, r: Ratchet, ratchetKey: Key32, counter: uint32, key: Key32) {
    || (exists i :: 0 <= i < |r.skipped| && r.skipped[i] == Indexed(ratchetKey, key, counter))
    || (exists k :: 0 <= k < |r.receivers| && r.receivers[k].ratchetKey == ratchetKey && r.receivers[k].index <= counter
                    && counter - r.receivers[k].index <= 2000
                    && key == Mac(p.compress, KeyAfter(p, r.receivers[k].key, counter - r.receivers[k].index), [1]))
    || (r.senders != [] && counter <= 2000 && (forall k :: 0 <= k < |r.receivers| ==> r.receivers[k].ratchetKey != ratchetKey)
        && key == Mac(p.compress, KeyAfter(p, CreateChainKey(p, curve, r.rootKey, r.senders[0].ratchetKey, ratchetKey).1, counter), [1]))
  }

  /** Whatever opens is tagged under a message key at hand, and is what that key makes of the ciphertext. */
  lemma OpenedIsTagged(p: Primitives, curve: Curve, r: Ratchet, raw: seq<byte>, ratchetKey: Key32, counter: uint32, c: seq<byte>) returns (key: Key32)
    requires r.Fits() && DecryptedOf(p, curve, r, raw, ratchetKey, counter, c).1.Plain?
    ensures TaggedUnder(p, key, raw) && AtHand(p, curve, r, ratchetKey, counter, key)
    ensures Open(p, key, raw, c) == Opened(DecryptedOf(p, curve, r, raw, ratchetKey, counter, c).1.plaintext)
  {
    hide Open;
    hide Caught;
    hide WithNewReceiver;
    hide Erased;
    hide TaggedUnder;
    hide Mac;
    hide KeyAfter;
    hide CreateChainKey;
    hide FindSkipped;
    var k := FindChain(r.receivers, ratchetKey);
    if k == |r.receivers| {
      key := MessageKey(p, KeyAfter(p, CreateChainKey(p, curve, r.rootKey, r.senders[0].ratchetKey, ratchetKey).1, counter));
    } else if r.receivers[k].index > counter {
      var i := FindSkipped(p, r.skipped, raw, ratchetKey, counter, c);
      FindSkippedTakes(p, r.skipped, raw, ratchetKey, counter, c);
      key := r.skipped[i].key;
      assert r.skipped[i] == Indexed(ratchetKey, key, counter);
    } else {
      key := MessageKey(p, KeyAfter(p, r.receivers[k].key, counter - r.receivers[k].index));
    }
    OpenIs(p, key, raw, c);
  }

  lemma FindSkippedTakes(p: Primitives, skipped: seq<Indexed>, raw: seq<byte>, ratchetKey: Key32, counter: uint32, c: seq<byte>)
    requires FindSkipped(p, skipped, raw, ratchetKey, counter, c) < |skipped|
    ensures IsFor(skipped[FindSkipped(p, skipped, raw, ratchetKey, counter, c)], ratchetKey, counter)
  {
    hide Open;
  }

  /** Of a whole message: what opens starts with 3, carries the tag of a message key at hand for the ratchet key and counter it shows, and is
      what that key makes of the ciphertext it shows. */
  lemma PlainIsTagged(p: Primitives, curve: Curve, r: Ratchet, raw: seq<byte>, room: nat) returns (key: Key32)
    requires r.Fits() && Decrypted(p, curve, r, raw, room).1.Plain?
    ensures |raw| > 8 && raw[0] == 3 && TaggedUnder(p, key, raw)
    ensures var fields := Scan(raw[1..|raw| - 8]);
            var ratchetKey, counter, c := Last(fields, 0x0A), Last(fields, 0x10), Last(fields, 0x22);
            && ratchetKey.Some? && ratchetKey.value.Text? && |ratchetKey.value.bytes| == 32
            && counter.Some? && counter.value.Number? && c.Some? && c.value.Text?
            && AtHand(p, curve, r, ratchetKey.value.bytes, counter.value.value % 0x1_0000_0000, key)
            && Open(p, key, raw, c.value.bytes) == Opened(Decrypted(p, curve, r, raw, room).1.plaintext)
  {
    hide DecryptedOf;
    hide Scan;
    hide Last;
    hide TaggedUnder;
    hide AtHand;
    hide Open;
    var fields := Scan(raw[1..|raw| - MAC_LENGTH]);
    key := OpenedIsTagged(p, curve, r, raw, Last(fields, RATCHET_KEY_TAG).value.bytes, Wrap32(Last(fields, COUNTER_TAG).value.value),
                          Last(fields, CIPHERTEXT_TAG).value.bytes);
  }

  // ----- what terms stand for

  /** The primitives, the curve, and the private keys that numbered key pairs stand for. */
  datatype Meaning = Meaning(p: Primitives, curve: Curve, privateOf: nat -> Key32)

  function Public(m: Meaning, key: T.PublicKey): Key32 {
    m.curve.publicOf(m.privateOf(key.id))
  }

  function Pair(m: Meaning, pair: T.KeyPair): CurvePair {
    CurvePair(Public(m, pair.Public()), m.privateOf(pair.id))
  }

  function SecretBytes(m: Meaning, s: T.Secret): Key32 {
    m.curve.secret(m.privateOf(s.low), m.curve.publicOf(m.privateOf(s.high)))
  }

  function MasterBytes(m: Meaning, master: T.MasterSecret): seq<byte> {
    ThreeSecrets(SecretBytes(m, master.first), SecretBytes(m, master.second), SecretBytes(m, master.third))
  }

  function RootBytes(m: Meaning, root: T.RootKey): Key32 {
    match root
    case FirstRoot(master) => Derived(m.p, MasterBytes(m, master), None, ROOT_INFO).0
    case NextRoot(previous, secret) => Derived(m.p, SecretBytes(m, secret), Some(RootBytes(m, previous)), RATCHET_INFO).0
  }

  function ChainBytes(m: Meaning, chain: T.ChainKeyTerm): Key32 {
    match chain
    case FirstChain(master) => Derived(m.p, MasterBytes(m, master), None, ROOT_INFO).1
    case NewChain(root, secret) => Derived(m.p, SecretBytes(m, secret), Some(RootBytes(m, root)), RATCHET_INFO).1
    case Advanced(previous) => NextChainKey(m.p, ChainBytes(m, previous))
  }

  function MessageKeyBytes(m: Meaning, key: T.MessageKeyTerm): Key32 {
    MessageKey(m.p, ChainBytes(m, key.chain))
  }

  function SenderBytes(m: Meaning, c: R.SenderChain): Sender {
    Sender(Pair(m, c.ratchetKey), ChainBytes(m, c.chainKey.key), c.chainKey.index)
  }

  function ReceiverBytes(m: Meaning, c: R.ReceiverChain): Indexed {
    Indexed(Public(m, c.ratchetKey), ChainBytes(m, c.chainKey.key), c.chainKey.index)
  }

  function SkippedBytes(m: Meaning, e: R.SkippedMessageKey): Indexed {
    Indexed(Public(m, e.ratchetKey), MessageKeyBytes(m, e.messageKey.key), e.messageKey.index)
  }

  function Receivers(m: Meaning, s: seq<R.ReceiverChain>): (r: seq<Indexed>)
    ensures |r| == |s| && forall k :: 0 <= k < |s| ==> r[k] == ReceiverBytes(m, s[k])
  {
    seq(|s|, k requires 0 <= k < |s| => ReceiverBytes(m, s[k]))
  }

  function Skipped(m: Meaning, s: seq<R.SkippedMessageKey>): (r: seq<Indexed>)
    ensures |r| == |s| && forall k :: 0 <= k < |s| ==> r[k] == SkippedBytes(m, s[k])
  {
    seq(|s|, k requires 0 <= k < |s| => SkippedBytes(m, s[k]))
  }

  /** The bytes held by an end in the given state. */
  function Held(m: Meaning, st: R.State): (r: Ratchet)
    requires st.Fits()
    ensures r.Fits()
  {
    Ratchet(RootBytes(m, st.rootKey), if st.sender == [] then [] else [SenderBytes(m, st.sender[0])],
            Receivers(m, st.receivers), Skipped(m, st.skipped))
  }

  /** A message with a sealed body, as it is written. */
  predicate Carries(msg: R.Message) {
    R.Complete(msg) && msg.ciphertext.value.Sealed?
  }

  function MessageBytes(m: Meaning, msg: R.Message): seq<byte>
    requires Carries(msg)
  {
    var c := msg.ciphertext.value;
    SealedMessage(m.p, MessageKeyBytes(m, c.key), Public(m, msg.ratchetKey.key), msg.counter.value, c.plaintext)
  }

  // ----- deriving keys does to bytes what it does to terms

  /** Either side computes the secret that the term stands for. */
  lemma SharedSecretOnBytes(m: Meaning, ours: T.KeyPair, theirs: T.PublicKey)
    requires Commutes(m.curve)
    ensures SecretBytes(m, T.SharedSecret(ours, theirs)) == m.curve.secret(Pair(m, ours).private, Public(m, theirs))
  {
  }

  lemma CreateChainKeyOnBytes(m: Meaning, root: T.RootKey, ours: T.KeyPair, theirs: T.PublicKey)
    requires Commutes(m.curve)
    ensures var (next, chain) := R.CreateChainKey(root, ours, theirs);
            chain.index == 0
            && (RootBytes(m, next), ChainBytes(m, chain.key)) == CreateChainKey(m.p, m.curve, RootBytes(m, root), Pair(m, ours), Public(m, theirs))
  {
    hide Derived;
    SharedSecretOnBytes(m, ours, theirs);
  }

  lemma AdvancedOnBytes(m: Meaning, chain: T.ChainKeyTerm)
    ensures ChainBytes(m, T.Advanced(chain)) == NextChainKey(m.p, ChainBytes(m, chain))
  {
    hide NextChainKey;
    hide Derived;
    hide RootBytes;
    hide MasterBytes;
  }

  lemma {:induction false} KeyAfterOnBytes(m: Meaning, chain: T.ChainKeyTerm, n: nat)
    ensures ChainBytes(m, T.AdvancedBy(chain, n)) == KeyAfter(m.p, ChainBytes(m, chain), n)
  {
    hide NextChainKey;
    hide ChainBytes;
    if n > 0 {
      AdvancedOnBytes(m, T.AdvancedBy(chain, n - 1));
      KeyAfterOnBytes(m, chain, n - 1);
    }
  }

  /** Both ends set up hold the two halves of 64 bytes derived from the three secrets, under the info "OLM_ROOT". */
  lemma SetUpOnBytes(m: Meaning, master: T.MasterSecret, ours: T.KeyPair, theirs: T.PublicKey)
    ensures var okm := Hkdf(m.p.compress, MasterBytes(m, master), None, [0x4F, 0x4C, 0x4D, 0x5F, 0x52, 0x4F, 0x4F, 0x54], 64);
            var root, chain := okm[..32], okm[32..];
            && Held(m, R.InitialisedAsAlice(master, ours)) == Ratchet(root, [Sender(Pair(m, ours), chain, 0)], [], [])
            && Held(m, R.InitialisedAsBob(master, theirs)) == Ratchet(root, [], [Indexed(Public(m, theirs), chain, 0)], [])
  {
    hide Hkdf;
  }

  lemma ReceiverInserted(m: Meaning, s: seq<R.ReceiverChain>, e: R.ReceiverChain)
    requires |s| <= R.MAX_RECEIVER_CHAINS
    ensures Receivers(m, Inserted(s, R.MAX_RECEIVER_CHAINS, 0, e)) == Inserted(Receivers(m, s), R.MAX_RECEIVER_CHAINS, 0, ReceiverBytes(m, e))
  {
    hide ReceiverBytes;
    hide Receivers;
    InsertedFront(s, R.MAX_RECEIVER_CHAINS, e);
    InsertedFront(Receivers(m, s), R.MAX_RECEIVER_CHAINS, ReceiverBytes(m, e));
  }

  lemma SkippedInserted(m: Meaning, s: seq<R.SkippedMessageKey>, e: R.SkippedMessageKey)
    requires |s| <= R.MAX_SKIPPED_MESSAGE_KEYS
    ensures Skipped(m, Inserted(s, R.MAX_SKIPPED_MESSAGE_KEYS, 0, e)) == Inserted(Skipped(m, s), R.MAX_SKIPPED_MESSAGE_KEYS, 0, SkippedBytes(m, e))
  {
    hide SkippedBytes;
    hide Skipped;
    InsertedFront(s, R.MAX_SKIPPED_MESSAGE_KEYS, e);
    InsertedFront(Skipped(m, s), R.MAX_SKIPPED_MESSAGE_KEYS, SkippedBytes(m, e));
  }

  lemma SkippedErased(m: Meaning, s: seq<R.SkippedMessageKey>, i: nat)
    requires i < |s|
    ensures Skipped(m, Erased(s, i)) == Erased(Skipped(m, s), i)
  {
    hide SkippedBytes;
    hide Skipped;
  }

  lemma {:induction false} ShelvedOnBytes(m: Meaning, skipped: seq<R.SkippedMessageKey>, key: T.PublicKey, chain: R.ChainKey, counter: uint32)
    requires |skipped| <= R.MAX_SKIPPED_MESSAGE_KEYS
    ensures Skipped(m, R.Shelved(skipped, key, chain, counter))
         == Shelved(m.p, Skipped(m, skipped), Public(m, key), ChainBytes(m, chain.key), chain.index, counter)
    decreases counter - chain.index
  {
    hide Inserted;
    hide Skipped;
    hide NextChainKey;
    hide MessageKey;
    hide ChainBytes;
    hide Public;
    if chain.index < counter {
      AdvancedOnBytes(m, chain.key);
      var e := R.SkippedMessageKey(key, R.CreateMessageKeys(chain));
      SkippedInserted(m, skipped, e);
      ShelvedOnBytes(m, Inserted(skipped, R.MAX_SKIPPED_MESSAGE_KEYS, 0, e), key, R.AdvanceChainKey(chain), counter);
    }
  }

  lemma ReceiverCaughtOnBytes(m: Meaning, c: R.ReceiverChain, counter: uint32)
    requires c.chainKey.index <= counter
    ensures var last := R.ChainKey(counter, T.AdvancedBy(c.chainKey.key, counter - c.chainKey.index));
            ReceiverBytes(m, R.ReceiverChain(c.ratchetKey, R.AdvanceChainKey(last)))
            == Indexed(Public(m, c.ratchetKey), NextChainKey(m.p, KeyAfter(m.p, ChainBytes(m, c.chainKey.key), counter - c.chainKey.index)),
                       Wrap32(counter + 1))
  {
    hide *;
    var n := counter - c.chainKey.index;
    KeyAfterOnBytes(m, c.chainKey.key, n);
    ReceiverAdvanced(m, c.ratchetKey, counter, T.AdvancedBy(c.chainKey.key, n), KeyAfter(m.p, ChainBytes(m, c.chainKey.key), n));
  }

  lemma ReceiverAdvanced(m: Meaning, ratchetKey: T.PublicKey, index: uint32, term: T.ChainKeyTerm, key: Key32)
    requires ChainBytes(m, term) == key
    ensures ReceiverBytes(m, R.ReceiverChain(ratchetKey, R.AdvanceChainKey(R.ChainKey(index, term))))
         == Indexed(Public(m, ratchetKey), NextChainKey(m.p, key), Wrap32(index + 1))
  {
    AdvancedOnBytes(m, term);
    hide ChainBytes;
    hide NextChainKey;
    hide Public;
  }

  lemma CaughtOnBytes(m: Meaning, st: R.State, k: nat, counter: uint32)
    requires st.Fits() && k < |st.receivers| && st.receivers[k].chainKey.index <= counter
    ensures Held(m, R.Caught(st, k, counter)) == Caught(m.p, Held(m, st), k, counter)
  {
    hide RootBytes;
    hide ChainBytes;
    hide Receivers;
    hide Skipped;
    hide NextChainKey;
    hide KeyAfter;
    hide R.Shelved;
    hide Shelved;
    var c := st.receivers[k];
    ShelvedOnBytes(m, st.skipped, c.ratchetKey, c.chainKey, counter);
    ReceiverCaughtOnBytes(m, c, counter);
    ReceiverChanged(m, st.receivers, k, R.Caught(st, k, counter).receivers[k]);
  }

  lemma ReceiverChanged(m: Meaning, s: seq<R.ReceiverChain>, k: nat, c: R.ReceiverChain)
    requires k < |s|
    ensures Receivers(m, s[k := c]) == Receivers(m, s)[k := ReceiverBytes(m, c)]
  {
    hide ReceiverBytes;
    hide Receivers;
  }

  lemma NewReceiverOnBytes(m: Meaning, st: R.State, key: T.PublicKey)
    requires Commutes(m.curve) && st.Fits() && st.sender != []
    ensures Held(m, R.WithNewReceiver(st, key)) == WithNewReceiver(m.p, m.curve, Held(m, st), Public(m, key))
  {
    hide CreateChainKey;
    hide Inserted;
    hide Receivers;
    hide Skipped;
    CreateChainKeyOnBytes(m, st.rootKey, st.sender[0].ratchetKey, key);
    hide R.CreateChainKey;
    hide RootBytes;
    hide ChainBytes;
    ReceiverInserted(m, st.receivers, R.ReceiverChain(key, R.CreateChainKey(st.rootKey, st.sender[0].ratchetKey, key).1));
  }

  // ----- encrypting

  lemma WithSenderOnBytes(m: Meaning, st: R.State, newKey: T.KeyPair)
    requires Commutes(m.curve) && st.Fits() && (st.sender == [] ==> st.receivers != [])
    ensures R.WithSender(st, newKey).Fits() && R.WithSender(st, newKey).sender != []
    ensures Held(m, R.WithSender(st, newKey)) == WithSender(m.p, m.curve, Held(m, st), Pair(m, newKey))
  {
    hide CreateChainKey;
    hide Receivers;
    hide Skipped;
    if st.sender == [] {
      CreateChainKeyOnBytes(m, st.rootKey, newKey, st.receivers[0].ratchetKey);
      assert Receivers(m, st.receivers)[0] == ReceiverBytes(m, st.receivers[0]);
      hide RootBytes;
      hide ChainBytes;
    }
  }

  /** Encrypting does to the bytes held what it does to the terms, and writes the bytes of the message. */
  lemma EncryptOnBytes(m: Meaning, st: R.State, plaintext: seq<byte>, newKey: T.KeyPair)
    requires Commutes(m.curve) && st.Fits() && (st.sender == [] ==> st.receivers != [])
    ensures var (after, msg) := R.Encrypted(st, plaintext, newKey);
            && after.Fits() && Carries(msg)
            && Encrypted(m.p, m.curve, Held(m, st), plaintext, Pair(m, newKey)) == (Held(m, after), MessageBytes(m, msg))
  {
    hide *;
    var st1 := R.WithSender(st, newKey);
    HeldShape(m, st);
    WithSenderOnBytes(m, st, newKey);
    SenderMoves(m, st1);
    MessageSent(m, st1.sender[0], plaintext);
    EncryptedUnfolds(m.p, m.curve, Held(m, st), plaintext, Pair(m, newKey));
    TermsEncrypted(st, plaintext, newKey);
  }

  lemma HeldShape(m: Meaning, st: R.State)
    requires st.Fits()
    ensures Held(m, st).senders == [] <==> st.sender == []
    ensures Held(m, st).receivers == [] <==> st.receivers == []
  {
    hide RootBytes;
    hide SenderBytes;
  }

  lemma EncryptedUnfolds(p: Primitives, curve: Curve, r: Ratchet, plaintext: seq<byte>, newKey: CurvePair)
    requires r.senders == [] ==> r.receivers != []
    ensures var r1 := WithSender(p, curve, r, newKey);
            && r1.senders != []
            && var c := r1.senders[0];
               Encrypted(p, curve, r, plaintext, newKey)
               == (r1.(senders := [Sender(c.ratchetKey, NextChainKey(p, c.key), Wrap32(c.index + 1))]),
                   SealedMessage(p, MessageKey(p, c.key), c.ratchetKey.public, c.index, plaintext))
  {
    hide CreateChainKey;
    hide NextChainKey;
    hide MessageKey;
    hide SealedMessage;
  }

  function TermSent(c: R.SenderChain, plaintext: seq<byte>): R.Message {
    R.Message(PROTOCOL_VERSION, T.Key(c.ratchetKey.Public()), Some(c.chainKey.index),
              Some(T.Sealed(T.MessageKeyOf(c.chainKey.key), PROTOCOL_VERSION, c.ratchetKey.Public(), c.chainKey.index, plaintext)))
  }

  lemma TermsEncrypted(st: R.State, plaintext: seq<byte>, newKey: T.KeyPair)
    requires st.sender == [] ==> st.receivers != []
    ensures var st1 := R.WithSender(st, newKey);
            && st1.sender != []
            && var c := st1.sender[0];
               R.Encrypted(st, plaintext, newKey)
               == (st1.(sender := [R.SenderChain(c.ratchetKey, R.AdvanceChainKey(c.chainKey))]), TermSent(c, plaintext))
  {
  }

  lemma MessageSent(m: Meaning, c: R.SenderChain, plaintext: seq<byte>)
    ensures Carries(TermSent(c, plaintext))
    ensures MessageBytes(m, TermSent(c, plaintext))
         == SealedMessage(m.p, MessageKey(m.p, ChainBytes(m, c.chainKey.key)), Pair(m, c.ratchetKey).public, c.chainKey.index, plaintext)
  {
    hide SealedMessage;
    hide MessageKey;
  }

  lemma SenderMoves(m: Meaning, st: R.State)
    requires st.Fits() && st.sender != []
    ensures var pair, chain := st.sender[0].ratchetKey, st.sender[0].chainKey;
            && Held(m, st).senders == [Sender(Pair(m, pair), ChainBytes(m, chain.key), chain.index)]
            && st.(sender := [R.SenderChain(pair, R.AdvanceChainKey(chain))]).Fits()
            && Held(m, st.(sender := [R.SenderChain(pair, R.AdvanceChainKey(chain))]))
               == Held(m, st).(senders := [Sender(Pair(m, pair), NextChainKey(m.p, ChainBytes(m, chain.key)), Wrap32(chain.index + 1))])
  {
    hide NextChainKey;
    hide RootBytes;
    hide Receivers;
    hide Skipped;
  }

  // ----- decrypting

  /** No other key among those at hand has the bytes of this one. */
  ghost predicate Tells(m: Meaning, st: R.State, key: T.PublicKey) {
    && (forall k :: 0 <= k < |st.receivers| && Public(m, st.receivers[k].ratchetKey) == Public(m, key) ==> st.receivers[k].ratchetKey == key)
    && (forall k :: 0 <= k < |st.skipped| && Public(m, st.skipped[k].ratchetKey) == Public(m, key) ==> st.skipped[k].ratchetKey == key)
  }

  /** No two skipped keys are for one message. */
  ghost predicate OneEach(st: R.State) {
    forall a, b :: 0 <= a < b < |st.skipped| ==>
      st.skipped[a].ratchetKey != st.skipped[b].ratchetKey || st.skipped[a].messageKey.index != st.skipped[b].messageKey.index
  }

  /** A message that opens under a term opens under its bytes. */
  lemma OpenOnBytes(m: Meaning, key: T.MessageKeyTerm, msg: R.Message, raw: seq<byte>)
    requires Sound(m.p) && Carries(msg) && raw == MessageBytes(m, msg) && |msg.ciphertext.value.plaintext| < TWO_TO_THE_32
    requires R.Open(key, msg).Some?
    ensures Open(m.p, MessageKeyBytes(m, key), raw, CiphertextOf(m, msg)) == Opened(msg.ciphertext.value.plaintext)
  {
    hide Ciphertext;
    hide Tag;
    hide OutcomeOf;
    hide DecryptedBlocks;
    hide EncodedMessage;
    hide MessageKeyBytes;
    var c, bytes := msg.ciphertext.value, MessageKeyBytes(m, key);
    var body := UntaggedMessage(m.p, bytes, Public(m, msg.ratchetKey.key), msg.counter.value, c.plaintext);
    CiphertextOpens(m.p, OLM_INFO, bytes, c.plaintext, body);
    assert raw == body + Tag(m.p, OLM_INFO, bytes, body);
    assert raw[..|raw| - MAC_LENGTH] == body && raw[|raw| - MAC_LENGTH..] == Tag(m.p, OLM_INFO, bytes, body);
  }

  function CiphertextOf(m: Meaning, msg: R.Message): seq<byte>
    requires Carries(msg)
  {
    Ciphertext(m.p, OLM_INFO, MessageKeyBytes(m, msg.ciphertext.value.key), msg.ciphertext.value.plaintext)
  }

  /** What every reader finds in it. */
  lemma ReadOnBytes(m: Meaning, r: Ratchet, msg: R.Message, room: nat)
    requires r.Fits() && Carries(msg) && |msg.ciphertext.value.plaintext| < TWO_TO_THE_32
    requires msg.ciphertext.value.Length() <= room
    ensures Decrypted(m.p, m.curve, r, MessageBytes(m, msg), room)
         == DecryptedOf(m.p, m.curve, r, MessageBytes(m, msg), Public(m, msg.ratchetKey.key), msg.counter.value, CiphertextOf(m, msg))
  {
    hide Ciphertext;
    hide Tag;
    hide EncodedMessage;
    hide DecryptedOf;
    hide Scan;
    hide Last;
    hide MessageKeyBytes;
    var c := msg.ciphertext.value;
    var key := MessageKeyBytes(m, c.key);
    var body := UntaggedMessage(m.p, key, Public(m, msg.ratchetKey.key), msg.counter.value, c.plaintext);
    MessageFields(PROTOCOL_VERSION, Public(m, msg.ratchetKey.key), msg.counter.value, CiphertextOf(m, msg), Tag(m.p, OLM_INFO, key, body),
                  MessageBytes(m, msg));
  }

  lemma ChainFound(m: Meaning, st: R.State, key: T.PublicKey)
    requires st.Fits() && Tells(m, st, key)
    ensures |Held(m, st).receivers| == |st.receivers|
    ensures forall k :: 0 <= k < |st.receivers| ==> Held(m, st).receivers[k].index == st.receivers[k].chainKey.index
    ensures FindChain(Held(m, st).receivers, Public(m, key)) == R.FindChain(st.receivers, key)
  {
    hide Public;
    hide ChainBytes;
    hide RootBytes;
    var j, k := FindChain(Held(m, st).receivers, Public(m, key)), R.FindChain(st.receivers, key);
    assert !(j < k);
    assert !(k < j);
  }

  /** The skipped key that opens the term is the first that the bytes do not refuse. */
  lemma SkippedFound(m: Meaning, st: R.State, msg: R.Message, raw: seq<byte>)
    requires st.Fits() && OneEach(st) && Sound(m.p) && Carries(msg) && Tells(m, st, msg.ratchetKey.key)
    requires raw == MessageBytes(m, msg) && |msg.ciphertext.value.plaintext| < TWO_TO_THE_32
    requires R.FindSkipped(st.skipped, msg) < |st.skipped|
    ensures FindSkipped(m.p, Held(m, st).skipped, raw, Public(m, msg.ratchetKey.key), msg.counter.value, CiphertextOf(m, msg))
         == R.FindSkipped(st.skipped, msg)
    ensures Open(m.p, Held(m, st).skipped[R.FindSkipped(st.skipped, msg)].key, raw, CiphertextOf(m, msg)) == Opened(msg.ciphertext.value.plaintext)
  {
    hide Public;
    hide ChainBytes;
    hide RootBytes;
    hide Open;
    hide MessageBytes;
    hide CiphertextOf;
    hide MessageKeyBytes;
    hide R.Open;
    var k := R.FindSkipped(st.skipped, msg);
    OpenOnBytes(m, st.skipped[k].messageKey.key, msg, raw);
    var held, key := Held(m, st).skipped, Public(m, msg.ratchetKey.key);
    assert IsFor(held[k], key, msg.counter.value);
    forall i | 0 <= i < k
      ensures !IsFor(held[i], key, msg.counter.value)
    {
    }
    FindSkippedIs(m.p, held, raw, key, msg.counter.value, CiphertextOf(m, msg), k);
  }

  /** A decryption that opens a message as a term opens its bytes as well, to the same plaintext, and does to the bytes
      held what it does to the terms. */
  lemma DecryptOnBytes(m: Meaning, st: R.State, msg: R.Message, capacity: nat)
    requires Commutes(m.curve) && Sound(m.p) && st.Fits() && OneEach(st)
    requires Carries(msg) && |msg.ciphertext.value.plaintext| < TWO_TO_THE_32 && Tells(m, st, msg.ratchetKey.key)
    requires R.Decrypted(st, msg, capacity).1.Success?
    ensures var (after, r) := R.Decrypted(st, msg, capacity);
            && after.Fits() && r.value == msg.ciphertext.value.plaintext
            && Decrypted(m.p, m.curve, Held(m, st), MessageBytes(m, msg), capacity) == (Held(m, after), Plain(r.value))
  {
    hide Held;
    hide Public;
    hide MessageBytes;
    hide CiphertextOf;
    hide Open;
    hide OpenOnExistingChain;
    hide OpenOnNewChain;
    hide R.Open;
    hide R.OpenOnExistingChain;
    hide R.OpenOnNewChain;
    hide R.FindChain;
    hide R.FindSkipped;
    hide R.Caught;
    hide R.WithNewReceiver;
    hide Decrypted;
    hide FindChain;
    hide FindSkipped;
    hide Caught;
    hide WithNewReceiver;
    hide Erased;
    SuccessFits(st, msg, capacity);
    R.FailureKeepsState(st, msg, capacity);
    R.DecryptedUnfolds(st, msg, capacity);
    hide R.Decrypted;
    ReadOnBytes(m, Held(m, st), msg, capacity);
    ChainFound(m, st, msg.ratchetKey.key);
    var k := R.FindChain(st.receivers, msg.ratchetKey.key);
    if k == |st.receivers| {
      NewChainOnBytes(m, st, msg);
      NewChainCaught(m, st, msg.ratchetKey.key, msg.counter.value);
    } else if st.receivers[k].chainKey.index > msg.counter.value {
      var i := R.FindSkipped(st.skipped, msg);
      SkippedFound(m, st, msg, MessageBytes(m, msg));
      HeldErased(m, st, i);
      OpensToItsOwn(st.skipped[i], msg);
    } else {
      ExistingChainOnBytes(m, st, msg, k);
    }
  }

  lemma SuccessFits(st: R.State, msg: R.Message, capacity: nat)
    requires st.Fits() && Carries(msg) && R.Decrypted(st, msg, capacity).1.Success?
    ensures msg.ciphertext.value.Length() <= capacity
  {
    hide R.FindChain;
    hide R.FindSkipped;
    hide R.OpenOnExistingChain;
    hide R.OpenOnNewChain;
    hide R.Caught;
    hide R.WithNewReceiver;
  }

  lemma ExistingChainOnBytes(m: Meaning, st: R.State, msg: R.Message, k: nat)
    requires Sound(m.p) && st.Fits() && Carries(msg) && |msg.ciphertext.value.plaintext| < TWO_TO_THE_32
    requires k < |st.receivers| && R.OpenOnExistingChain(st.receivers[k].chainKey, msg).Some?
    ensures k < |Held(m, st).receivers|
    ensures var chain := Held(m, st).receivers[k];
            && chain.index == st.receivers[k].chainKey.index <= msg.counter.value
            && OpenOnExistingChain(m.p, chain.key, chain.index, MessageBytes(m, msg), msg.counter.value, CiphertextOf(m, msg))
               == Opened(msg.ciphertext.value.plaintext)
    ensures R.OpenOnExistingChain(st.receivers[k].chainKey, msg) == Some(msg.ciphertext.value.plaintext)
    ensures R.Caught(st, k, msg.counter.value).Fits()
    ensures Caught(m.p, Held(m, st), k, msg.counter.value) == Held(m, R.Caught(st, k, msg.counter.value))
  {
    hide MessageBytes;
    hide CiphertextOf;
    hide Open;
    hide Caught;
    hide RootBytes;
    hide KeyAfter;
    var chain, counter := st.receivers[k].chainKey, msg.counter.value;
    ChainOpensOnBytes(m, chain, msg);
    CaughtOnBytes(m, st, k, counter);
  }

  lemma ChainOpensOnBytes(m: Meaning, chain: R.ChainKey, msg: R.Message)
    requires Sound(m.p) && Carries(msg) && |msg.ciphertext.value.plaintext| < TWO_TO_THE_32
    requires R.OpenOnExistingChain(chain, msg).Some?
    ensures chain.index <= msg.counter.value
    ensures OpenOnExistingChain(m.p, ChainBytes(m, chain.key), chain.index, MessageBytes(m, msg), msg.counter.value, CiphertextOf(m, msg))
         == Opened(msg.ciphertext.value.plaintext)
    ensures R.OpenOnExistingChain(chain, msg) == Some(msg.ciphertext.value.plaintext)
  {
    hide MessageBytes;
    hide CiphertextOf;
    hide Open;
    hide KeyAfter;
    hide MessageKey;
    hide ChainBytes;
    hide R.Open;
    var counter := msg.counter.value;
    OpenOnBytes(m, T.MessageKeyOf(T.AdvancedBy(chain.key, counter - chain.index)), msg, MessageBytes(m, msg));
    KeyAfterOnBytes(m, chain.key, counter - chain.index);
    TermOpens(T.MessageKeyOf(T.AdvancedBy(chain.key, counter - chain.index)), msg);
  }

  lemma TermOpens(key: T.MessageKeyTerm, msg: R.Message)
    requires Carries(msg) && R.Open(key, msg).Some?
    ensures R.Open(key, msg) == Some(msg.ciphertext.value.plaintext)
  {
  }

  lemma NewChainOnBytes(m: Meaning, st: R.State, msg: R.Message)
    requires Commutes(m.curve) && Sound(m.p) && st.Fits() && Carries(msg) && |msg.ciphertext.value.plaintext| < TWO_TO_THE_32
    requires R.OpenOnNewChain(st, msg).Some?
    ensures Held(m, st).senders != [] && st.sender != []
    ensures OpenOnNewChain(m.p, m.curve, Held(m, st), MessageBytes(m, msg), Public(m, msg.ratchetKey.key), msg.counter.value, CiphertextOf(m, msg))
         == Opened(msg.ciphertext.value.plaintext)
    ensures R.OpenOnNewChain(st, msg) == Some(msg.ciphertext.value.plaintext)
  {
    hide MessageBytes;
    hide CiphertextOf;
    hide OpenOnExistingChain;
    hide R.OpenOnExistingChain;
    hide CreateChainKey;
    hide RootBytes;
    hide ChainBytes;
    hide Public;
    hide Receivers;
    hide Skipped;
    CreateChainKeyOnBytes(m, st.rootKey, st.sender[0].ratchetKey, msg.ratchetKey.key);
    ChainOpensOnBytes(m, R.CreateChainKey(st.rootKey, st.sender[0].ratchetKey, msg.ratchetKey.key).1, msg);
    hide R.CreateChainKey;
  }

  lemma NewChainCaught(m: Meaning, st: R.State, key: T.PublicKey, counter: uint32)
    requires Commutes(m.curve) && st.Fits() && st.sender != []
    ensures Held(m, st).senders != [] && R.Caught(R.WithNewReceiver(st, key), 0, counter).Fits()
    ensures Caught(m.p, WithNewReceiver(m.p, m.curve, Held(m, st), Public(m, key)), 0, counter)
         == Held(m, R.Caught(R.WithNewReceiver(st, key), 0, counter))
  {
    hide *;
    HeldShape(m, st);
    CaughtFits(R.WithNewReceiver(st, key), counter);
    NewReceiverOnBytes(m, st, key);
    CaughtOnBytes(m, R.WithNewReceiver(st, key), 0, counter);
  }

  lemma CaughtFits(st: R.State, counter: uint32)
    requires st.Fits() && 0 < |st.receivers| && st.receivers[0].chainKey.index <= counter
    ensures R.Caught(st, 0, counter).Fits()
  {
    hide R.Shelved;
  }

  lemma HeldErased(m: Meaning, st: R.State, i: nat)
    requires st.Fits() && i < |st.skipped|
    ensures |Held(m, st).skipped| == |st.skipped|
    ensures Held(m, st).(skipped := Erased(Held(m, st).skipped, i)) == Held(m, st.(skipped := Erased(st.skipped, i)))
  {
    hide RootBytes;
    hide Receivers;
    hide Skipped;
    SkippedErased(m, st.skipped, i);
    hide Erased;
  }

  lemma CarriesIs(msg: R.Message)
    requires Carries(msg)
    ensures R.Complete(msg) && msg.ciphertext.Some? && msg.ciphertext.value.Sealed? && msg.ratchetKey.Key? && msg.counter.Some?
  {
  }

  lemma OpensToItsOwn(e: R.SkippedMessageKey, msg: R.Message)
    requires Carries(msg) && R.Opens(e, msg)
    ensures R.Open(e.messageKey.key, msg) == Some(msg.ciphertext.value.plaintext)
  {
  }
}
