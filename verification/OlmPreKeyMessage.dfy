/** Pre-key messages on bytes (src/session.cpp): the three public keys of a session around the message
    that the ratchet seals, written in place, and read back. */
module OlmPreKeyMessage {
  import opened Words
  import opened Cipher
  import Cbc
  import Varint
  import opened MessageCodec
  import opened MessageFormats
  import opened OlmMessage
  import opened Sizes

  /** The public halves that every pre-key message carries. */
  datatype SessionKeys = SessionKeys(oneTimeKey: PublicKey, baseKey: PublicKey, identityKey: PublicKey)

  function AroundMessage(k: SessionKeys, message: seq<byte>): (r: seq<byte>)
    ensures |r| == AroundLength(|message|)
  {
    hide EncodedPreKeyMessage;
    LengthsAreExact(PROTOCOL_VERSION, k.oneTimeKey, k.baseKey, k.identityKey, message, 0, [], []);
    EncodedPreKeyMessage(PROTOCOL_VERSION, k.oneTimeKey, k.baseKey, k.identityKey, message)
  }

  function AroundLength(messageLength: nat): nat {
    PreKeyMessageLength(CURVE25519_KEY_LENGTH, CURVE25519_KEY_LENGTH, CURVE25519_KEY_LENGTH, messageLength)
  }

  function SealedPreKeyLength(counter: uint32, plaintextLength: nat): nat {
    AroundLength(SealedLength(counter, plaintextLength))
  }

  function SealedPreKeyMessage(p: Primitives, k: SessionKeys, key: seq<byte>, ratchetKey: PublicKey, counter: uint32,
                               plaintext: seq<byte>): (r: seq<byte>)
    ensures |r| == SealedPreKeyLength(counter, |plaintext|)
  {
    hide AroundLength;
    hide SealedLength;
    AroundMessage(k, SealedMessage(p, key, ratchetKey, counter, plaintext))
  }

  lemma SealedPreKeyIs(p: Primitives, k: SessionKeys, key: seq<byte>, ratchetKey: PublicKey, counter: uint32, plaintext: seq<byte>)
    ensures SealedPreKeyMessage(p, k, key, ratchetKey, counter, plaintext)
         == AroundMessage(k, SealedMessage(p, key, ratchetKey, counter, plaintext))
    ensures SealedPreKeyLength(counter, |plaintext|) == AroundLength(SealedLength(counter, |plaintext|))
  {
  }

  /** A pre-key message: version 3, one-time key, base key and identity key under tags 0x0A, 0x12 and 0x1A, and the message under tag 0x22. */
  lemma AroundLayout(k: SessionKeys, message: seq<byte>)
    ensures AroundMessage(k, message)
         == [3] + [0x0A] + [32] + k.oneTimeKey + [0x12] + [32] + k.baseKey + [0x1A] + [32] + k.identityKey
            + [0x22] + Varint.VarintBytes(|message|) + message
  {
    assert Varint.VarintBytes(32) == [32];
    hide Varint.VarintBytes;
    hide EncodedPreKeyMessage;
    PreKeyMessageLayout(3, k.oneTimeKey, k.baseKey, k.identityKey, message);
  }

  /** The bytes of a field that holds some. */
  function Bytes(raw: seq<byte>, f: Field): seq<byte>
    requires f.Chunk? && f.start + f.length <= |raw|
  {
    raw[f.start..f.start + f.length]
  }

  // ----- reading back what was written

  lemma SealedIsShort(counter: uint32, n: nat)
    requires n < TWO_TO_THE_32
    ensures SealedLength(counter, n) < TWO_TO_THE_64
  {
    ShortVarint(counter);
    ShortVarint(Cbc.EncryptedLength(n));
    ShortVarint(CURVE25519_KEY_LENGTH);
  }

  lemma {:induction false} ShortVarint(v: nat)
    ensures Varint.VarintLength(v) <= v + 1
  {
    if v >= 0x80 {
      ShortVarint(v / 0x80);
    }
  }

  /** A pre-key message shows the three keys to every reader, and holds a message that in its turn shows its own
      ratchet key and counter to every reader, and opens under its key to its plaintext. */
  lemma PreKeyOpens(p: Primitives, k: SessionKeys, key: seq<byte>, ratchetKey: PublicKey, counter: uint32, plaintext: seq<byte>,
                    raw: seq<byte>, outer: PreKeyMessageReader, inner: MessageReader)
    requires Sound(p) && |plaintext| < TWO_TO_THE_32
    requires raw == SealedPreKeyMessage(p, k, key, ratchetKey, counter, plaintext)
    requires Reads(raw, 0, PRE_KEY_TAGS, outer.version, [outer.oneTimeKey, outer.baseKey, outer.identityKey, outer.message])
    requires outer.message.Chunk? && outer.message.start + outer.message.length <= |raw| ==>
      Reads(Bytes(raw, outer.message), MAC_LENGTH, MESSAGE_TAGS, inner.version, [inner.ratchetKey, inner.counter, inner.ciphertext])
    ensures outer.version == Some(PROTOCOL_VERSION)
    ensures Shows(raw, outer.oneTimeKey, Some(Text(k.oneTimeKey))) && Shows(raw, outer.baseKey, Some(Text(k.baseKey)))
    ensures Shows(raw, outer.identityKey, Some(Text(k.identityKey)))
    ensures outer.message.Chunk? && outer.message.start + outer.message.length <= |raw|
    ensures OpensTo(p, key, ratchetKey, counter, plaintext, Bytes(raw, outer.message), inner)
  {
    hide SealedMessage;
    hide EncodedPreKeyMessage;
    hide Reads;
    hide OpensTo;
    var sealed := SealedMessage(p, key, ratchetKey, counter, plaintext);
    SealedIsShort(counter, |plaintext|);
    hide SealedLength;
    PreKeyMessageRoundTrip(PROTOCOL_VERSION, k.oneTimeKey, k.baseKey, k.identityKey, sealed, raw, outer);
    SealedOpens(p, key, ratchetKey, counter, plaintext, sealed, inner);
  }

  // ----- writing in place

  /** Where the four texts of a pre-key message being written lie. */
  datatype Gaps = Gaps(oneTimeKey: nat, baseKey: nat, identityKey: nat, message: nat)

  /** Headers from base to end, around the gaps. */
  ghost predicate Headers(s: seq<byte>, base: nat, g: Gaps, end: nat) {
    HoldsPreKeyMessage(s, base, PROTOCOL_VERSION, g.oneTimeKey, g.oneTimeKey + CURVE25519_KEY_LENGTH, g.baseKey, g.baseKey + CURVE25519_KEY_LENGTH,
                       g.identityKey, g.identityKey + CURVE25519_KEY_LENGTH, g.message, end)
  }

  lemma GapsAreInOrder(s: seq<byte>, base: nat, g: Gaps, end: nat)
    requires Headers(s, base, g, end)
    ensures base < g.oneTimeKey && g.oneTimeKey + CURVE25519_KEY_LENGTH < g.baseKey
    ensures g.baseKey + CURVE25519_KEY_LENGTH < g.identityKey && g.identityKey + CURVE25519_KEY_LENGTH < g.message <= end <= |s|
  {
    hide Varint.VarintBytes;
  }

  lemma HeaderKept(s: seq<byte>, pos: nat, tag: byte, value: nat, end: nat, at: nat, w: seq<byte>)
    requires HoldsText(s, pos, tag, value, end) && at + |w| <= |s| && (at + |w| <= pos || value <= at)
    ensures HoldsText(Overwritten(s, at, w), pos, tag, value, end)
  {
    hide Varint.VarintBytes;
    hide Overwritten;
    OverwrittenElsewhere(s, at, w, pos, value);
  }

  lemma FirstByteKept(s: seq<byte>, base: nat, at: nat, w: seq<byte>)
    requires base < at && at + |w| <= |s|
    ensures Overwritten(s, at, w)[base] == s[base]
  {
  }

  /** Writing into one of the gaps leaves the headers. */
  lemma HeadersKept(s: seq<byte>, base: nat, g: Gaps, end: nat, at: nat, w: seq<byte>)
    requires Headers(s, base, g, end)
    requires || ((at == g.oneTimeKey || at == g.baseKey || at == g.identityKey) && |w| == CURVE25519_KEY_LENGTH)
             || (at == g.message && at + |w| == end)
    ensures at + |w| <= |s| && Headers(Overwritten(s, at, w), base, g, end)
  {
    hide HoldsText;
    hide Overwritten;
    GapsAreInOrder(s, base, g, end);
    var a, b, c := g.oneTimeKey + CURVE25519_KEY_LENGTH, g.baseKey + CURVE25519_KEY_LENGTH, g.identityKey + CURVE25519_KEY_LENGTH;
    HeaderKept(s, base + 1, ONE_TIME_KEY_ID_TAG, g.oneTimeKey, a, at, w);
    HeaderKept(s, a, BASE_KEY_TAG, g.baseKey, b, at, w);
    HeaderKept(s, b, IDENTITY_KEY_TAG, g.identityKey, c, at, w);
    HeaderKept(s, c, MESSAGE_TAG, g.message, end, at, w);
    FirstByteKept(s, base, at, w);
  }

  /** The memory once the three keys have been filled in, in the order of the library. */
  function WithKeys(s: seq<byte>, g: Gaps, k: SessionKeys): (r: seq<byte>)
    requires g.oneTimeKey + CURVE25519_KEY_LENGTH <= |s| && g.baseKey + CURVE25519_KEY_LENGTH <= |s|
    requires g.identityKey + CURVE25519_KEY_LENGTH <= |s|
    ensures |r| == |s|
  {
    Overwritten(Overwritten(Overwritten(s, g.oneTimeKey, k.oneTimeKey), g.identityKey, k.identityKey), g.baseKey, k.baseKey)
  }

  lemma KeysFillIn(s: seq<byte>, base: nat, g: Gaps, end: nat, k: SessionKeys)
    requires Headers(s, base, g, end)
    ensures g.baseKey + CURVE25519_KEY_LENGTH <= |s| && g.oneTimeKey + CURVE25519_KEY_LENGTH <= |s| && g.identityKey + CURVE25519_KEY_LENGTH <= |s|
    ensures var r := WithKeys(s, g, k);
            && Headers(r, base, g, end)
            && r[g.oneTimeKey..g.oneTimeKey + CURVE25519_KEY_LENGTH] == k.oneTimeKey
            && r[g.baseKey..g.baseKey + CURVE25519_KEY_LENGTH] == k.baseKey
            && r[g.identityKey..g.identityKey + CURVE25519_KEY_LENGTH] == k.identityKey
            && r[0..base] == s[0..base] && r[end..|s|] == s[end..|s|]
  {
    hide Overwritten;
    GapsAreInOrder(s, base, g, end);
    HeadersKept(s, base, g, end, g.oneTimeKey, k.oneTimeKey);
    var s1 := Overwritten(s, g.oneTimeKey, k.oneTimeKey);
    HeadersKept(s1, base, g, end, g.identityKey, k.identityKey);
    var s2 := Overwritten(s1, g.identityKey, k.identityKey);
    HeadersKept(s2, base, g, end, g.baseKey, k.baseKey);
    hide Headers;
    OverwrittenAt(s, g.oneTimeKey, k.oneTimeKey);
    OverwrittenElsewhere(s1, g.identityKey, k.identityKey, g.oneTimeKey, g.oneTimeKey + CURVE25519_KEY_LENGTH);
    OverwrittenElsewhere(s2, g.baseKey, k.baseKey, g.oneTimeKey, g.oneTimeKey + CURVE25519_KEY_LENGTH);
    OverwrittenAt(s1, g.identityKey, k.identityKey);
    OverwrittenElsewhere(s2, g.baseKey, k.baseKey, g.identityKey, g.identityKey + CURVE25519_KEY_LENGTH);
    OverwrittenAt(s2, g.baseKey, k.baseKey);
    OutsideKept(s, g, k, 0, base);
    OutsideKept(s, g, k, end, |s|);
  }

  lemma OutsideKept(s: seq<byte>, g: Gaps, k: SessionKeys, a: nat, b: nat)
    requires g.oneTimeKey + CURVE25519_KEY_LENGTH <= g.baseKey && g.baseKey + CURVE25519_KEY_LENGTH <= g.identityKey
    requires g.identityKey + CURVE25519_KEY_LENGTH <= |s|
    requires a <= b <= |s| && (b <= g.oneTimeKey || g.identityKey + CURVE25519_KEY_LENGTH <= a)
    ensures WithKeys(s, g, k)[a..b] == s[a..b]
  {
    hide Overwritten;
    var s1 := Overwritten(s, g.oneTimeKey, k.oneTimeKey);
    OverwrittenElsewhere(s, g.oneTimeKey, k.oneTimeKey, a, b);
    OverwrittenElsewhere(s1, g.identityKey, k.identityKey, a, b);
    OverwrittenElsewhere(Overwritten(s1, g.identityKey, k.identityKey), g.baseKey, k.baseKey, a, b);
  }

  /** With the inner message in the last gap, the pre-key message is complete. */
  lemma MessageCompletes(before: seq<byte>, s: seq<byte>, base: nat, g: Gaps, end: nat, k: SessionKeys, message: seq<byte>)
    requires Headers(s, base, g, end) && |s| == |before| && g.message + |message| == end
    requires s[g.oneTimeKey..g.oneTimeKey + CURVE25519_KEY_LENGTH] == k.oneTimeKey
    requires s[g.baseKey..g.baseKey + CURVE25519_KEY_LENGTH] == k.baseKey
    requires s[g.identityKey..g.identityKey + CURVE25519_KEY_LENGTH] == k.identityKey
    requires s[0..base] == before[0..base] && s[end..|s|] == before[end..|s|]
    ensures base + |AroundMessage(k, message)| == end
    ensures Overwritten(s, g.message, message) == Overwritten(before, base, AroundMessage(k, message))
  {
    hide Overwritten;
    hide EncodedPreKeyMessage;
    var r := Overwritten(s, g.message, message);
    GapsAreInOrder(s, base, g, end);
    HeadersKept(s, base, g, end, g.message, message);
    FilledInPreKeyMessage(r, base, PROTOCOL_VERSION, g.oneTimeKey, g.oneTimeKey + CURVE25519_KEY_LENGTH, g.baseKey, g.baseKey + CURVE25519_KEY_LENGTH,
                          g.identityKey, g.identityKey + CURVE25519_KEY_LENGTH, g.message, end);
    hide Headers;
    OverwrittenAt(s, g.message, message);
    OverwrittenElsewhere(s, g.message, message, g.oneTimeKey, g.oneTimeKey + CURVE25519_KEY_LENGTH);
    OverwrittenElsewhere(s, g.message, message, g.baseKey, g.baseKey + CURVE25519_KEY_LENGTH);
    OverwrittenElsewhere(s, g.message, message, g.identityKey, g.identityKey + CURVE25519_KEY_LENGTH);
    OverwrittenElsewhere(s, g.message, message, 0, base);
    OverwrittenElsewhere(s, g.message, message, end, |s|);
    assert r[base..end] == AroundMessage(k, message);
    IsOverwritten(before, r, base, r[base..end]);
  }

  method PutPreKeyHeaders(mem: array<byte>, output: nat, messageLength: nat)
    returns (oneTimeKey: nat, baseKey: nat, identityKey: nat, message: nat, end: nat)
    requires output + AroundLength(messageLength) <= mem.Length
    modifies mem
    ensures end == output + AroundLength(messageLength) == message + messageLength
    ensures Headers(mem[..], output, Gaps(oneTimeKey, baseKey, identityKey, message), end)
    ensures mem[..][0..output] == old(mem[..])[0..output]
    ensures mem[..][end..mem.Length] == old(mem[..])[end..mem.Length]
  {
    oneTimeKey, baseKey, identityKey, message, end :=
      EncodePreKeyMessage(mem, output, PROTOCOL_VERSION, CURVE25519_KEY_LENGTH, CURVE25519_KEY_LENGTH, CURVE25519_KEY_LENGTH, messageLength);
  }

  /** Headers and keys: with message m filled in afterwards, the pre-key message is complete. */
  method PutKeys(k: SessionKeys, mem: array<byte>, output: nat, messageLength: nat, ghost m: seq<byte>) returns (message: nat, end: nat)
    requires output + AroundLength(messageLength) <= mem.Length && |m| == messageLength
    modifies mem
    ensures end == output + AroundLength(messageLength) == message + messageLength && output <= message
    ensures mem[..][0..output] == old(mem[..])[0..output]
    ensures mem[..][end..mem.Length] == old(mem[..])[end..mem.Length]
    ensures output + |AroundMessage(k, m)| == end
    ensures Overwritten(mem[..], message, m) == Overwritten(old(mem[..]), output, AroundMessage(k, m))
  {
    hide Headers;
    hide Overwritten;
    hide AroundMessage;
    hide AroundLength;
    ghost var before: seq<byte> := mem[..];
    var oneTimeKey, baseKey, identityKey;
    oneTimeKey, baseKey, identityKey, message, end := PutPreKeyHeaders(mem, output, messageLength);
    ghost var g, s1: seq<byte> := Gaps(oneTimeKey, baseKey, identityKey, message), mem[..];
    GapsAreInOrder(s1, output, g, end);
    KeysFillIn(s1, output, g, end, k);
    PutBytes(mem, oneTimeKey, k.oneTimeKey);
    PutBytes(mem, identityKey, k.identityKey);
    PutBytes(mem, baseKey, k.baseKey);
    ghost var s2: seq<byte> := mem[..];
    assert s2 == WithKeys(s1, g, k);
    MessageCompletes(before, s2, output, g, end, k, m);
  }

  /** Headers, then the three keys, then the sealed message, each into its gap. */
  method SealPreKey(p: Primitives, k: SessionKeys, key: seq<byte>, ratchetKey: PublicKey, counter: uint32, mem: array<byte>,
                    plaintext: nat, plaintextLength: nat, output: nat) returns (length: nat)
    requires |key| < TWO_TO_THE_32 && SealedLength(counter, plaintextLength) < TWO_TO_THE_32
    requires plaintext + plaintextLength <= mem.Length
    requires output + SealedPreKeyLength(counter, plaintextLength) <= mem.Length
    requires plaintext + plaintextLength <= output || output + SealedPreKeyLength(counter, plaintextLength) <= plaintext
    modifies mem
    ensures var message := SealedPreKeyMessage(p, k, key, ratchetKey, counter, old(mem[plaintext..plaintext + plaintextLength]));
            length == |message| && Wrote(old(mem[..]), mem[..], output, message)
  {
    hide *;
    ghost var before: seq<byte>, text: seq<byte> := mem[..], mem[plaintext..plaintext + plaintextLength];
    ghost var sealed := SealedMessage(p, key, ratchetKey, counter, text);
    SealedPreKeyIs(p, k, key, ratchetKey, counter, text);
    var message, end := PutKeys(k, mem, output, SealedLength(counter, plaintextLength), sealed);
    ghost var s2: seq<byte> := mem[..];
    StretchKept(before, s2, output, end, plaintext, plaintext + plaintextLength);
    assert mem[plaintext..plaintext + plaintextLength] == text;
    var _ := Seal(p, key, ratchetKey, counter, mem, plaintext, plaintextLength, message);
    WroteWhole(before, s2, mem[..], message, sealed, output, AroundMessage(k, sealed));
    length := end - output;
  }
}
