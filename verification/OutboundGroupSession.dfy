/** The sending end of a group session (src/outbound_group_session.c), working in place in the caller's memory. */
module OutboundGroupSession {
  import opened Words
  import opened Base64
  import opened Cipher
  import Cbc
  import opened Megolm
  import opened MessageFormats
  import opened GroupSession
  import opened Sizes

  const RANDOM_LENGTH: nat := 160  // the ratchet, and 32 bytes for the signing key

  /** Filling in the ciphertext leaves the header as it is. */
  lemma CiphertextFillsIn(before: seq<byte>, s1: seq<byte>, base: nat, version: byte, index: uint32, ciphertext: nat, end: nat, c: seq<byte>)
    requires HoldsGroupMessage(s1, base, version, index, ciphertext, end) && |c| == end - ciphertext
    requires |s1| == |before| && s1[0..base] == before[0..base] && s1[end..|s1|] == before[end..|s1|]
    ensures Overwritten(s1, ciphertext, c)[base..end] == EncodedGroupMessage(version, index, c)
    ensures Overwritten(s1, ciphertext, c) == Overwritten(before, base, EncodedGroupMessage(version, index, c))
  {
    hide Overwritten;
    hide EncodedGroupMessage;
    var s2 := Overwritten(s1, ciphertext, c);
    OverwrittenElsewhere(s1, ciphertext, c, base, ciphertext);
    OverwrittenElsewhere(s1, ciphertext, c, 0, base);
    OverwrittenElsewhere(s1, ciphertext, c, end, |s1|);
    OverwrittenAt(s1, ciphertext, c);
    FilledInGroupMessage(s2, base, version, index, ciphertext, end);
    IsOverwritten(before, s2, base, s2[base..end]);
  }

  lemma HeaderEnds(s: seq<byte>, base: nat, version: byte, index: uint32, ciphertext: nat, end: nat)
    requires HoldsGroupMessage(s, base, version, index, ciphertext, end)
    ensures base <= ciphertext <= end <= |s|
  {
  }

  function RawLength(index: uint32, plaintextLength: nat): nat {
    GroupMessageLength(index, Cbc.EncryptedLength(plaintextLength), MAC_LENGTH, SIGNATURE_LENGTH)
  }

  lemma RawLengthIsExact(p: Primitives, s: State, key: SecretKey, plaintext: seq<byte>)
    ensures |GroupMessage(p, s, key, plaintext)| == RawLength(s.counter, |plaintext|)
    ensures |UntaggedMessage(p, s, plaintext)| == GroupMessageLength(s.counter, Cbc.EncryptedLength(|plaintext|), 0, 0)
    ensures RawLength(s.counter, |plaintext|) == |UntaggedMessage(p, s, plaintext)| + TRAILER
  {
    hide Ciphertext;
    hide RatchetBytes;
    hide EncodedGroupMessage;
    var body := UntaggedMessage(p, s, plaintext);
    LengthsAreExact(PROTOCOL_VERSION, Ciphertext(p, MEGOLM_INFO, RatchetBytes(s.data), plaintext), [], [], [], s.counter, [], []);
    assert body + [] + [] == body;
  }

  class Session {
    const ratchet: Ratchet
    var signingKey: SecretKey
    var lastError: Option<Error>

    ghost predicate Valid()
      reads this, ratchet
    {
      ratchet.Valid()
    }

    constructor ()
      ensures Valid() && fresh(ratchet) && fresh(ratchet.data)
    {
      ratchet := new Ratchet();
      signingKey, lastError := seq(64, _ => 0), None;
    }

    /** `generate` turns the last bytes of the random input into a key pair. */
    method Initialise(generate: seq<byte> -> SecretKey, random: seq<byte>) returns (ok: bool)
      requires Valid()
      modifies this, ratchet`counter, ratchet.data
      ensures Valid() && (ok <==> |random| >= 160)
      ensures ok ==> ratchet.Value() == State(PartsOf(random[..128]), 0) && signingKey == generate(random[128..160])
      ensures !ok ==> lastError == Some(NotEnoughRandom) && ratchet.Value() == old(ratchet.Value()) && signingKey == old(signingKey)
    {
      if |random| < RANDOM_LENGTH {
        lastError := Some(NotEnoughRandom);
        return false;
      }
      ratchet.Init(PartsOf(random[..128]), 0);
      signingKey := generate(random[128..160]);
      return true;
    }

    /** Header, ciphertext, tag and signature, written one after the other at `buffer`. */
    method EncryptRaw(p: Primitives, mem: array<byte>, plaintext: nat, plaintextLength: nat, buffer: nat)
      requires Valid() && RawLength(ratchet.counter, plaintextLength) < TWO_TO_THE_32
      requires plaintext + plaintextLength <= mem.Length
      requires buffer + RawLength(ratchet.counter, plaintextLength) <= mem.Length
      requires plaintext + plaintextLength <= buffer || buffer + RawLength(ratchet.counter, plaintextLength) <= plaintext
      modifies ratchet, ratchet.data, mem
      ensures Valid() && ratchet.Value() == Step(MegolmHash(p), old(ratchet.Value()))
      ensures var raw := GroupMessage(p, old(ratchet.Value()), signingKey, old(mem[plaintext..plaintext + plaintextLength]));
              |raw| == RawLength(old(ratchet.counter), plaintextLength) && mem[..] == Overwritten(old(mem[..]), buffer, raw)
    {
      hide Step;
      hide Ciphertext;
      hide Tag;
      hide EncodedGroupMessage;
      hide HoldsGroupMessage;
      hide RatchetBytes;
      hide Overwritten;
      hide GroupMessageLength;
      hide MegolmHash;
      ghost var before: seq<byte>, s: State := mem[..], ratchet.Value();
      ghost var text: seq<byte> := mem[plaintext..plaintext + plaintextLength];
      RawLengthIsExact(p, s, signingKey, text);
      var ciphertextLength := Cbc.EncryptedLength(plaintextLength);
      var ciphertext, end := EncodeGroupMessage(mem, buffer, PROTOCOL_VERSION, ratchet.counter, ciphertextLength);
      ghost var s1: seq<byte> := mem[..];
      StretchKept(before, s1, buffer, end, plaintext, plaintext + plaintextLength);
      HeaderEnds(s1, buffer, PROTOCOL_VERSION, s.counter, ciphertext, end);
      var length := end - buffer + MAC_LENGTH;
      var key := RatchetBytes(ratchet.data[..]);
      var ok := EncryptAndTag(p, MEGOLM_INFO, key, mem, plaintext, plaintextLength, ciphertext, ciphertextLength, buffer, length);
      ghost var c := Ciphertext(p, MEGOLM_INFO, key, text);
      CiphertextFillsIn(before, s1, buffer, PROTOCOL_VERSION, s.counter, ciphertext, end, c);
      ghost var body, tag := UntaggedMessage(p, s, text), Tag(p, MEGOLM_INFO, key, UntaggedMessage(p, s, text));
      OverwrittenTwice(before, buffer, body, tag);
      OverwrittenAt(before, buffer, body + tag);
      ratchet.Advance(MegolmHash(p));
      var signature := p.sign(signingKey, mem[buffer..buffer + length]);
      PutBytes(mem, buffer + length, signature);
      OverwrittenTwice(before, buffer, body + tag, signature);
    }

    /** An encrypted message in base64: built at the end of the room for it, then encoded over itself. */
    method Encrypt(p: Primitives, mem: array<byte>, plaintext: nat, plaintextLength: nat, message: nat, maxLength: nat)
      returns (length: Option<nat>)
      requires Valid() && RawLength(ratchet.counter, plaintextLength) < TWO_TO_THE_32
      requires plaintext + plaintextLength <= mem.Length && message + maxLength <= mem.Length
      requires plaintext + plaintextLength <= message || message + maxLength <= plaintext
      modifies this`lastError, ratchet, ratchet.data, mem
      ensures Valid()
      ensures length == None <==> maxLength < EncodedLength(RawLength(old(ratchet.counter), plaintextLength))
      ensures length == None ==>
        lastError == Some(OutputBufferTooSmall) && mem[..] == old(mem[..]) && ratchet.Value() == old(ratchet.Value())
      ensures length.Some? ==>
        var text := Encoded(GroupMessage(p, old(ratchet.Value()), signingKey, old(mem[plaintext..plaintext + plaintextLength])));
        && length.value == |text| <= maxLength && mem[..] == Overwritten(old(mem[..]), message, text)
        && ratchet.Value() == Step(MegolmHash(p), old(ratchet.Value()))
    {
      hide Step;
      hide GroupMessage;
      hide Overwritten;
      hide Encoded;
      hide EncodedLength;
      hide RawLength;
      hide MegolmHash;
      var rawLength := RawLength(ratchet.counter, plaintextLength);
      EncodedIsLonger(rawLength);
      if maxLength < EncodedLength(rawLength) {
        lastError := Some(OutputBufferTooSmall);
        return None;
      }
      ghost var before: seq<byte> := mem[..];
      var pos := message + EncodedLength(rawLength) - rawLength;
      ghost var raw := GroupMessage(p, ratchet.Value(), signingKey, mem[plaintext..plaintext + plaintextLength]);
      EncryptRaw(p, mem, plaintext, plaintextLength, pos);
      OverwrittenAt(before, pos, raw);
      var end := EncodeBase64(mem, pos, rawLength, message);
      OverwrittenWithin(before, message, pos, raw, Encoded(raw));
      length := Some(end - message);
    }

    /** The session key: written, signed and encoded in the same way. */
    method Key(p: Primitives, mem: array<byte>, key: nat, keyLength: nat) returns (length: Option<nat>)
      requires Valid() && key + keyLength <= mem.Length
      modifies this`lastError, mem
      ensures length == None <==> keyLength < EncodedLength(SESSION_KEY_LENGTH)
      ensures length == None ==> lastError == Some(OutputBufferTooSmall) && mem[..] == old(mem[..])
      ensures length.Some? ==>
        var text := Encoded(SessionKey(p, ratchet.Value(), signingKey));
        length.value == |text| <= keyLength && mem[..] == Overwritten(old(mem[..]), key, text)
    {
      hide SessionKey;
      hide Overwritten;
      hide Encoded;
      hide EncodedLength;
      EncodedIsLonger(SESSION_KEY_LENGTH);
      if keyLength < EncodedLength(SESSION_KEY_LENGTH) {
        lastError := Some(OutputBufferTooSmall);
        return None;
      }
      ghost var before: seq<byte> := mem[..];
      var raw := key + EncodedLength(SESSION_KEY_LENGTH) - SESSION_KEY_LENGTH;
      ghost var bytes := SessionKey(p, ratchet.Value(), signingKey);
      PutSessionKey(p, mem, raw);
      OverwrittenAt(before, raw, bytes);
      var end := EncodeBase64(mem, raw, SESSION_KEY_LENGTH, key);
      OverwrittenWithin(before, key, raw, bytes, Encoded(bytes));
      length := Some(end - key);
    }

    method PutSessionKey(p: Primitives, mem: array<byte>, raw: nat)
      requires Valid() && raw + SESSION_KEY_LENGTH <= mem.Length
      modifies mem
      ensures mem[..] == Overwritten(old(mem[..]), raw, SessionKey(p, ratchet.Value(), signingKey))
    {
      hide Overwritten;
      hide BigEndian32;
      hide RatchetBytes;
      ghost var before: seq<byte> := mem[..];
      var body := PutKeyBody(mem, raw, SESSION_KEY_VERSION, ratchet, p.publicOf(signingKey));
      OverwrittenAt(before, raw, KeyBody(SESSION_KEY_VERSION, ratchet.Value(), p.publicOf(signingKey)));
      var signature := p.sign(signingKey, mem[raw..body]);
      PutBytes(mem, body, signature);
      OverwrittenTwice(before, raw, KeyBody(SESSION_KEY_VERSION, ratchet.Value(), p.publicOf(signingKey)), signature);
    }
  }

  /** Version, counter (most significant byte first), ratchet and public key. */
  method PutKeyBody(mem: array<byte>, raw: nat, version: byte, ratchet: Ratchet, key: PublicKey) returns (end: nat)
    requires ratchet.Valid() && raw + EXPORT_LENGTH <= mem.Length
    modifies mem
    ensures end == raw + EXPORT_LENGTH
    ensures mem[..] == Overwritten(old(mem[..]), raw, KeyBody(version, ratchet.Value(), key))
  {
    hide Overwritten;
    hide BigEndian32;
    hide RatchetBytes;
    ghost var before: seq<byte> := mem[..];
    ghost var s := ratchet.Value();
    BigEndian32RoundTrip(s.counter);
    PutBytes(mem, raw, [version]);
    PutBigEndian32(mem, raw + 1, ratchet.counter);
    OverwrittenTwice(before, raw, [version], BigEndian32(s.counter));
    PutBytes(mem, raw + 5, RatchetBytes(ratchet.data[..]));
    OverwrittenTwice(before, raw, [version] + BigEndian32(s.counter), RatchetBytes(s.data));
    PutBytes(mem, raw + 133, key);
    OverwrittenTwice(before, raw, [version] + BigEndian32(s.counter) + RatchetBytes(s.data), key);
    end := raw + EXPORT_LENGTH;
  }
}
