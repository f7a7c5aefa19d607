/** The receiving end of a group session (src/inbound_group_session.c), working in place in the caller's memory. */
module InboundGroupSession {
  import opened Words
  import opened Base64
  import opened Cipher
  import opened Megolm
  import opened MessageCodec
  import opened MessageFormats
  import opened GroupSession
  import opened Sizes
  import Writing = OutboundGroupSession

  class Session {
    const initial: Ratchet
    const latest: Ratchet
    var signingKey: PublicKey
    var verified: bool
    var lastError: Option<Error>

    ghost predicate Valid()
      reads this, initial, latest
    {
      initial.Valid() && latest.Valid() && initial != latest && initial.data != latest.data
    }

    ghost function Value(): Inbound
      requires Valid()
      reads this, initial, latest, initial.data, latest.data
    {
      Inbound(initial.Value(), latest.Value(), signingKey, verified)
    }

    constructor ()
      ensures Valid() && fresh(initial) && fresh(latest) && fresh(initial.data) && fresh(latest.data)
      ensures !verified
    {
      initial := new Ratchet();
      latest := new Ratchet();
      signingKey, verified, lastError := seq(32, _ => 0), false, None;
    }

    /** A key whose signature does not verify has already replaced the ratchets and the signing key. */
    method InitKeys(p: Primitives, raw: seq<byte>, exported: bool) returns (ok: bool)
      requires Valid() && |raw| == if exported then EXPORT_LENGTH else SESSION_KEY_LENGTH
      modifies this, initial`counter, latest`counter, initial.data, latest.data
      ensures Valid()
      ensures ok <==> FromKey(p, raw, exported, old(verified)).Imported?
      ensures ok ==> Value() == FromKey(p, raw, exported, old(verified)).session
      ensures !ok ==> lastError == Some(FromKey(p, raw, exported, old(verified)).error) && verified == old(verified)
      ensures !ok && lastError == Some(BadSessionKey) ==> Value() == old(Value())
      ensures !ok && lastError == Some(BadSignature) ==>
        var s := State(PartsOf(raw[5..133]), FromBigEndian32(raw[1..5]));
        Value() == Inbound(s, s, raw[133..165], old(verified))
      ensures !ok ==> Value() == AfterRefusal(old(Value()), raw, exported)
    {
      hide FromBigEndian32;
      hide PartsOf;
      if raw[0] != (if exported then SESSION_EXPORT_VERSION else SESSION_KEY_VERSION) {
        lastError := Some(BadSessionKey);
        return false;
      }
      var counter := GetBigEndian32(raw[1..5]);
      initial.Init(PartsOf(raw[5..133]), counter);
      latest.Init(PartsOf(raw[5..133]), counter);
      signingKey := raw[133..165];
      if !exported {
        if !p.verify(signingKey, raw[..165], raw[165..]) {
          lastError := Some(BadSignature);
          return false;
        }
        verified := true;
      }
      return true;
    }

    /** From the base64 text of a session key, or of an export. */
    method FromText(p: Primitives, text: seq<byte>, exported: bool) returns (ok: bool)
      requires Valid()
      modifies this, initial`counter, latest`counter, initial.data, latest.data
      ensures Valid()
      ensures |text| % 4 == 1 ==> !ok && lastError == Some(InvalidBase64) && Value() == old(Value())
      ensures |text| % 4 != 1 ==>
        var raw := Decoded(text);
        var length := if exported then EXPORT_LENGTH else SESSION_KEY_LENGTH;
        && (|raw| != length ==> !ok && lastError == Some(BadSessionKey) && Value() == old(Value()))
        && (|raw| == length ==>
              && (ok <==> FromKey(p, raw, exported, old(verified)).Imported?)
              && (ok ==> Value() == FromKey(p, raw, exported, old(verified)).session)
              && (!ok ==> lastError == Some(FromKey(p, raw, exported, old(verified)).error))
              && (!ok ==> Value() == AfterRefusal(old(Value()), raw, exported)))
    {
      hide Decoded;
      hide DecodedLength;
      hide FromKey;
      hide AfterRefusal;
      LengthsUndo(|text|);
      var rawLength := DecodedLength(|text|);
      if rawLength == None {
        lastError := Some(InvalidBase64);
        return false;
      }
      if rawLength.value != (if exported then EXPORT_LENGTH else SESSION_KEY_LENGTH) {
        lastError := Some(BadSessionKey);
        return false;
      }
      var raw := DecodeKey(text, rawLength.value);
      ok := InitKeys(p, raw, exported);
    }

    /** A copy of the latest or the initial ratchet, advanced to an index. */
    method GetMegolm(h: Hash, index: uint32, result: Ratchet) returns (ok: bool)
      requires Valid() && result.Valid() && result != initial && result != latest
      requires result.data != initial.data && result.data != latest.data
      modifies this`lastError, latest, latest.data, result, result.data
      ensures Valid() && result.Valid() && initial.Value() == old(initial.Value())
      ensures (latest.Value(), if ok then Some(result.Value()) else None)
           == Fetched(h, old(initial.Value()), old(latest.Value()), index)
      ensures if ok then result.counter == index && lastError == old(lastError) else lastError == Some(UnknownMessageIndex)
    {
      hide Iterate;
      if Wrap32(index - latest.counter) < HALF {
        latest.AdvanceTo(h, index);
        result.CopyFrom(latest);
        return true;
      } else if Wrap32(index - initial.counter) >= HALF {
        lastError := Some(UnknownMessageIndex);
        return false;
      } else {
        result.CopyFrom(initial);
        result.AdvanceTo(h, index);
        return true;
      }
    }

    /** Decrypts a message that has been taken out of base64. */
    method DecryptRaw(p: Primitives, mem: array<byte>, message: nat, messageLength: nat, plaintext: nat, maxPlaintext: nat)
      returns (r: Result, messageIndex: Option<uint32>)
      requires Valid() && messageLength < TWO_TO_THE_32
      requires message + messageLength <= mem.Length && plaintext + maxPlaintext <= mem.Length
      requires message + messageLength <= plaintext || plaintext + maxPlaintext <= message
      modifies this, latest, latest.data, mem
      ensures Valid()
      ensures (Value(), r) == Decrypted(p, old(Value()), old(mem[message..message + messageLength]), maxPlaintext)
      ensures messageIndex == ReportedIndex(old(mem[message..message + messageLength]))
      ensures r.Failed? ==> lastError == Some(r.error)
      ensures r.Plain? ==> |r.plaintext| <= maxPlaintext && mem[plaintext..plaintext + |r.plaintext|] == r.plaintext
    {
      hide Decrypted;
      hide Opened;
      hide Reads;
      hide ReportedIndex;
      ghost var before: seq<byte>, was := mem[..], Value();
      var raw := mem[message..message + messageLength];
      var decoded := DecodeGroupMessage(raw, MAC_LENGTH, SIGNATURE_LENGTH);
      DecryptedIs(p, was, raw, decoded, maxPlaintext);
      if decoded.version != Some(PROTOCOL_VERSION) {
        lastError := Some(BadMessageVersion);
        return Failed(BadMessageVersion), None;
      }
      if !decoded.index.Count? || !decoded.ciphertext.Chunk? {
        lastError := Some(BadMessageFormat);
        return Failed(BadMessageFormat), None;
      }
      messageIndex := Some(decoded.index.value);
      MessageParts(before, message, messageLength, decoded.ciphertext.start, decoded.ciphertext.length);
      r := OpenMessage(p, mem, message, messageLength - SIGNATURE_LENGTH, decoded.index.value,
                       message + decoded.ciphertext.start, decoded.ciphertext.length, plaintext, maxPlaintext);
    }

    /** From the signature check on. */
    method OpenMessage(p: Primitives, mem: array<byte>, message: nat, length: nat, index: uint32,
                       ciphertext: nat, ciphertextLength: nat, plaintext: nat, maxPlaintext: nat) returns (r: Result)
      requires Valid() && MAC_LENGTH <= length < TWO_TO_THE_32
      requires message + length + SIGNATURE_LENGTH <= mem.Length && plaintext + maxPlaintext <= mem.Length
      requires message + length + SIGNATURE_LENGTH <= plaintext || plaintext + maxPlaintext <= message
      requires message <= ciphertext && ciphertext + ciphertextLength <= message + length + SIGNATURE_LENGTH
      modifies this, latest, latest.data, mem
      ensures Valid()
      ensures (Value(), r) == Opened(p, old(Value()), old(mem[message..message + length]),
                                     old(mem[message + length..message + length + SIGNATURE_LENGTH]), index,
                                     old(mem[ciphertext..ciphertext + ciphertextLength]), maxPlaintext)
      ensures r.Failed? ==> lastError == Some(r.error)
      ensures r.Plain? ==> |r.plaintext| <= maxPlaintext && mem[plaintext..plaintext + |r.plaintext|] == r.plaintext
    {
      hide Tagged;
      hide Fetched;
      hide OutcomeOf;
      hide DecryptedBlocks;
      hide RatchetBytes;
      hide MegolmHash;
      hide Overwritten;
      var signature := mem[message + length..message + length + SIGNATURE_LENGTH];
      if !p.verify(signingKey, mem[message..message + length], signature) {
        lastError := Some(BadSignature);
        return Failed(BadSignature);
      }
      if maxPlaintext < ciphertextLength {
        lastError := Some(OutputBufferTooSmall);
        return Failed(OutputBufferTooSmall);
      }
      var megolm := new Ratchet();
      var ok := GetMegolm(MegolmHash(p), index, megolm);
      if !ok {
        return Failed(UnknownMessageIndex);
      }
      ghost var before: seq<byte> := mem[..];
      var key := RatchetBytes(megolm.data[..]);
      var outcome := CheckAndDecrypt(p, MEGOLM_INFO, key, mem, message, length,
                                     ciphertext, ciphertextLength, plaintext, maxPlaintext);
      TagSplits(before, message, length);
      match outcome {
        case Refused =>
          lastError := Some(BadMessageMac);
          r := Failed(BadMessageMac);
        case BeyondCiphertext =>
          r := BeyondInput;
        case Plaintext(n) =>
          verified := true;
          OutcomeFits(p, MEGOLM_INFO, key, before, message, length, ciphertext, ciphertextLength, n);
          OverwrittenPart(before, plaintext, DecryptedBlocks(p, MEGOLM_INFO, key, before[ciphertext..ciphertext + ciphertextLength]), n);
          r := Plain(mem[plaintext..plaintext + n], index);
      }
    }

    /** Takes the message out of base64 in place, then decrypts it. A length that no encoding has is noticed only
        after the decoding, which has written over the message and read one byte past it by then. */
    method Decrypt(p: Primitives, mem: array<byte>, message: nat, messageLength: nat, plaintext: nat, maxPlaintext: nat)
      returns (r: Result, messageIndex: Option<uint32>)
      requires Valid() && messageLength < TWO_TO_THE_32
      requires message + messageLength <= mem.Length && plaintext + maxPlaintext <= mem.Length
      requires messageLength % 4 == 1 ==> message + messageLength < mem.Length
      requires message + messageLength <= plaintext || plaintext + maxPlaintext <= message
      modifies this, latest, latest.data, mem
      ensures Valid()
      ensures messageLength % 4 == 1 ==>
        && r == Failed(InvalidBase64) && messageIndex == None && Value() == old(Value())
        && mem[..] == StrayDecoded(old(mem[..]), message, messageLength, message)
      ensures messageLength % 4 != 1 ==>
        && (Value(), r) == Decrypted(p, old(Value()), Decoded(old(mem[message..message + messageLength])), maxPlaintext)
        && messageIndex == ReportedIndex(Decoded(old(mem[message..message + messageLength])))
      ensures r.Failed? ==> lastError == Some(r.error)
      ensures r.Plain? ==> |r.plaintext| <= maxPlaintext && mem[plaintext..plaintext + |r.plaintext|] == r.plaintext
    {
      hide Decoded;
      hide Decrypted;
      hide ReportedIndex;
      hide DecodedLength;
      hide Overwritten;
      hide StrayDecoded;
      LengthsUndo(messageLength);
      DecodedIsShorter(messageLength);
      ghost var before: seq<byte> := mem[..];
      var _ := DecodeBase64(mem, message, messageLength, message);
      var rawLength := DecodedLength(messageLength);
      if rawLength == None {
        lastError := Some(InvalidBase64);
        return Failed(InvalidBase64), None;
      }
      OverwrittenAt(before, message, Decoded(before[message..message + messageLength]));
      r, messageIndex := DecryptRaw(p, mem, message, rawLength.value, plaintext, maxPlaintext);
    }

    /** A key from which another session can be imported that knows this one from an index on. */
    method Export(p: Primitives, mem: array<byte>, key: nat, keyLength: nat, index: uint32) returns (length: Option<nat>)
      requires Valid() && key + keyLength <= mem.Length
      modifies this, latest, latest.data, mem
      ensures Valid()
      ensures keyLength < EncodedLength(EXPORT_LENGTH) ==>
        length == None && lastError == Some(OutputBufferTooSmall) && Value() == old(Value()) && mem[..] == old(mem[..])
      ensures keyLength >= EncodedLength(EXPORT_LENGTH) ==>
        var (l, m) := Fetched(MegolmHash(p), old(initial.Value()), old(latest.Value()), index);
        && Value() == old(Value()).(latest := l)
        && (m == None ==> length == None && lastError == Some(UnknownMessageIndex) && mem[..] == old(mem[..]))
        && (m.Some? ==>
              var text := Encoded(ExportedKey(m.value, signingKey));
              length == Some(|text|) && |text| <= keyLength && mem[..] == Overwritten(old(mem[..]), key, text))
    {
      hide ExportedKey;
      hide Fetched;
      hide Encoded;
      hide EncodedLength;
      hide Overwritten;
      hide MegolmHash;
      EncodedIsLonger(EXPORT_LENGTH);
      if keyLength < EncodedLength(EXPORT_LENGTH) {
        lastError := Some(OutputBufferTooSmall);
        return None;
      }
      var megolm := new Ratchet();
      var ok := GetMegolm(MegolmHash(p), index, megolm);
      if !ok {
        return None;
      }
      ghost var before: seq<byte> := mem[..];
      var raw := key + EncodedLength(EXPORT_LENGTH) - EXPORT_LENGTH;
      var _ := Writing.PutKeyBody(mem, raw, SESSION_EXPORT_VERSION, megolm, signingKey);
      ghost var bytes := ExportedKey(megolm.Value(), signingKey);
      assert bytes == KeyBody(SESSION_EXPORT_VERSION, megolm.Value(), signingKey) by {
        ExportIs(megolm.Value(), signingKey);
      }
      OverwrittenAt(before, raw, bytes);
      var end := EncodeBase64(mem, raw, EXPORT_LENGTH, key);
      OverwrittenWithin(before, key, raw, bytes, Encoded(bytes));
      length := Some(end - key);
    }
  }

  lemma ExportIs(s: State, key: PublicKey)
    ensures ExportedKey(s, key) == KeyBody(SESSION_EXPORT_VERSION, s, key)
  {
  }

  /** The reader holds exactly what the message says. */
  lemma GroupReads(raw: seq<byte>, r: GroupMessageReader)
    requires Reads(raw, TRAILER, GROUP_TAGS, r.version, [r.index, r.ciphertext])
    ensures r.version == (if |raw| <= TRAILER then None else Some(raw[0]))
    ensures |raw| > TRAILER ==>
      var fields := Scan(raw[1..|raw| - TRAILER]);
      && Shows(raw, r.index, Last(fields, GROUP_MESSAGE_INDEX_TAG))
      && Shows(raw, r.ciphertext, Last(fields, GROUP_CIPHERTEXT_TAG))
  {
    hide Scan;
    hide Last;
    hide Shows;
    if |raw| > TRAILER {
      var values, fields := [r.index, r.ciphertext], Scan(raw[1..|raw| - TRAILER]);
      assert Shows(raw, values[0], Last(fields, GROUP_TAGS[0]));
      assert Shows(raw, values[1], Last(fields, GROUP_TAGS[1]));
    }
  }

  /** The branches of Decrypted, by what the reader holds. */
  lemma DecryptedIs(p: Primitives, s: Inbound, raw: seq<byte>, r: GroupMessageReader, room: nat)
    requires Reads(raw, TRAILER, GROUP_TAGS, r.version, [r.index, r.ciphertext])
    ensures ReportedIndex(raw)
         == if r.version == Some(PROTOCOL_VERSION) && r.index.Count? && r.ciphertext.Chunk? then Some(r.index.value) else None
    ensures r.version != Some(PROTOCOL_VERSION) ==> Decrypted(p, s, raw, room) == (s, Failed(BadMessageVersion))
    ensures r.version == Some(PROTOCOL_VERSION) ==> |raw| > TRAILER
    ensures r.version == Some(PROTOCOL_VERSION) && !(r.index.Count? && r.ciphertext.Chunk?) ==>
      Decrypted(p, s, raw, room) == (s, Failed(BadMessageFormat))
    ensures r.version == Some(PROTOCOL_VERSION) && r.index.Count? && r.ciphertext.Chunk? ==>
      && r.ciphertext.start + r.ciphertext.length <= |raw|
      && Decrypted(p, s, raw, room)
         == Opened(p, s, raw[..|raw| - SIGNATURE_LENGTH], raw[|raw| - SIGNATURE_LENGTH..], r.index.value,
                   raw[r.ciphertext.start..r.ciphertext.start + r.ciphertext.length], room)
  {
    hide Scan;
    hide Last;
    hide Opened;
    GroupReads(raw, r);
  }

  lemma MessageParts(mem: seq<byte>, message: nat, length: nat, start: nat, chunk: nat)
    requires SIGNATURE_LENGTH <= length && message + length <= |mem| && start + chunk <= length
    ensures var raw := mem[message..message + length];
            && raw[..length - SIGNATURE_LENGTH] == mem[message..message + (length - SIGNATURE_LENGTH)]
            && raw[length - SIGNATURE_LENGTH..] == mem[message + (length - SIGNATURE_LENGTH)..message + length]
            && raw[start..start + chunk] == mem[message + start..message + start + chunk]
  {
    SliceOfSlice(mem, message, message + length, start, start + chunk);
  }

  lemma TagSplits(mem: seq<byte>, message: nat, length: nat)
    requires MAC_LENGTH <= length && message + length <= |mem|
    ensures var tagged := mem[message..message + length];
            && tagged[..length - MAC_LENGTH] == mem[message..message + (length - MAC_LENGTH)]
            && tagged[length - MAC_LENGTH..] == mem[message + (length - MAC_LENGTH)..message + length]
  {
  }

  lemma OutcomeFits(p: Primitives, info: seq<byte>, key: seq<byte>, mem: seq<byte>, message: nat, length: nat,
                    ciphertext: nat, ciphertextLength: nat, n: nat)
    requires MAC_LENGTH <= length && message + length <= |mem| && ciphertext + ciphertextLength <= |mem|
    requires OutcomeOf(p, info, key, mem[message..message + (length - MAC_LENGTH)],
                       mem[message + (length - MAC_LENGTH)..message + length], mem[ciphertext..ciphertext + ciphertextLength])
          == Plaintext(n)
    ensures n <= ciphertextLength
  {
    hide DecryptedBlocks;
    hide Tag;
  }

  /** The decoded text, in a buffer of its own. */
  method DecodeKey(text: seq<byte>, rawLength: nat) returns (raw: seq<byte>)
    requires |text| % 4 != 1 && DecodedLength(|text|) == Some(rawLength)
    ensures raw == Decoded(text)
  {
    hide Decoded;
    hide DecodedLength;
    hide Overwritten;
    var mem := new byte[|text| + rawLength](i requires 0 <= i => if i < |text| then text[i] else 0);
    assert mem[0..|text|] == text;
    ghost var before: seq<byte> := mem[..];
    var _ := DecodeBase64(mem, 0, |text|, |text|);
    OverwrittenAt(before, |text|, Decoded(text));
    raw := mem[|text|..|text| + rawLength];
  }

  /** Through base64: what Encrypt of the sender writes, Decrypt of a following receiver opens. */
  lemma MessageTextOpens(p: Primitives, s: Inbound, start: State, key: SecretKey, ahead: nat, d: nat, plaintext: seq<byte>,
                         room: nat, text: seq<byte>)
    requires Sound(p) && Follows(p, s, start, key, ahead) && d < HALF
    requires |plaintext| < TWO_TO_THE_32 && room >= |plaintext| + 16
    requires text == Encoded(GroupMessage(p, Iterate(MegolmHash(p), start, d), key, plaintext))
    ensures IsText(text) && |text| % 4 != 1
    ensures Decrypted(p, s, Decoded(text), room).1 == Plain(plaintext, Wrap32(start.counter + d))
  {
    hide *;
    RoundTrip(GroupMessage(p, Iterate(MegolmHash(p), start, d), key, plaintext));
    PaddingIsShort(|plaintext|);
    GenuineOpens(p, s, start, key, ahead, d, plaintext, room);
  }

  lemma PaddingIsShort(n: nat)
    ensures Writing.Cbc.EncryptedLength(n) <= n + 16
  {
  }

  /** What Key of the sender writes makes FromText of the receiver follow. */
  lemma KeyTextFollows(p: Primitives, s: State, key: SecretKey, verified: bool, text: seq<byte>)
    requires Sound(p) && text == Encoded(SessionKey(p, s, key))
    ensures IsText(text) && |text| % 4 != 1 && |Decoded(text)| == SESSION_KEY_LENGTH
    ensures FromKey(p, Decoded(text), false, verified).Imported?
    ensures Follows(p, FromKey(p, Decoded(text), false, verified).session, s, key, 0)
  {
    hide FromKey;
    hide SessionKey;
    hide Follows;
    hide Encoded;
    hide Decoded;
    hide IsText;
    RoundTrip(SessionKey(p, s, key));
    SharedKeyFollows(p, s, key, verified);
  }
}
