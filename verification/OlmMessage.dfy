/** Olm messages on bytes: what the ratchet's encryption writes around a message key (src/ratchet.cpp), and that
    it opens under that key. It bears out, for genuine messages, the symbolic sealing that the ratchet is proved about. */
module OlmMessage {
  import opened Words
  import opened Cipher
  import Cbc
  import opened MessageCodec
  import opened Varint
  import opened MessageFormats
  import opened Sizes

  /** "OLM_KEYS" */
  const OLM_INFO: seq<byte> := [0x4F, 0x4C, 0x4D, 0x5F, 0x4B, 0x45, 0x59, 0x53]

  function UntaggedMessage(p: Primitives, key: seq<byte>, ratchetKey: PublicKey, counter: uint32, plaintext: seq<byte>): seq<byte> {
    EncodedMessage(PROTOCOL_VERSION, ratchetKey, counter, Ciphertext(p, OLM_INFO, key, plaintext))
  }

  /** The room a sealed message takes. */
  function SealedLength(counter: uint32, plaintextLength: nat): nat {
    MessageLength(counter, CURVE25519_KEY_LENGTH, Cbc.EncryptedLength(plaintextLength), MAC_LENGTH)
  }

  function SealedMessage(p: Primitives, key: seq<byte>, ratchetKey: PublicKey, counter: uint32, plaintext: seq<byte>): (m: seq<byte>)
    ensures |m| == SealedLength(counter, |plaintext|)
  {
    hide Ciphertext;
    hide Tag;
    hide EncodedMessage;
    UntaggedLength(ratchetKey, counter, Ciphertext(p, OLM_INFO, key, plaintext));
    TagAdds(counter, Cbc.EncryptedLength(|plaintext|));
    var body := UntaggedMessage(p, key, ratchetKey, counter, plaintext);
    body + Tag(p, OLM_INFO, key, body)
  }

  /** A sealed message: version 3, the ratchet key under tag 0x0A, the counter under tag 0x10, the ciphertext under tag 0x22, and eight bytes
      of tag; ciphertext and tag under the message key and the info "OLM_KEYS". */
  lemma SealedLayout(p: Primitives, key: seq<byte>, ratchetKey: PublicKey, counter: uint32, plaintext: seq<byte>, info: seq<byte>, c: seq<byte>, body: seq<byte>)
    requires info == [0x4F, 0x4C, 0x4D, 0x5F, 0x4B, 0x45, 0x59, 0x53] && c == Ciphertext(p, info, key, plaintext)
    requires body == [3] + [0x0A] + [32] + ratchetKey + [0x10] + VarintBytes(counter) + [0x22] + VarintBytes(|c|) + c
    ensures var raw := SealedMessage(p, key, ratchetKey, counter, plaintext);
            |raw| == |body| + 8 && raw[..|body|] == body && Tagged(p, info, key, body, raw[|body|..])
  {
    hide Ciphertext;
    hide Tagged;
    hide Tag;
    assert VarintBytes(32) == [32];
    hide VarintBytes;
    hide EncodedMessage;
    MessageLayout(3, ratchetKey, counter, c);
    TagIsTagged(p, info, key, body);
  }

  /** A reader of a message holds its header, and the key opens the body under it to the plaintext. */
  ghost predicate OpensTo(p: Primitives, key: seq<byte>, ratchetKey: PublicKey, counter: uint32, plaintext: seq<byte>,
                          raw: seq<byte>, r: MessageReader) {
    && r.version == Some(PROTOCOL_VERSION) && r.counter == Count(counter)
    && Shows(raw, r.ratchetKey, Some(Text(ratchetKey)))
    && r.ciphertext.Chunk? && r.ciphertext.start + r.ciphertext.length <= |raw| && MAC_LENGTH <= |raw|
    && var c := raw[r.ciphertext.start..r.ciphertext.start + r.ciphertext.length];
       var n := |raw| - MAC_LENGTH;
       && |c| % Cbc.AES_BLOCK == 0
       && OutcomeOf(p, OLM_INFO, key, raw[..n], raw[n..], c) == Plaintext(|plaintext|)
       && |plaintext| <= |DecryptedBlocks(p, OLM_INFO, key, c)|
       && DecryptedBlocks(p, OLM_INFO, key, c)[..|plaintext|] == plaintext
  }

  /** A sealed message shows its header to every reader, and opens under its key to its plaintext. */
  lemma SealedOpens(p: Primitives, key: seq<byte>, ratchetKey: PublicKey, counter: uint32, plaintext: seq<byte>,
                    raw: seq<byte>, r: MessageReader)
    requires Sound(p) && |plaintext| < TWO_TO_THE_32
    requires raw == SealedMessage(p, key, ratchetKey, counter, plaintext)
    requires Reads(raw, MAC_LENGTH, MESSAGE_TAGS, r.version, [r.ratchetKey, r.counter, r.ciphertext])
    ensures OpensTo(p, key, ratchetKey, counter, plaintext, raw, r)
  {
    hide Ciphertext;
    hide Tag;
    hide Reads;
    hide EncodedMessage;
    hide OutcomeOf;
    hide DecryptedBlocks;
    var c, body := Ciphertext(p, OLM_INFO, key, plaintext), UntaggedMessage(p, key, ratchetKey, counter, plaintext);
    var tag := Tag(p, OLM_INFO, key, body);
    MessageRoundTrip(PROTOCOL_VERSION, ratchetKey, counter, c, tag, raw, r);
    CiphertextOpens(p, OLM_INFO, key, plaintext, body);
    assert raw[..|body|] == body && raw[|body|..] == tag;
  }

  /** Filling in the ratchet key and the ciphertext leaves the headers as they are. */
  lemma GapsFillIn(before: seq<byte>, s1: seq<byte>, base: nat, counter: uint32, key: nat, ciphertext: nat, end: nat,
                   ratchetKey: PublicKey, c: seq<byte>)
    requires HoldsMessage(s1, base, PROTOCOL_VERSION, counter, key, CURVE25519_KEY_LENGTH, ciphertext, end) && |c| == end - ciphertext
    requires |s1| == |before| && s1[0..base] == before[0..base] && s1[end..|s1|] == before[end..|s1|]
    ensures Overwritten(Overwritten(s1, key, ratchetKey), ciphertext, c)
         == Overwritten(before, base, EncodedMessage(PROTOCOL_VERSION, ratchetKey, counter, c))
  {
    hide Overwritten;
    hide EncodedMessage;
    var s2 := Overwritten(s1, key, ratchetKey);
    var s3 := Overwritten(s2, ciphertext, c);
    OverwrittenAt(s1, key, ratchetKey);
    OverwrittenAt(s2, ciphertext, c);
    Around(s1, key, ratchetKey, ciphertext, c, base, key);
    Around(s1, key, ratchetKey, ciphertext, c, key + CURVE25519_KEY_LENGTH, ciphertext);
    Around(s1, key, ratchetKey, ciphertext, c, 0, base);
    Around(s1, key, ratchetKey, ciphertext, c, end, |s1|);
    OverwrittenElsewhere(s2, ciphertext, c, key, key + CURVE25519_KEY_LENGTH);
    FilledInMessage(s3, base, PROTOCOL_VERSION, counter, key, CURVE25519_KEY_LENGTH, ciphertext, end);
    IsOverwritten(before, s3, base, s3[base..end]);
  }

  /** A stretch outside both gaps stays. */
  lemma Around(s: seq<byte>, p: nat, v: seq<byte>, q: nat, w: seq<byte>, a: nat, b: nat)
    requires p + |v| <= q && q + |w| <= |s| && a <= b <= |s|
    requires b <= p || (p + |v| <= a && b <= q) || q + |w| <= a
    ensures Overwritten(Overwritten(s, p, v), q, w)[a..b] == s[a..b]
  {
    hide Overwritten;
    OverwrittenElsewhere(s, p, v, a, b);
    OverwrittenElsewhere(Overwritten(s, p, v), q, w, a, b);
  }

  /** Headers and ratchet key; whatever ciphertext is filled in afterwards, the message is complete. */
  method PutHeaders(ratchetKey: PublicKey, counter: uint32, mem: array<byte>, ciphertextLength: nat, output: nat)
    returns (ciphertext: nat, end: nat)
    requires output + MessageLength(counter, CURVE25519_KEY_LENGTH, ciphertextLength, 0) <= mem.Length
    modifies mem
    ensures end == ciphertext + ciphertextLength == output + MessageLength(counter, CURVE25519_KEY_LENGTH, ciphertextLength, 0) && output <= ciphertext
    ensures mem[..][0..output] == old(mem[..])[0..output]
    ensures mem[..][end..mem.Length] == old(mem[..])[end..mem.Length]
    ensures forall c: seq<byte> :: |c| == ciphertextLength ==>
      var m := EncodedMessage(PROTOCOL_VERSION, ratchetKey, counter, c);
      && output + |m| == end
      && Overwritten(mem[..], ciphertext, c) == Overwritten(old(mem[..]), output, m)
  {
    hide EncodedMessage;
    hide HoldsMessage;
    hide Overwritten;
    hide MessageLength;
    ghost var before: seq<byte> := mem[..];
    var key;
    key, ciphertext, end := EncodeMessage(mem, output, PROTOCOL_VERSION, counter, CURVE25519_KEY_LENGTH, ciphertextLength);
    ghost var s1: seq<byte> := mem[..];
    GapsInside(s1, output, counter, key, ciphertext, end);
    PutBytes(mem, key, ratchetKey);
    OverwrittenElsewhere(s1, key, ratchetKey, 0, output);
    OverwrittenElsewhere(s1, key, ratchetKey, end, mem.Length);
    forall c: seq<byte> | |c| == ciphertextLength
      ensures output + |EncodedMessage(PROTOCOL_VERSION, ratchetKey, counter, c)| == end
      ensures Overwritten(mem[..], ciphertext, c) == Overwritten(before, output, EncodedMessage(PROTOCOL_VERSION, ratchetKey, counter, c))
    {
      UntaggedLength(ratchetKey, counter, c);
      GapsFillIn(before, s1, output, counter, key, ciphertext, end, ratchetKey, c);
    }
  }

  lemma UntaggedLength(ratchetKey: PublicKey, counter: uint32, c: seq<byte>)
    ensures |EncodedMessage(PROTOCOL_VERSION, ratchetKey, counter, c)| == MessageLength(counter, CURVE25519_KEY_LENGTH, |c|, 0)
  {
    hide EncodedMessage;
    LengthsAreExact(PROTOCOL_VERSION, ratchetKey, c, [], [], counter, [], []);
    assert EncodedMessage(PROTOCOL_VERSION, ratchetKey, counter, c) + [] == EncodedMessage(PROTOCOL_VERSION, ratchetKey, counter, c);
  }

  /** Headers first, then the ratchet key, the ciphertext and the tag into the gaps they leave. */
  method Seal(p: Primitives, key: seq<byte>, ratchetKey: PublicKey, counter: uint32, mem: array<byte>, plaintext: nat, plaintextLength: nat,
              output: nat) returns (length: nat)
    requires |key| < TWO_TO_THE_32
    requires SealedLength(counter, plaintextLength) < TWO_TO_THE_32
    requires plaintext + plaintextLength <= mem.Length
    requires output + SealedLength(counter, plaintextLength) <= mem.Length
    requires plaintext + plaintextLength <= output
          || output + SealedLength(counter, plaintextLength) <= plaintext
    modifies mem
    ensures var sealed := SealedMessage(p, key, ratchetKey, counter, old(mem[plaintext..plaintext + plaintextLength]));
            length == |sealed| && Wrote(old(mem[..]), mem[..], output, sealed)
  {
    hide Ciphertext;
    hide Tag;
    hide EncodedMessage;
    hide Overwritten;
    ghost var before: seq<byte>, text: seq<byte> := mem[..], mem[plaintext..plaintext + plaintextLength];
    TagAdds(counter, Cbc.EncryptedLength(plaintextLength));
    hide MessageLength;
    var ciphertextLength := Cbc.EncryptedLength(plaintextLength);
    var ciphertext, end := PutHeaders(ratchetKey, counter, mem, ciphertextLength, output);
    StretchKept(before, mem[..], output, end, plaintext, plaintext + plaintextLength);
    length := end - output + MAC_LENGTH;
    TagCompletes(p, key, ratchetKey, counter, text, before, mem[..], output, ciphertext, end);
    hide SealedMessage;
    var ok := EncryptAndTag(p, OLM_INFO, key, mem, plaintext, plaintextLength, ciphertext, ciphertextLength, output, length);
  }

  lemma TagCompletes(p: Primitives, key: seq<byte>, ratchetKey: PublicKey, counter: uint32, text: seq<byte>,
                     before: seq<byte>, s: seq<byte>, output: nat, ciphertext: nat, end: nat)
    requires |s| == |before| && output <= end && end + MAC_LENGTH <= |s|
    requires var c := Ciphertext(p, OLM_INFO, key, text);
             var body := EncodedMessage(PROTOCOL_VERSION, ratchetKey, counter, c);
             && ciphertext + |c| <= |s| && output + |body| == end
             && Overwritten(s, ciphertext, c) == Overwritten(before, output, body)
    ensures var mid := Overwritten(s, ciphertext, Ciphertext(p, OLM_INFO, key, text));
            var sealed := SealedMessage(p, key, ratchetKey, counter, text);
            && output + |sealed| == end + MAC_LENGTH
            && Overwritten(mid, end, Tag(p, OLM_INFO, key, mid[output..end])) == Overwritten(before, output, sealed)
  {
    hide Ciphertext;
    hide Tag;
    hide EncodedMessage;
    hide Overwritten;
    var body := UntaggedMessage(p, key, ratchetKey, counter, text);
    OverwrittenAt(before, output, body);
    OverwrittenTwice(before, output, body, Tag(p, OLM_INFO, key, body));
  }

  lemma TagAdds(counter: uint32, ciphertextLength: nat)
    ensures MessageLength(counter, CURVE25519_KEY_LENGTH, ciphertextLength, MAC_LENGTH) == MessageLength(counter, CURVE25519_KEY_LENGTH, ciphertextLength, 0) + MAC_LENGTH
  {
  }

  lemma GapsInside(s: seq<byte>, base: nat, counter: uint32, key: nat, ciphertext: nat, end: nat)
    requires HoldsMessage(s, base, PROTOCOL_VERSION, counter, key, CURVE25519_KEY_LENGTH, ciphertext, end)
    ensures base <= key && key + CURVE25519_KEY_LENGTH <= ciphertext <= end <= |s|
  {
  }
}
