/** Encrypting a pickle and putting it in base64, all in one buffer, and back (src/pickle_encoding.c). */
module PickleEncoding {
  import opened Words
  import opened Base64
  import opened Cipher
  import opened Cbc

  /** "Pickle" */
  const PICKLE_INFO: seq<byte> := [0x50, 0x69, 0x63, 0x6B, 0x6C, 0x65]

  function SealedLength(rawLength: nat): (n: nat)
    ensures n > rawLength
  {
    EncryptedLength(rawLength) + MAC_LENGTH
  }

  function EncOutputLength(rawLength: nat): int {
    EncodedLength(SealedLength(rawLength))
  }

  /** Where in the output buffer the raw bytes must be put. */
  function EncOutputPos(output: nat, rawLength: nat): (pos: int)
    ensures pos >= output && pos + SealedLength(rawLength) == output + EncOutputLength(rawLength)
  {
    EncodedIsLonger(SealedLength(rawLength));
    output + EncOutputLength(rawLength) - SealedLength(rawLength)
  }

  function Sealed(p: Primitives, key: seq<byte>, raw: seq<byte>): (s: seq<byte>)
    ensures |s| == SealedLength(|raw|)
  {
    var c := Ciphertext(p, PICKLE_INFO, key, raw);
    c + Tag(p, PICKLE_INFO, key, c)
  }

  /** What an opened pickle comes to: `Raw` bytes of plaintext, or why not. */
  datatype Opened = Raw(length: nat) | InvalidBase64 | BadAccountKey | BeyondInput

  function OpenedOf(p: Primitives, key: seq<byte>, sealed: seq<byte>): (r: Opened)
    ensures r.Raw? ==> |sealed| > MAC_LENGTH && r.length <= |sealed| - MAC_LENGTH && (|sealed| - MAC_LENGTH) % AES_BLOCK == 0
  {
    if |sealed| < MAC_LENGTH then BadAccountKey
    else
      var n := |sealed| - MAC_LENGTH;
      match OutcomeOf(p, PICKLE_INFO, key, sealed[..n], sealed[n..], sealed[..n])
      case Refused => BadAccountKey
      case BeyondCiphertext => BeyondInput
      case Plaintext(length) => Raw(length)
  }

  /** A seal is the ciphertext under the info "Pickle", and its tag. */
  lemma SealedIs(p: Primitives, key: seq<byte>, raw: seq<byte>, info: seq<byte>)
    requires info == [0x50, 0x69, 0x63, 0x6B, 0x6C, 0x65]
    ensures var s := Sealed(p, key, raw);
            && |s| >= 8 && s[..|s| - 8] == Ciphertext(p, info, key, raw)
            && Tagged(p, info, key, s[..|s| - 8], s[|s| - 8..])
  {
    hide Ciphertext;
    hide Tagged;
    hide Tag;
    TagIsTagged(p, info, key, Ciphertext(p, info, key, raw));
  }

  /** Raw bytes come out if and only if there is more than a tag, the tag is right, and before it lies a positive number of blocks with
      a padding no longer than they are; the code reads beyond its input if the tag is right and there are no such blocks. */
  lemma OpenedIs(p: Primitives, key: seq<byte>, sealed: seq<byte>, info: seq<byte>)
    requires info == [0x50, 0x69, 0x63, 0x6B, 0x6C, 0x65]
    ensures var r := OpenedOf(p, key, sealed);
            var n := |sealed| - 8;
            var tagged := n >= 0 && Tagged(p, info, key, sealed[..n], sealed[n..]);
            var whole := n > 0 && n % 16 == 0;
            && (r.Raw? <==> tagged && whole && DecryptedBlocks(p, info, key, sealed[..n])[n - 1] <= n)
            && (r.Raw? ==> r.length + DecryptedBlocks(p, info, key, sealed[..n])[n - 1] == n)
            && (r.BeyondInput? <==> tagged && !whole)
            && r != InvalidBase64
  {
    hide OutcomeOf;
    hide DecryptedBlocks;
    hide Tagged;
    if |sealed| >= 8 {
      var n := |sealed| - 8;
      OutcomeIs(p, info, key, sealed[..n], sealed[n..], sealed[..n]);
    }
  }

  /** Opening what was sealed gives the raw bytes back. */
  lemma SealedOpens(p: Primitives, key: seq<byte>, raw: seq<byte>)
    requires Sound(p)
    ensures var sealed := Sealed(p, key, raw);
            && OpenedOf(p, key, sealed) == Raw(|raw|)
            && DecryptedBlocks(p, PICKLE_INFO, key, sealed[..|sealed| - MAC_LENGTH])[..|raw|] == raw
  {
    hide Ciphertext;
    hide Tag;
    hide OutcomeOf;
    hide DecryptedBlocks;
    var c := Ciphertext(p, PICKLE_INFO, key, raw);
    var sealed := Sealed(p, key, raw);
    CiphertextOpens(p, PICKLE_INFO, key, raw, c);
    assert sealed[..|c|] == c && sealed[|c|..] == Tag(p, PICKLE_INFO, key, c);
  }

  /** Encrypts the raw bytes where they lie, appends the tag, then encodes the lot from its end over itself. */
  method EncOutput(p: Primitives, key: seq<byte>, mem: array<byte>, output: nat, rawLength: nat) returns (length: nat)
    requires |key| < TWO_TO_THE_32 && SealedLength(rawLength) < TWO_TO_THE_32
    requires output + EncOutputLength(rawLength) <= mem.Length
    modifies mem
    ensures EncOutputPos(output, rawLength) + rawLength <= mem.Length
    ensures var pos := EncOutputPos(output, rawLength);
            var text := Encoded(Sealed(p, key, old(mem[..])[pos..pos + rawLength]));
            length == |text| && Wrote(old(mem[..]), mem[..], output, text)
  {
    hide Ciphertext;
    hide Tag;
    hide Encoded;
    hide EncodedLength;
    hide Overwritten;
    var ciphertextLength := EncryptedLength(rawLength);
    var pos := EncOutputPos(output, rawLength);
    ghost var before: seq<byte>, raw: seq<byte> := mem[..], mem[pos..pos + rawLength];
    ghost var c := Ciphertext(p, PICKLE_INFO, key, raw);
    var ok := EncryptAndTag(p, PICKLE_INFO, key, mem, pos, rawLength, pos, ciphertextLength, pos, ciphertextLength + MAC_LENGTH);
    OverwrittenAt(before, pos, c);
    OverwrittenTwice(before, pos, c, Tag(p, PICKLE_INFO, key, c));
    OverwrittenAt(before, pos, Sealed(p, key, raw));
    var end := EncodeBase64(mem, pos, ciphertextLength + MAC_LENGTH, output);
    OverwrittenWithin(before, output, pos, Sealed(p, key, raw), Encoded(Sealed(p, key, raw)));
    length := end - output;
  }

  /** Decodes and decrypts in place: the raw bytes end up at the start of the input. */
  method EncInput(p: Primitives, key: seq<byte>, mem: array<byte>, input: nat, length: nat) returns (r: Opened)
    requires |key| < TWO_TO_THE_32 && length < TWO_TO_THE_32
    requires input + length <= mem.Length
    modifies mem
    ensures r == InvalidBase64 <==> length % 4 == 1
    ensures length % 4 != 1 ==>
      var sealed := Decoded(old(mem[input..input + length]));
      && r == OpenedOf(p, key, sealed)
      && (r.Raw? ==>
            && input + r.length < mem.Length
            && mem[input..input + r.length] == DecryptedBlocks(p, PICKLE_INFO, key, sealed[..|sealed| - MAC_LENGTH])[..r.length])
  {
    hide Decoded;
    hide DecodedLength;
    hide Tag;
    hide DecryptedBlocks;
    hide Overwritten;
    hide OutcomeOf;
    LengthsUndo(length);
    var sealedLength := DecodedLength(length);
    if sealedLength == None {
      return InvalidBase64;
    }
    DecodedIsShorter(length);
    ghost var before: seq<byte> := mem[..];
    ghost var sealed := Decoded(before[input..input + length]);
    var _ := DecodeBase64(mem, input, length, input);
    OverwrittenAt(before, input, sealed);
    if sealedLength.value < MAC_LENGTH {  // the unsigned difference wraps around, and decryption refuses so short an input
      return BadAccountKey;
    }
    r := Open(p, key, mem, input, sealedLength.value);
  }

  /** The decryption, in place. */
  method Open(p: Primitives, key: seq<byte>, mem: array<byte>, input: nat, sealedLength: nat) returns (r: Opened)
    requires |key| < TWO_TO_THE_32 && MAC_LENGTH <= sealedLength < TWO_TO_THE_32 && input + sealedLength <= mem.Length
    modifies mem
    ensures var sealed := old(mem[input..input + sealedLength]);
      && r == OpenedOf(p, key, sealed)
      && (r.Raw? ==>
            && input + r.length < mem.Length
            && mem[input..input + r.length] == DecryptedBlocks(p, PICKLE_INFO, key, sealed[..|sealed| - MAC_LENGTH])[..r.length])
  {
    hide Tagged;
    hide Tag;
    hide DecryptedBlocks;
    hide Overwritten;
    hide OutcomeOf;
    var n := sealedLength - MAC_LENGTH;
    ghost var now: seq<byte>, sealed: seq<byte> := mem[..], mem[input..input + sealedLength];
    SliceOfSlice(now, input, input + sealedLength, 0, n);
    SliceOfSlice(now, input, input + sealedLength, n, sealedLength);
    OpenedFits(p, key, sealed);
    var outcome := CheckAndDecrypt(p, PICKLE_INFO, key, mem, input, sealedLength, input, n, input, n);
    match outcome {
      case Refused => r := BadAccountKey;
      case BeyondCiphertext => r := BeyondInput;
      case Plaintext(rawLength) =>
        r := Raw(rawLength);
        OverwrittenPart(now, input, DecryptedBlocks(p, PICKLE_INFO, key, sealed[..n]), rawLength);
    }
  }

  lemma OpenedFits(p: Primitives, key: seq<byte>, sealed: seq<byte>)
    ensures OpenedOf(p, key, sealed).Raw? ==> OpenedOf(p, key, sealed).length < |sealed|
  {
    hide OutcomeOf;
  }
}
