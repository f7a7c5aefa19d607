/** The authenticated cipher of src/cipher.cpp, and the primitives it and the sessions are built on. */
module Cipher {
  import opened Words
  import opened Sha256
  import opened Hmac
  import opened Cbc

  type PublicKey = k: seq<byte> | |k| == 32 witness seq(32, _ => 0)
  type SecretKey = k: seq<byte> | |k| == 64 witness seq(64, _ => 0)
  type Signature = s: seq<byte> | |s| == 64 witness seq(64, _ => 0)

  /** The SHA-256 compression function, AES under a key, and Ed25519: any functions of these types. */
  datatype Primitives = Primitives(
    compress: Compression,
    aesEncrypt: (seq<byte>, AesBlock) -> AesBlock,
    aesDecrypt: (seq<byte>, AesBlock) -> AesBlock,
    publicOf: SecretKey -> PublicKey,
    sign: (SecretKey, seq<byte>) -> Signature,
    verify: (PublicKey, seq<byte>, Signature) -> bool)

  /** Decryption inverts encryption, and what a key signs its public half verifies. */
  ghost predicate Sound(p: Primitives) {
    && (forall key: seq<byte>, b: AesBlock :: p.aesDecrypt(key, p.aesEncrypt(key, b)) == b)
    && (forall key: SecretKey, m: seq<byte> :: p.verify(p.publicOf(key), m, p.sign(key, m)))
  }

  const MAC_LENGTH: nat := 8

  datatype Keys = Keys(aes: seq<byte>, mac: seq<byte>, iv: AesBlock)

  /** Eighty bytes from the key derivation: 32 for AES, 32 for the MAC, 16 for the initial vector. */
  function DerivedKeys(p: Primitives, info: seq<byte>, key: seq<byte>): (k: Keys)
    ensures |k.mac| == 32
  {
    var secrets := Hkdf(p.compress, key, None, info, 80);
    Keys(secrets[..32], secrets[32..64], secrets[64..80])
  }

  function Encryptor(p: Primitives, key: seq<byte>): BlockCipher {
    (b: AesBlock) => p.aesEncrypt(key, b)
  }

  function Decryptor(p: Primitives, key: seq<byte>): BlockCipher {
    (b: AesBlock) => p.aesDecrypt(key, b)
  }

  function Ciphertext(p: Primitives, info: seq<byte>, key: seq<byte>, plaintext: seq<byte>): (c: seq<byte>)
    ensures |c| == EncryptedLength(|plaintext|) && |c| % AES_BLOCK == 0 && |c| > 0
  {
    var k := DerivedKeys(p, info, key);
    Encrypted(Encryptor(p, k.aes), k.iv, plaintext)
  }

  function Tag(p: Primitives, info: seq<byte>, key: seq<byte>, text: seq<byte>): (t: seq<byte>)
    ensures |t| == MAC_LENGTH
  {
    Mac(p.compress, DerivedKeys(p, info, key).mac, text)[..MAC_LENGTH]
  }

  function DecryptedBlocks(p: Primitives, info: seq<byte>, key: seq<byte>, ciphertext: seq<byte>): (s: seq<byte>)
    requires |ciphertext| % AES_BLOCK == 0
    ensures |s| == |ciphertext|
  {
    var k := DerivedKeys(p, info, key);
    Unchained(Decryptor(p, k.aes), k.iv, ciphertext)
  }

  /** What decryption comes to: refused, so many bytes of plaintext, or a ciphertext that is not
      a positive number of blocks, beyond whose ends the code would read. */
  datatype Outcome = Refused | Plaintext(length: nat) | BeyondCiphertext

  function OutcomeOf(p: Primitives, info: seq<byte>, key: seq<byte>, text: seq<byte>, tag: seq<byte>, ciphertext: seq<byte>): Outcome {
    if tag != Tag(p, info, key, text) then Refused
    else if |ciphertext| == 0 || |ciphertext| % AES_BLOCK != 0 then BeyondCiphertext
    else
      var n := UnpaddedLength(DecryptedBlocks(p, info, key, ciphertext));
      if n.None? then Refused else Plaintext(n.value)
  }

  /** A ciphertext opens to its plaintext under the tag of the text it came with. */
  lemma CiphertextOpens(p: Primitives, info: seq<byte>, key: seq<byte>, plaintext: seq<byte>, text: seq<byte>)
    requires Sound(p)
    ensures var c := Ciphertext(p, info, key, plaintext);
            && OutcomeOf(p, info, key, text, Tag(p, info, key, text), c) == Plaintext(|plaintext|)
            && DecryptedBlocks(p, info, key, c)[..|plaintext|] == plaintext
  {
    hide Encrypted;
    hide Unchained;
    hide DerivedKeys;
    var k := DerivedKeys(p, info, key);
    Cbc.RoundTrip(Decryptor(p, k.aes), Encryptor(p, k.aes), k.iv, plaintext);
  }

  // ----- what is derived, and what is refused

  /** The three keys, one after the other, are eighty bytes of HKDF without salt. */
  lemma KeysAreCut(p: Primitives, info: seq<byte>, key: seq<byte>)
    ensures var k := DerivedKeys(p, info, key);
            |k.aes| == 32 && |k.mac| == 32 && k.aes + k.mac + k.iv == Hkdf(p.compress, key, None, info, 80)
  {
    hide Hkdf;
  }

  /** The ciphertext is the padded plaintext, chained from the last 16 of the derived bytes and encrypted under the first 32. */
  lemma CiphertextBlock(p: Primitives, info: seq<byte>, key: seq<byte>, plaintext: seq<byte>, okm: seq<byte>, c: seq<byte>, k: nat)
    requires okm == Hkdf(p.compress, key, None, info, 80) && c == Ciphertext(p, info, key, plaintext) && 16 * k + 16 <= |c|
    ensures |Pad(plaintext)| == |c|
    ensures var previous: AesBlock := if k == 0 then okm[64..] else c[16 * k - 16..16 * k];
            c[16 * k..16 * k + 16] == p.aesEncrypt(okm[..32], XorBlocks(previous, Pad(plaintext)[16 * k..16 * k + 16]))
  {
    hide Hkdf;
    hide Chained;
    hide XorBlocks;
    hide Pad;
    ChainedAt(Encryptor(p, okm[..32]), okm[64..80], Pad(plaintext), k);
    assert okm[64..80] == okm[64..];
  }

  lemma DecryptedBlock(p: Primitives, info: seq<byte>, key: seq<byte>, c: seq<byte>, okm: seq<byte>, k: nat)
    requires okm == Hkdf(p.compress, key, None, info, 80) && |c| % 16 == 0 && 16 * k + 16 <= |c|
    ensures var previous: AesBlock := if k == 0 then okm[64..] else c[16 * k - 16..16 * k];
            DecryptedBlocks(p, info, key, c)[16 * k..16 * k + 16]
            == XorBlocks(p.aesDecrypt(okm[..32], c[16 * k..16 * k + 16]), previous)
  {
    hide Hkdf;
    hide Unchained;
    hide XorBlocks;
    UnchainedAt(Decryptor(p, okm[..32]), okm[64..80], c, k);
    assert okm[64..80] == okm[64..];
  }

  /** The tag that a text needs: the first eight bytes of its HMAC under the middle 32 of the derived bytes. */
  lemma TagIs(p: Primitives, info: seq<byte>, key: seq<byte>, text: seq<byte>)
    ensures Tag(p, info, key, text) == Mac(p.compress, Hkdf(p.compress, key, None, info, 80)[32..64], text)[..8]
  {
    hide Hkdf;
    hide Mac;
  }

  /** The tag is the one that the text needs. */
  predicate Tagged(p: Primitives, info: seq<byte>, key: seq<byte>, text: seq<byte>, tag: seq<byte>) {
    tag == Mac(p.compress, Hkdf(p.compress, key, None, info, 80)[32..64], text)[..8]
  }

  lemma TagIsTagged(p: Primitives, info: seq<byte>, key: seq<byte>, text: seq<byte>)
    ensures Tagged(p, info, key, text, Tag(p, info, key, text))
  {
    hide Hkdf;
    hide Mac;
  }

  /** A plaintext comes out if and only if the tag is right, the ciphertext is a positive number of blocks, and its last byte
      once decrypted claims no more padding than there is; with a right tag, any other length is beyond the ciphertext. All
      else is refused. */
  lemma OutcomeIs(p: Primitives, info: seq<byte>, key: seq<byte>, text: seq<byte>, tag: seq<byte>, c: seq<byte>)
    ensures var r := OutcomeOf(p, info, key, text, tag, c);
            var tagged := Tagged(p, info, key, text, tag);
            var whole := |c| > 0 && |c| % 16 == 0;
            && (r.BeyondCiphertext? <==> tagged && !whole)
            && (r.Plaintext? <==> tagged && whole && DecryptedBlocks(p, info, key, c)[|c| - 1] <= |c|)
            && (r.Plaintext? ==> r.length + DecryptedBlocks(p, info, key, c)[|c| - 1] == |c|)
  {
    hide Hkdf;
    hide Mac;
    hide DecryptedBlocks;
    TagIs(p, info, key, text);
    hide Tag;
    if |c| > 0 && |c| % 16 == 0 {
      UnpaddedIs(DecryptedBlocks(p, info, key, c));
    }
  }

  // ----- the operations

  method DeriveKeys(p: Primitives, info: seq<byte>, key: seq<byte>) returns (keys: Keys)
    requires |info| < TWO_TO_THE_32 && |key| < TWO_TO_THE_32
    ensures keys == DerivedKeys(p, info, key)
  {
    hide Hkdf;
    var secrets := HkdfSha256(p.compress, key, None, info, 80);
    keys := Keys(secrets[..32], secrets[32..64], secrets[64..80]);
  }

  /** Encrypts into `ciphertext`, then puts the tag of everything before it at the end of the output. */
  method EncryptAndTag(p: Primitives, info: seq<byte>, key: seq<byte>, mem: array<byte>, plaintext: nat, plaintextLength: nat,
                       ciphertext: nat, ciphertextLength: nat, output: nat, outputLength: nat) returns (ok: bool)
    requires |info| < TWO_TO_THE_32 && |key| < TWO_TO_THE_32 && outputLength < TWO_TO_THE_32
    requires plaintext + plaintextLength <= mem.Length && Apart(plaintext, plaintextLength, ciphertext)
    requires ciphertext + ciphertextLength <= mem.Length && output + outputLength <= mem.Length
    modifies mem
    ensures ok <==> ciphertextLength >= EncryptedLength(plaintextLength) && outputLength >= MAC_LENGTH
    ensures !ok ==> mem[..] == old(mem[..])
    ensures ok ==>
      var c := Ciphertext(p, info, key, old(mem[plaintext..plaintext + plaintextLength]));
      && ciphertext + |c| <= mem.Length
      && var mid := Overwritten(old(mem[..]), ciphertext, c);
         var end := output + outputLength - MAC_LENGTH;
         mem[..] == Overwritten(mid, end, Tag(p, info, key, mid[output..end]))
  {
    hide Encrypted;
    hide DerivedKeys;
    hide Mac;
    hide Overwritten;
    if ciphertextLength < EncryptedLength(plaintextLength) || outputLength < MAC_LENGTH {
      return false;
    }
    var keys := DeriveKeys(p, info, key);
    EncryptCbc(Encryptor(p, keys.aes), keys.iv, mem, plaintext, plaintextLength, ciphertext);
    var mac := HmacSha256(p.compress, keys.mac, mem[output..output + outputLength - MAC_LENGTH]);
    PutBytes(mem, output + outputLength - MAC_LENGTH, mac[..MAC_LENGTH]);
    return true;
  }

  method CheckAndDecrypt(p: Primitives, info: seq<byte>, key: seq<byte>, mem: array<byte>, input: nat, inputLength: nat,
                         ciphertext: nat, ciphertextLength: nat, plaintext: nat, maxPlaintext: nat) returns (r: Outcome)
    requires |info| < TWO_TO_THE_32 && |key| < TWO_TO_THE_32 && inputLength < TWO_TO_THE_32
    requires input + inputLength <= mem.Length && ciphertext + ciphertextLength <= mem.Length
    requires plaintext + maxPlaintext <= mem.Length && Apart(ciphertext, ciphertextLength, plaintext)
    modifies mem
    ensures maxPlaintext < ciphertextLength || inputLength < MAC_LENGTH ==> r == Refused && mem[..] == old(mem[..])
    ensures maxPlaintext >= ciphertextLength && inputLength >= MAC_LENGTH ==>
      var body := inputLength - MAC_LENGTH;
      var c := old(mem[ciphertext..ciphertext + ciphertextLength]);
      && r == OutcomeOf(p, info, key, old(mem[input..input + body]), old(mem[input + body..input + inputLength]), c)
      && (r.Plaintext? ==> |c| % AES_BLOCK == 0
                           && mem[..] == Overwritten(old(mem[..]), plaintext, DecryptedBlocks(p, info, key, c)))
      && (r.BeyondCiphertext? ==> mem[..] == old(mem[..]))
      && (!Tagged(p, info, key, old(mem[input..input + body]), old(mem[input + body..input + inputLength]))
          ==> r == Refused && mem[..] == old(mem[..]))
      && forall a, b :: 0 <= a <= b <= mem.Length && (b <= plaintext || plaintext + ciphertextLength <= a) ==>
                          mem[..][a..b] == old(mem[..])[a..b]
  {
    hide Unchained;
    hide DerivedKeys;
    hide Mac;
    hide Hkdf;
    hide Overwritten;
    hide UnpaddedLength;
    if maxPlaintext < ciphertextLength || inputLength < MAC_LENGTH {
      return Refused;
    }
    var keys := DeriveKeys(p, info, key);
    var body := inputLength - MAC_LENGTH;
    var mac := HmacSha256(p.compress, keys.mac, mem[input..input + body]);
    TagIs(p, info, key, mem[input..input + body]);
    if mem[input + body..input + inputLength] != mac[..MAC_LENGTH] {
      return Refused;
    }
    if ciphertextLength == 0 || ciphertextLength % AES_BLOCK != 0 {
      return BeyondCiphertext;
    }
    ghost var before: seq<byte>, c: seq<byte> := mem[..], mem[ciphertext..ciphertext + ciphertextLength];
    var n := DecryptCbc(Decryptor(p, keys.aes), keys.iv, mem, ciphertext, ciphertextLength, plaintext);
    forall a, b | 0 <= a <= b <= mem.Length && (b <= plaintext || plaintext + ciphertextLength <= a)
      ensures mem[..][a..b] == before[a..b]
    {
      OverwrittenElsewhere(before, plaintext, DecryptedBlocks(p, info, key, c), a, b);
    }
    r := if n.None? then Refused else Plaintext(n.value);
  }
}
