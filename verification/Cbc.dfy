/** Cipher block chaining with padding (src/crypto.cpp), over an arbitrary block cipher; plaintext and
    ciphertext lie in one memory and may be the same bytes. */
module Cbc {
  import opened Words
  import opened ExclusiveOr

  const AES_BLOCK: nat := 16

  type AesBlock = b: seq<byte> | |b| == 16 witness seq(16, _ => 0)

  /** The cipher or its inverse under one key. */
  type BlockCipher = AesBlock -> AesBlock

  ghost predicate Inverse(d: BlockCipher, e: BlockCipher) {
    forall b: AesBlock :: d(e(b)) == b
  }

  function BlockAt(s: seq<byte>, pos: nat): AesBlock
    requires pos + AES_BLOCK <= |s|
  {
    s[pos..pos + AES_BLOCK]
  }

  function XorBlocks(a: AesBlock, b: AesBlock): AesBlock {
    seq(16, i requires 0 <= i < 16 => Xor(a[i], b[i]))
  }

  lemma XorBlocksTwice(a: AesBlock, b: AesBlock)
    ensures XorBlocks(XorBlocks(a, b), b) == a
    ensures XorBlocks(a, b) == XorBlocks(b, a)
  {
    hide Xor;
    forall i | 0 <= i < 16
      ensures Xor(Xor(a[i], b[i]), b[i]) == a[i] && Xor(a[i], b[i]) == Xor(b[i], a[i])
    {
      XorTwice(a[i], b[i]);
      XorCommutes(a[i], b[i]);
    }
  }

  // ----- the standards

  function EncryptedLength(n: nat): nat {
    n + AES_BLOCK - n % AES_BLOCK
  }

  /** Section 6.3 of RFC 5652. */
  function Pad(s: seq<byte>): (p: seq<byte>)
    ensures |p| % AES_BLOCK == 0 && |p| == EncryptedLength(|s|)
  {
    s + seq(AES_BLOCK - |s| % AES_BLOCK, _ => AES_BLOCK - |s| % AES_BLOCK)
  }

  /** Section 6.2 of NIST SP 800-38A. */
  function Chained(e: BlockCipher, iv: AesBlock, s: seq<byte>): (c: seq<byte>)
    requires |s| % AES_BLOCK == 0
    ensures |c| == |s|
    decreases |s|
  {
    if |s| == 0 then [] else
      var c: AesBlock := e(XorBlocks(iv, s[..AES_BLOCK]));
      c + Chained(e, c, s[AES_BLOCK..])
  }

  function Unchained(d: BlockCipher, iv: AesBlock, c: seq<byte>): (s: seq<byte>)
    requires |c| % AES_BLOCK == 0
    ensures |s| == |c|
    decreases |c|
  {
    if |c| == 0 then [] else
      XorBlocks(d(c[..AES_BLOCK]), iv) + Unchained(d, c[..AES_BLOCK], c[AES_BLOCK..])
  }

  function Encrypted(e: BlockCipher, iv: AesBlock, s: seq<byte>): (c: seq<byte>)
    ensures |c| == EncryptedLength(|s|) && |c| % AES_BLOCK == 0 && |c| > 0
  {
    Chained(e, iv, Pad(s))
  }

  /** The length left when the padding is taken off; None when it claims more than there is. */
  function UnpaddedLength(p: seq<byte>): (r: Option<nat>)
    requires |p| > 0
    ensures r.Some? ==> r.value <= |p|
  {
    var padding := p[|p| - 1];
    if padding > |p| then None else Some(|p| - padding)
  }

  lemma UnpadPad(s: seq<byte>)
    ensures UnpaddedLength(Pad(s)) == Some(|s|) && Pad(s)[..|s|] == s
  {
  }

  lemma {:induction false} UnchainedChained(d: BlockCipher, e: BlockCipher, iv: AesBlock, s: seq<byte>)
    requires |s| % AES_BLOCK == 0 && Inverse(d, e)
    ensures Unchained(d, iv, Chained(e, iv, s)) == s
    decreases |s|
  {
    hide XorBlocks;
    if |s| > 0 {
      var first: AesBlock := s[..AES_BLOCK];
      var c: AesBlock := e(XorBlocks(iv, first));
      var rest := Chained(e, c, s[AES_BLOCK..]);
      UnchainedChained(d, e, c, s[AES_BLOCK..]);
      assert (c + rest)[..AES_BLOCK] == c && (c + rest)[AES_BLOCK..] == rest;
      XorBlocksTwice(iv, first);
      XorBlocksTwice(first, iv);
      assert s == first + s[AES_BLOCK..];
    }
  }

  /** Decrypting what was encrypted gives the plaintext back, and its length. */
  lemma RoundTrip(d: BlockCipher, e: BlockCipher, iv: AesBlock, s: seq<byte>)
    requires Inverse(d, e)
    ensures var p := Unchained(d, iv, Encrypted(e, iv, s));
            UnpaddedLength(p) == Some(|s|) && p[..|s|] == s
  {
    hide Chained;
    hide Unchained;
    UnchainedChained(d, e, iv, Pad(s));
    UnpadPad(s);
  }

  // ----- the standards, block by block

  /** The padding is n bytes of value n, at least one and at most a block of them. */
  lemma PaddingIs(s: seq<byte>, n: nat)
    requires n == 16 - |s| % 16
    ensures 1 <= n <= 16 && |Pad(s)| == |s| + n && Pad(s)[..|s|] == s
    ensures forall i :: |s| <= i < |Pad(s)| ==> Pad(s)[i] == n
  {
  }

  /** What the last byte claims is taken off, unless it claims more than there is. */
  lemma UnpaddedIs(p: seq<byte>)
    requires |p| > 0
    ensures UnpaddedLength(p) == None <==> p[|p| - 1] > |p|
    ensures UnpaddedLength(p).Some? ==> UnpaddedLength(p).value + p[|p| - 1] == |p|
  {
  }

  lemma XorBlocksAt(a: AesBlock, b: AesBlock, i: nat)
    requires i < 16
    ensures XorBlocks(a, b)[i] == Xor(a[i], b[i])
  {
  }

  /** Every block of ciphertext is the encryption of its block of plaintext, combined with the block of ciphertext before,
      the first with the initial vector. */
  lemma {:induction false} ChainedAt(e: BlockCipher, iv: AesBlock, s: seq<byte>, k: nat)
    requires |s| % 16 == 0 && 16 * k + 16 <= |s|
    ensures var c := Chained(e, iv, s);
            var previous: AesBlock := if k == 0 then iv else c[16 * k - 16..16 * k];
            c[16 * k..16 * k + 16] == e(XorBlocks(previous, s[16 * k..16 * k + 16]))
    decreases k
  {
    hide XorBlocks;
    var first: AesBlock := e(XorBlocks(iv, s[..16]));
    var rest := Chained(e, first, s[16..]);
    assert Chained(e, iv, s) == first + rest;
    hide Chained;
    if k > 0 {
      ChainedAt(e, first, s[16..], k - 1);
      BlockOfRest(s[..16], s[16..], k);
      assert s[..16] + s[16..] == s;
      BlockOfRest(first, rest, k);
      if k > 1 {
        BlockOfRest(first, rest, k - 1);
      } else {
        assert (first + rest)[0..16] == first;
      }
    } else {
      assert (first + rest)[0..16] == first && s[0..16] == s[..16];
    }
  }

  lemma BlockOfRest(first: seq<byte>, rest: seq<byte>, k: nat)
    requires |first| == 16 && k > 0 && 16 * k <= |rest|
    ensures (first + rest)[16 * k..16 * k + 16] == rest[16 * (k - 1)..16 * (k - 1) + 16]
  {
  }

  lemma {:induction false} UnchainedAt(d: BlockCipher, iv: AesBlock, c: seq<byte>, k: nat)
    requires |c| % 16 == 0 && 16 * k + 16 <= |c|
    ensures var previous: AesBlock := if k == 0 then iv else c[16 * k - 16..16 * k];
            Unchained(d, iv, c)[16 * k..16 * k + 16] == XorBlocks(d(c[16 * k..16 * k + 16]), previous)
    decreases k
  {
    hide XorBlocks;
    var block: AesBlock := c[..16];
    var first: seq<byte> := XorBlocks(d(block), iv);
    var rest := Unchained(d, block, c[16..]);
    assert Unchained(d, iv, c) == first + rest;
    hide Unchained;
    if k > 0 {
      UnchainedAt(d, block, c[16..], k - 1);
      assert c[..16] + c[16..] == c;
      BlockOfRest(c[..16], c[16..], k);
      BlockOfRest(first, rest, k);
      if k > 1 {
        BlockOfRest(c[..16], c[16..], k - 1);
      } else {
        assert c[0..16] == c[..16];
      }
    } else {
      assert (first + rest)[0..16] == first && c[0..16] == c[..16];
    }
  }

  // ----- chaining one block more

  /** The block the next one is chained to. */
  function Chain(iv: AesBlock, c: seq<byte>): AesBlock
    requires |c| % AES_BLOCK == 0
  {
    if |c| == 0 then iv else c[|c| - AES_BLOCK..]
  }

  lemma {:induction false} ChainedMore(e: BlockCipher, iv: AesBlock, s: seq<byte>, block: AesBlock)
    requires |s| % AES_BLOCK == 0
    ensures Chained(e, iv, s + block) == Chained(e, iv, s) + e(XorBlocks(Chain(iv, Chained(e, iv, s)), block))
    decreases |s|
  {
    hide XorBlocks;
    if |s| == 0 {
      assert s + block == block;
      assert block[..AES_BLOCK] == block && block[AES_BLOCK..] == [];
    } else {
      var c: AesBlock := e(XorBlocks(iv, s[..AES_BLOCK]));
      var rest := Chained(e, c, s[AES_BLOCK..]);
      ChainedMore(e, c, s[AES_BLOCK..], block);
      assert (s + block)[..AES_BLOCK] == s[..AES_BLOCK] && (s + block)[AES_BLOCK..] == s[AES_BLOCK..] + block;
      assert Chain(iv, c + rest) == Chain(c, rest);
    }
  }

  lemma {:induction false} UnchainedMore(d: BlockCipher, iv: AesBlock, c: seq<byte>, block: AesBlock)
    requires |c| % AES_BLOCK == 0
    ensures Unchained(d, iv, c + block) == Unchained(d, iv, c) + XorBlocks(d(block), Chain(iv, c))
    decreases |c|
  {
    hide XorBlocks;
    if |c| == 0 {
      assert c + block == block;
      assert block[..AES_BLOCK] == block && block[AES_BLOCK..] == [];
    } else {
      var first: AesBlock := c[..AES_BLOCK];
      UnchainedMore(d, first, c[AES_BLOCK..], block);
      assert (c + block)[..AES_BLOCK] == first && (c + block)[AES_BLOCK..] == c[AES_BLOCK..] + block;
      assert Chain(iv, c) == Chain(first, c[AES_BLOCK..]);
    }
  }

  // ----- in memory

  method XorBlock(mem: array<byte>, pos: nat, input: AesBlock)
    requires pos + AES_BLOCK <= mem.Length
    modifies mem
    ensures mem[..] == Overwritten(old(mem[..]), pos, XorBlocks(old(mem[pos..pos + AES_BLOCK]), input))
  {
    hide Xor;
    for i := 0 to AES_BLOCK
      invariant forall k :: 0 <= k < i ==> mem[pos + k] == Xor(old(mem[pos + k]), input[k])
      invariant forall k :: 0 <= k < mem.Length && !(pos <= k < pos + i) ==> mem[k] == old(mem[k])
    {
      mem[pos + i] := Xor(mem[pos + i], input[i]);
    }
    ghost var was: AesBlock := old(mem[pos..pos + AES_BLOCK]);
    forall k | 0 <= k < AES_BLOCK
      ensures mem[pos..pos + AES_BLOCK][k] == XorBlocks(was, input)[k]
    {
      assert was[k] == old(mem[pos + k]);
    }
    assert mem[pos..pos + AES_BLOCK] == XorBlocks(was, input);
    assert mem[..] == mem[..pos] + mem[pos..pos + AES_BLOCK] + mem[pos + AES_BLOCK..];
  }

  /** The output does not reach plaintext or ciphertext still to be read. */
  predicate Apart(input: nat, length: nat, output: nat) {
    output <= input || input + length <= output
  }

  /** One round on the whole memory, for either direction: what has been produced grows by a block, and
      the input still to come is untouched. */
  lemma RoundKeepsRest(before: seq<byte>, now: seq<byte>, s: seq<byte>, done: seq<byte>, input: nat, output: nat, more: AesBlock)
    requires |before| == |now| && input + |s| <= |now| && |done| + AES_BLOCK <= |s|
    requires output + |done| + AES_BLOCK <= |now| && Apart(input, |s|, output)
    requires now == Overwritten(before, output, done)
    requires now[input + |done|..input + |s|] == s[|done|..]
    ensures now[input + |done|..input + |done| + AES_BLOCK] == BlockAt(s, |done|)
    ensures var after := Overwritten(now, output + |done|, more);
            && after == Overwritten(before, output, done + more)
            && after[input + |done| + AES_BLOCK..input + |s|] == s[|done| + AES_BLOCK..]
  {
    hide Overwritten;
    OverwrittenTwice(before, output, done, more);
    OverwrittenElsewhere(now, output + |done|, more, input + |done| + AES_BLOCK, input + |s|);
    SliceOfSlice(now, input + |done|, input + |s|, 0, AES_BLOCK);
    SliceOfSlice(now, input + |done|, input + |s|, AES_BLOCK, |s| - |done|);
    SliceOfSlice(s, |done|, |s|, 0, AES_BLOCK);
    SliceOfSlice(s, |done|, |s|, AES_BLOCK, |s| - |done|);
    assert s[|done|..|s|] == s[|done|..] && s[|done| + AES_BLOCK..|s|] == s[|done| + AES_BLOCK..];
  }

  lemma EncryptRound(e: BlockCipher, iv: AesBlock, s: seq<byte>, k: nat)
    requires AES_BLOCK * k + AES_BLOCK <= |s|
    ensures AES_BLOCK * k % AES_BLOCK == 0 && AES_BLOCK * (k + 1) % AES_BLOCK == 0
    ensures var done := Chained(e, iv, s[..AES_BLOCK * k]);
            var more := e(XorBlocks(Chain(iv, done), BlockAt(s, AES_BLOCK * k)));
            && Chained(e, iv, s[..AES_BLOCK * (k + 1)]) == done + more
            && Chain(iv, done + more) == more
  {
    hide Chained;
    hide XorBlocks;
    var block := BlockAt(s, AES_BLOCK * k);
    ChainedMore(e, iv, s[..AES_BLOCK * k], block);
    assert s[..AES_BLOCK * (k + 1)] == s[..AES_BLOCK * k] + block;
  }

  lemma DecryptRound(d: BlockCipher, iv: AesBlock, c: seq<byte>, k: nat)
    requires AES_BLOCK * k + AES_BLOCK <= |c|
    ensures AES_BLOCK * k % AES_BLOCK == 0 && AES_BLOCK * (k + 1) % AES_BLOCK == 0
    ensures var block := BlockAt(c, AES_BLOCK * k);
            && Unchained(d, iv, c[..AES_BLOCK * (k + 1)])
               == Unchained(d, iv, c[..AES_BLOCK * k]) + XorBlocks(d(block), Chain(iv, c[..AES_BLOCK * k]))
            && Chain(iv, c[..AES_BLOCK * (k + 1)]) == block
  {
    hide Unchained;
    hide XorBlocks;
    var block := BlockAt(c, AES_BLOCK * k);
    UnchainedMore(d, iv, c[..AES_BLOCK * k], block);
    assert c[..AES_BLOCK * (k + 1)] == c[..AES_BLOCK * k] + block;
  }

  lemma LastBlock(e: BlockCipher, iv: AesBlock, s: seq<byte>, k: nat)
    requires k == |s| / AES_BLOCK
    ensures AES_BLOCK * k % AES_BLOCK == 0 && AES_BLOCK * k <= |s| && |s| - AES_BLOCK * k < AES_BLOCK
    ensures var done := Chained(e, iv, s[..AES_BLOCK * k]);
            Encrypted(e, iv, s) == done + e(XorBlocks(Chain(iv, done), Pad(s[AES_BLOCK * k..])))
  {
    hide Chained;
    hide XorBlocks;
    var tail := s[AES_BLOCK * k..];
    assert |tail| == |s| % AES_BLOCK && |tail| % AES_BLOCK == |tail|;
    assert Pad(s) == s[..AES_BLOCK * k] + Pad(tail);
    ChainedMore(e, iv, s[..AES_BLOCK * k], Pad(tail));
  }

  lemma NothingChained(e: BlockCipher, iv: AesBlock)
    ensures Chained(e, iv, []) == [] && Unchained(e, iv, []) == [] && Chain(iv, []) == iv
  {
  }

  /** The rest of the input, then the padding, folded into the last block. */
  method FinishBlock(block: array<byte>, tail: seq<byte>)
    requires block.Length == AES_BLOCK && |tail| < AES_BLOCK
    modifies block
    ensures |Pad(tail)| == AES_BLOCK && block[..] == XorBlocks(old(block[..]), Pad(tail))
  {
    hide Xor;
    var i := 0;
    while i < |tail|
      invariant 0 <= i <= |tail|
      invariant forall k :: 0 <= k < i ==> block[k] == Xor(old(block[k]), tail[k])
      invariant forall k :: i <= k < AES_BLOCK ==> block[k] == old(block[k])
    {
      block[i] := Xor(block[i], tail[i]);
      i := i + 1;
    }
    while i < AES_BLOCK
      invariant |tail| <= i <= AES_BLOCK
      invariant forall k :: 0 <= k < |tail| ==> block[k] == Xor(old(block[k]), tail[k])
      invariant forall k :: |tail| <= k < i ==> block[k] == Xor(old(block[k]), AES_BLOCK - |tail|)
      invariant forall k :: i <= k < AES_BLOCK ==> block[k] == old(block[k])
    {
      block[i] := Xor(block[i], AES_BLOCK - |tail|);
      i := i + 1;
    }
    assert forall k :: 0 <= k < AES_BLOCK ==> block[k] == Xor(old(block[..])[k], Pad(tail)[k]);
  }

  method EncryptBlock(e: BlockCipher, inputBlock: array<byte>, mem: array<byte>, from: nat, to: nat)
    requires inputBlock.Length == AES_BLOCK && inputBlock != mem
    requires from + AES_BLOCK <= mem.Length && to + AES_BLOCK <= mem.Length
    modifies inputBlock, mem
    ensures var more := e(XorBlocks(old(inputBlock[..]), BlockAt(old(mem[..]), from)));
            inputBlock[..] == more && mem[..] == Overwritten(old(mem[..]), to, more)
  {
    hide XorBlocks;
    hide Overwritten;
    ghost var was: seq<byte>, now := inputBlock[..], mem[..];
    XorBlock(inputBlock, 0, mem[from..from + AES_BLOCK]);
    OverwrittenAll(was, XorBlocks(was, BlockAt(now, from)));
    PutBytes(mem, to, e(inputBlock[..]));
    OverwrittenAt(now, to, e(inputBlock[..]));
    ghost var half: seq<byte> := inputBlock[..];
    PutBytes(inputBlock, 0, mem[to..to + AES_BLOCK]);
    OverwrittenAll(half, e(half));
  }

  /** The ciphertext block is kept before it may be overwritten. */
  method DecryptBlock(d: BlockCipher, block1: AesBlock, mem: array<byte>, from: nat, to: nat) returns (block2: AesBlock)
    requires from + AES_BLOCK <= mem.Length && to + AES_BLOCK <= mem.Length
    modifies mem
    ensures block2 == BlockAt(old(mem[..]), from)
    ensures mem[..] == Overwritten(old(mem[..]), to, XorBlocks(d(block2), block1))
  {
    hide XorBlocks;
    hide Overwritten;
    ghost var now := mem[..];
    block2 := mem[from..from + AES_BLOCK];
    PutBytes(mem, to, d(mem[from..from + AES_BLOCK]));
    OverwrittenAt(now, to, d(block2));
    XorBlock(mem, to, block1);
    OverwrittenAgain(now, to, d(block2), XorBlocks(d(block2), block1));
  }

  lemma LastOfOverwritten(s: seq<byte>, pos: nat, w: seq<byte>)
    requires |w| > 0 && pos + |w| <= |s|
    ensures Overwritten(s, pos, w)[pos + |w| - 1] == w[|w| - 1]
  {
  }

  method EncryptCbc(e: BlockCipher, iv: AesBlock, mem: array<byte>, input: nat, length: nat, output: nat)
    requires input + length <= mem.Length && output + EncryptedLength(length) <= mem.Length
    requires Apart(input, length, output)
    modifies mem
    ensures mem[..] == Overwritten(old(mem[..]), output, Encrypted(e, iv, old(mem[input..input + length])))
  {
    hide Chained;
    hide Chain;
    hide Xor;
    hide XorBlocks;
    hide Pad;
    hide Encrypted;
    hide Overwritten;
    ghost var before: seq<byte>, s: seq<byte> := mem[..], mem[input..input + length];
    var inputBlock := new byte[16](i requires 0 <= i < 16 => iv[i]);
    assert inputBlock[..] == iv;
    var from, to, remaining := input, output, length;
    ghost var k: nat := 0;
    OverwrittenNothing(before, output);
    NothingChained(e, iv);
    assert s[..AES_BLOCK * k] == [];
    while remaining >= AES_BLOCK
      invariant from == input + AES_BLOCK * k && to == output + AES_BLOCK * k
      invariant remaining == length - AES_BLOCK * k >= 0 && AES_BLOCK * k % AES_BLOCK == 0
      invariant fresh(inputBlock) && inputBlock.Length == AES_BLOCK
      invariant inputBlock[..] == Chain(iv, Chained(e, iv, s[..AES_BLOCK * k]))
      invariant mem[..] == Overwritten(before, output, Chained(e, iv, s[..AES_BLOCK * k]))
      invariant mem[from..input + length] == s[AES_BLOCK * k..]
    {
      ghost var now, done := mem[..], Chained(e, iv, s[..AES_BLOCK * k]);
      EncryptRound(e, iv, s, k);
      ghost var a := AES_BLOCK * k;
      ghost var more := e(XorBlocks(Chain(iv, done), BlockAt(s, a)));
      RoundKeepsRest(before, now, s, done, input, output, more);
      EncryptBlock(e, inputBlock, mem, from, to);
      from, to, remaining := from + AES_BLOCK, to + AES_BLOCK, remaining - AES_BLOCK;
      k := k + 1;
    }
    LastBlock(e, iv, s, k);
    FinishBlock(inputBlock, mem[from..input + length]);
    PutBytes(mem, to, e(inputBlock[..]));
    OverwrittenTwice(before, output, Chained(e, iv, s[..AES_BLOCK * k]), e(inputBlock[..]));
  }

  method DecryptCbc(d: BlockCipher, iv: AesBlock, mem: array<byte>, input: nat, length: nat, output: nat)
    returns (unpadded: Option<nat>)
    requires length > 0 && length % AES_BLOCK == 0
    requires input + length <= mem.Length && output + length <= mem.Length
    requires Apart(input, length, output)
    modifies mem
    ensures var p := Unchained(d, iv, old(mem[input..input + length]));
            mem[..] == Overwritten(old(mem[..]), output, p) && unpadded == UnpaddedLength(p)
  {
    hide Unchained;
    hide Chain;
    hide Xor;
    hide EncryptedLength;
    hide XorBlocks;
    hide Overwritten;
    ghost var before: seq<byte>, s: seq<byte> := mem[..], mem[input..input + length];
    var block1: AesBlock := iv;
    var i := 0;
    ghost var k: nat := 0;
    OverwrittenNothing(before, output);
    NothingChained(d, iv);
    assert s[..AES_BLOCK * k] == [];
    while i < length
      invariant i == AES_BLOCK * k <= length
      invariant block1 == Chain(iv, s[..AES_BLOCK * k])
      invariant mem[..] == Overwritten(before, output, Unchained(d, iv, s[..AES_BLOCK * k]))
      invariant mem[input + i..input + length] == s[AES_BLOCK * k..]
    {
      ghost var now, done := mem[..], Unchained(d, iv, s[..AES_BLOCK * k]);
      ghost var a := AES_BLOCK * k;
      DecryptRound(d, iv, s, k);
      RoundKeepsRest(before, now, s, done, input, output, XorBlocks(d(BlockAt(s, a)), block1));
      block1 := DecryptBlock(d, block1, mem, input + i, output + i);
      assert mem[..][input + a + AES_BLOCK..input + length] == mem[input + a + AES_BLOCK..input + length];
      i := i + AES_BLOCK;
      k := k + 1;
    }
    assert s[..AES_BLOCK * k] == s;
    LastOfOverwritten(before, output, Unchained(d, iv, s));
    var padding := mem[output + length - 1];
    unpadded := if padding > length then None else Some(length - padding);
  }
}
