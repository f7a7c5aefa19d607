/** SHA-256 as a stream (lib/crypto-algorithms/sha256.c), over an arbitrary compression function. */
module Sha256 {
  import opened Words

  const BLOCK: nat := 64

  type HashState = s: seq<uint32> | |s| == 8 witness seq(8, _ => 0)
  type HashBlock = b: seq<byte> | |b| == 64 witness seq(64, _ => 0)

  /** sha256_transform. */
  type Compression = (HashState, HashBlock) -> HashState

  const INITIAL: HashState := [0x6a09e667, 0xbb67ae85, 0x3c6ef372, 0xa54ff53a, 0x510e527f, 0x9b05688c, 0x1f83d9ab, 0x5be0cd19]

  function Zeros(n: nat): (z: seq<byte>)
    ensures |z| == n
  {
    seq(n, _ => 0)
  }

  // ----- the standard: pad the whole message, then fold over its blocks

  function Folded(f: Compression, s: HashState, m: seq<byte>): HashState
    requires |m| % BLOCK == 0
    decreases |m|
  {
    if |m| == 0 then s else Folded(f, f(s, m[..BLOCK]), m[BLOCK..])
  }

  /** The eight bytes of a 64-bit number, most significant first. */
  function BigEndian64(n: nat): (s: seq<byte>)
    ensures |s| == 8
  {
    [n / 0x100_0000_0000_0000 % 0x100, n / 0x1_0000_0000_0000 % 0x100, n / 0x100_0000_0000 % 0x100, n / 0x1_0000_0000 % 0x100,
     n / 0x100_0000 % 0x100, n / 0x1_0000 % 0x100, n / 0x100 % 0x100, n % 0x100]
  }

  /** The fewest zeros that fill the last block (section 5.1.1 of FIPS 180-4, in bytes). */
  function ZeroCount(n: nat): (k: nat)
    ensures (n + 1 + k + 8) % BLOCK == 0 && k < BLOCK
  {
    (119 - n % 64) % 64
  }

  function Padded(m: seq<byte>): (p: seq<byte>)
    ensures |p| % BLOCK == 0
  {
    m + [0x80] + Zeros(ZeroCount(|m|)) + BigEndian64(8 * |m| % TWO_TO_THE_64)
  }

  function StateBytes(s: HashState): (b: seq<byte>)
    ensures |b| == 32
  {
    BigEndian32(s[0]) + BigEndian32(s[1]) + BigEndian32(s[2]) + BigEndian32(s[3])
    + BigEndian32(s[4]) + BigEndian32(s[5]) + BigEndian32(s[6]) + BigEndian32(s[7])
  }

  function Digest(f: Compression, m: seq<byte>): (d: seq<byte>)
    ensures |d| == 32
  {
    StateBytes(Folded(f, INITIAL, Padded(m)))
  }

  // ----- the standard, independently

  lemma ByteOf32(w: uint32, i: nat, d: nat)
    requires (i == 0 && d == 0x100_0000) || (i == 1 && d == 0x1_0000) || (i == 2 && d == 0x100) || (i == 3 && d == 1)
    ensures |BigEndian32(w)| == 4 && BigEndian32(w)[i] == w / d % 0x100
  {
  }

  lemma LowByteOf64(n: nat, i: nat, d: nat)
    requires (i == 4 && d == 0x100_0000) || (i == 5 && d == 0x1_0000) || (i == 6 && d == 0x100) || (i == 7 && d == 1)
    ensures BigEndian64(n)[i] == n / d % 0x100
  {
  }

  lemma HighByteOf64(n: nat, i: nat, d: nat)
    requires (i == 0 && d == 0x100_0000) || (i == 1 && d == 0x1_0000) || (i == 2 && d == 0x100) || (i == 3 && d == 1)
    ensures BigEndian64(n)[i] == n / (0x1_0000_0000 * d) % 0x100
  {
  }

  lemma EighthAt(high: uint32, low: uint32, i: nat, d: nat)
    requires (i % 4 == 0 && d == 0x100_0000) || (i % 4 == 1 && d == 0x1_0000) || (i % 4 == 2 && d == 0x100) || (i % 4 == 3 && d == 1)
    requires i < 8
    ensures |BigEndian32(high)| == |BigEndian32(low)| == 4
    ensures BigEndian64(high * 0x1_0000_0000 + low)[i] == if i < 4 then BigEndian32(high)[i] else BigEndian32(low)[i - 4]
  {
    hide BigEndian32;
    hide BigEndian64;
    var n := high * 0x1_0000_0000 + low;
    ByteOf32(high, i % 4, d);
    ByteOf32(low, i % 4, d);
    if i < 4 {
      HighByteOf64(n, i, d);
      UpperByte(high, low, d, n / (0x1_0000_0000 * d));
    } else {
      LowByteOf64(n, i, d);
      LowerByte(high, low, d, if d == 1 then 0x100_0000 else if d == 0x100 then 0x1_0000 else if d == 0x1_0000 then 0x100 else 1, n / d);
    }
  }

  /** Eight bytes are the two words of the number, upper word first. */
  lemma TwoWords(high: uint32, low: uint32)
    ensures BigEndian64(high * 0x1_0000_0000 + low) == BigEndian32(high) + BigEndian32(low)
  {
    hide BigEndian32;
    hide BigEndian64;
    forall i | 0 <= i < 8
      ensures |BigEndian32(high)| == |BigEndian32(low)| == 4
      ensures BigEndian64(high * 0x1_0000_0000 + low)[i] == (BigEndian32(high) + BigEndian32(low))[i]
    {
      EighthAt(high, low, i, if i % 4 == 0 then 0x100_0000 else if i % 4 == 1 then 0x1_0000 else if i % 4 == 2 then 0x100 else 1);
    }
    EighthAt(high, low, 0, 0x100_0000);
  }

  lemma UpperByte(high: uint32, low: uint32, m: nat, q: nat)
    requires m == 1 || m == 0x100 || m == 0x1_0000 || m == 0x100_0000
    requires q == (high * 0x1_0000_0000 + low) / (0x1_0000_0000 * m)
    ensures q % 0x100 == high / m % 0x100
  {
    DivModUnique(high * 0x1_0000_0000 + low, 0x1_0000_0000 * m, high / m, high % m * 0x1_0000_0000 + low);
  }

  lemma LowerByte(high: uint32, low: uint32, m: nat, r: nat, q: nat)
    requires (m == 1 && r == 0x100_0000) || (m == 0x100 && r == 0x1_0000) || (m == 0x1_0000 && r == 0x100) || (m == 0x100_0000 && r == 1)
    requires q == (high * 0x1_0000_0000 + low) / m
    ensures q % 0x100 == low / m % 0x100
  {
    DivModUnique(high * 0x1_0000_0000 + low, m, high * r * 0x100 + low / m, low % m);
    DivModUnique(q, 0x100, high * r + low / m / 0x100, low / m % 0x100);
  }

  /** The message, a one bit, the fewest zero bits that leave 64 bits to the end of a block, and in these the length in bits
      modulo 2^64 (section 5.1.1 of FIPS 180-4). */
  lemma PaddedIs(m: seq<byte>, high: uint32, low: uint32)
    requires high * 0x1_0000_0000 + low == 8 * |m| % 0x1_0000_0000_0000_0000
    ensures var p, end := Padded(m), |Padded(m)| - 8;
            && |p| % 64 == 0 && |m| < end < |m| + 65
            && p[..|m|] == m && p[|m|] == 0x80 && (forall k :: |m| < k < end ==> p[k] == 0)
            && p[end..] == BigEndian32(high) + BigEndian32(low)
  {
    hide BigEndian32;
    hide BigEndian64;
    TwoWords(high, low);
    var p, zeros := Padded(m), Zeros(ZeroCount(|m|));
    assert p == m + ([0x80] + zeros + BigEndian64(8 * |m| % TWO_TO_THE_64));
    assert p[|m| + 1..|p| - 8] == zeros;
    assert forall k :: |m| < k < |p| - 8 ==> p[k] == p[|m| + 1..|p| - 8][k - |m| - 1];
  }

  /** The initial words are the first 32 bits of the fractional parts of the square roots of the first eight primes
      (section 5.3.3 of FIPS 180-4). */
  lemma InitialWords()
    ensures RootBits(2, 1, INITIAL[0]) && RootBits(3, 1, INITIAL[1]) && RootBits(5, 2, INITIAL[2]) && RootBits(7, 2, INITIAL[3])
    ensures RootBits(11, 3, INITIAL[4]) && RootBits(13, 3, INITIAL[5]) && RootBits(17, 4, INITIAL[6]) && RootBits(19, 4, INITIAL[7])
  {
  }

  /** The square root of n is whole and word / 2^32, and less than 2^-32 more. */
  predicate RootBits(n: nat, whole: nat, word: uint32) {
    var root := whole * 0x1_0000_0000 + word;
    root * root <= n * 0x1_0000_0000_0000_0000 < (root + 1) * (root + 1)
  }

  /** The digest is the eight words, most significant byte first. */
  lemma StateByteAt(s: HashState, k: nat)
    requires k < 8
    ensures StateBytes(s)[4 * k..4 * k + 4] == BigEndian32(s[k])
  {
    hide BigEndian32;
    BigEndian32RoundTrip(s[0]);
    BigEndian32RoundTrip(s[1]);
    BigEndian32RoundTrip(s[2]);
    BigEndian32RoundTrip(s[3]);
    BigEndian32RoundTrip(s[4]);
    BigEndian32RoundTrip(s[5]);
    BigEndian32RoundTrip(s[6]);
    BigEndian32RoundTrip(s[7]);
  }

  /** A message of one block: its padding, compressed once from the initial words. */
  lemma DigestOfShort(f: Compression, m: seq<byte>)
    requires |m| < 56
    ensures |Padded(m)| == 64
    ensures Digest(f, m) == StateBytes(f([0x6a09e667, 0xbb67ae85, 0x3c6ef372, 0xa54ff53a, 0x510e527f, 0x9b05688c, 0x1f83d9ab, 0x5be0cd19], Padded(m)))
  {
    hide StateBytes;
    FoldedOne(f, INITIAL, Padded(m));
  }

  // ----- folding block by block

  lemma FoldedOne(f: Compression, s: HashState, block: HashBlock)
    ensures Folded(f, s, block) == f(s, block)
  {
    assert block[..BLOCK] == block && block[BLOCK..] == [];
    assert Folded(f, f(s, block), []) == f(s, block);
  }

  lemma {:induction false} FoldedMore(f: Compression, s: HashState, m: seq<byte>, block: HashBlock)
    requires |m| % BLOCK == 0
    ensures |m + block| % BLOCK == 0
    ensures Folded(f, s, m + block) == f(Folded(f, s, m), block)
    decreases |m|
  {
    if |m| == 0 {
      assert m + block == block;
      FoldedOne(f, s, block);
    } else {
      FoldedMore(f, f(s, m[..BLOCK]), m[BLOCK..], block);
      assert (m + block)[..BLOCK] == m[..BLOCK] && (m + block)[BLOCK..] == m[BLOCK..] + block;
    }
  }

  /** How many bytes of a message of n bytes lie in whole blocks. */
  function Whole(n: nat): (w: nat)
    ensures w <= n && w % BLOCK == 0 && n - w == n % BLOCK
  {
    n - n % BLOCK
  }

  lemma WholeOneMore(n: nat)
    ensures n % BLOCK < BLOCK - 1 ==> Whole(n + 1) == Whole(n) && (n + 1) % BLOCK == n % BLOCK + 1
    ensures n % BLOCK == BLOCK - 1 ==> Whole(n + 1) == n + 1 == Whole(n) + BLOCK && (n + 1) % BLOCK == 0
  {
  }

  /** The padded message is the whole blocks, then one block or two. */
  lemma LastBlocks(m: seq<byte>, rest: seq<byte>, zeros: nat, length: seq<byte>)
    requires rest == m[Whole(|m|)..] && length == BigEndian64(8 * |m| % TWO_TO_THE_64)
    requires zeros == ZeroCount(|m|)
    ensures Padded(m) == m[..Whole(|m|)] + (rest + [0x80] + Zeros(zeros) + length)
    ensures |rest| < 56 ==> zeros == 55 - |rest|
    ensures |rest| >= 56 ==> zeros == (63 - |rest|) + 56
  {
    hide Whole;
    assert m == m[..Whole(|m|)] + m[Whole(|m|)..];
  }

  /** A hash in progress: a block being filled, the bits hashed, and the state so far. */
  class Context {
    const data: array<byte>
    var datalen: nat
    var bitlen: nat
    var state: HashState
    ghost var message: seq<byte>  // everything passed to Update so far

    ghost predicate Valid(f: Compression)
      reads this, data
    {
      && data.Length == BLOCK
      && datalen == |message| % BLOCK
      && bitlen == 8 * Whole(|message|) % TWO_TO_THE_64
      && data[..datalen] == message[Whole(|message|)..]
      && state == Folded(f, INITIAL, message[..Whole(|message|)])
    }

    constructor (f: Compression)
      ensures Valid(f) && message == [] && fresh(data)
    {
      data := new byte[64](_ => 0);
      datalen, bitlen, state := 0, 0, INITIAL;
      message := [];
    }

    method Init(f: Compression)
      requires data.Length == BLOCK
      modifies this
      ensures Valid(f) && message == []
    {
      datalen, bitlen, state := 0, 0, INITIAL;
      message := [];
    }

    /** One byte of Update. */
    method Put(f: Compression, b: byte)
      requires Valid(f)
      modifies this, data
      ensures Valid(f) && message == old(message) + [b]
    {
      hide Folded;
      hide Whole;
      ghost var w := Whole(|message|);
      ghost var longer := message + [b];
      WholeOneMore(|message|);
      assert longer[w..] == message[w..] + [b] && longer[..w] == message[..w];
      data[datalen] := b;
      datalen := datalen + 1;
      assert data[..datalen] == longer[w..];
      if datalen == BLOCK {
        BlockIsFull(f, longer, w, data[..]);
        state := f(state, data[..]);
        bitlen := (bitlen + 512) % TWO_TO_THE_64;
        datalen := 0;
      }
      message := longer;
    }

    lemma BlockIsFull(f: Compression, m: seq<byte>, w: nat, block: HashBlock)
      requires w % BLOCK == 0 && |m| == w + BLOCK && block == m[w..]
      ensures Folded(f, INITIAL, m[..w + BLOCK]) == f(Folded(f, INITIAL, m[..w]), block)
      ensures m[w + BLOCK..] == []
      ensures (8 * w % TWO_TO_THE_64 + 512) % TWO_TO_THE_64 == 8 * (w + BLOCK) % TWO_TO_THE_64
    {
      hide Folded;
      FoldedMore(f, INITIAL, m[..w], block);
      assert m[..w + BLOCK] == m[..w] + block;
      ModAbsorbs(8 * w, 512, TWO_TO_THE_64);
    }

    /** However the message is cut into updates, only the whole of it matters. */
    method Update(f: Compression, input: seq<byte>)
      requires Valid(f) && |input| < TWO_TO_THE_32
      modifies this, data
      ensures Valid(f) && message == old(message) + input
    {
      assert input[..0] == [];
      for i := 0 to |input|
        invariant Valid(f) && message == old(message) + input[..i]
      {
        Put(f, input[i]);
        assert input[..i] + [input[i]] == input[..i + 1];
      }
      assert input[..|input|] == input;
    }

    /** The buffer filled with a one bit and zeros up to `end`. */
    method Fill(end: nat)
      requires data.Length == BLOCK && datalen < end <= BLOCK
      modifies data
      ensures data[..end] == old(data[..datalen]) + [0x80] + Zeros(end - datalen - 1)
    {
      var i := datalen;
      data[i] := 0x80;
      i := i + 1;
      while i < end
        invariant datalen < i <= end
        invariant forall k :: 0 <= k < datalen ==> data[k] == old(data[k])
        invariant data[datalen] == 0x80
        invariant forall k :: datalen < k < i ==> data[k] == 0
      {
        data[i] := 0;
        i := i + 1;
      }
    }

    method PutLength()
      requires data.Length == BLOCK
      modifies data
      ensures data[..] == old(data[..56]) + BigEndian64(bitlen)
    {
      data[63] := bitlen % 0x100;
      data[62] := bitlen / 0x100 % 0x100;
      data[61] := bitlen / 0x1_0000 % 0x100;
      data[60] := bitlen / 0x100_0000 % 0x100;
      data[59] := bitlen / 0x1_0000_0000 % 0x100;
      data[58] := bitlen / 0x100_0000_0000 % 0x100;
      data[57] := bitlen / 0x1_0000_0000_0000 % 0x100;
      data[56] := bitlen / 0x100_0000_0000_0000 % 0x100;
      hide Folded;
      hide Padded;
      ghost var b := BigEndian64(bitlen);
      assert b[0] == data[56] && b[1] == data[57] && b[2] == data[58] && b[3] == data[59];
      assert b[4] == data[60] && b[5] == data[61] && b[6] == data[62] && b[7] == data[63];
      hide BigEndian64;
      assert data[..56] == old(data[..56]);
      assert data[56..64] == b;
      assert data[..] == data[..56] + data[56..64];
    }

    /** The padding up to the length: afterwards only the length is missing from the last block. */
    method Pad(f: Compression) returns (ghost done: seq<byte>)
      requires Valid(f)
      modifies this`state, data
      ensures |done| % BLOCK == 0 && state == Folded(f, INITIAL, done)
      ensures Padded(message) == done + (data[..56] + BigEndian64(8 * |message| % TWO_TO_THE_64))
    {
      hide Folded;
      hide BigEndian64;
      hide Zeros;
      hide Padded;
      hide ZeroCount;
      hide Whole;
      ghost var rest, total := data[..datalen], BigEndian64(8 * |message| % TWO_TO_THE_64);
      done := message[..Whole(|message|)];
      LastBlocks(message, rest, ZeroCount(|message|), total);
      if datalen < 56 {
        Fill(56);
      } else {
        Fill(64);
        SecondBlock(done, rest, total);
        ghost var first := data[..64];
        FoldedMore(f, INITIAL, done, first);
        assert data[..] == first;
        state := f(state, data[..]);
        ClearFront();
        done := done + first;
      }
    }

    /** memset of the front of the block. */
    method ClearFront()
      requires data.Length == BLOCK
      modifies data
      ensures data[..56] == Zeros(56)
    {
      for i := 0 to 56
        invariant forall k :: 0 <= k < i ==> data[k] == 0
      {
        data[i] := 0;
      }
    }

    /** The digest of everything passed to Update. */
    method Final(f: Compression) returns (hash: seq<byte>)
      requires Valid(f)
      modifies this, data
      ensures hash == Digest(f, old(message))
    {
      hide Folded;
      hide BigEndian64;
      hide StateBytes;
      hide Padded;
      TotalBits(|message|);
      ghost var done := Pad(f);
      bitlen := (bitlen + datalen * 8) % TWO_TO_THE_64;
      PutLength();
      FoldedMore(f, INITIAL, done, data[..]);
      state := f(state, data[..]);
      hash := Output(state);
    }

    lemma TotalBits(n: nat)
      ensures (8 * Whole(n) % TWO_TO_THE_64 + n % BLOCK * 8) % TWO_TO_THE_64 == 8 * n % TWO_TO_THE_64
    {
      hide Whole;
      ModAbsorbs(8 * Whole(n), n % BLOCK * 8, TWO_TO_THE_64);
    }

    lemma ModAbsorbs(a: nat, b: nat, m: nat)
      requires m > 0
      ensures (a % m + b) % m == (a + b) % m
    {
      var r := a % m + b;
      DivModUnique(a + b, m, a / m + r / m, r % m);
    }

    lemma ZerosJoin(a: nat, b: nat)
      ensures Zeros(a) + Zeros(b) == Zeros(a + b)
    {
    }

    lemma SecondBlock(done: seq<byte>, rest: seq<byte>, total: seq<byte>)
      requires |rest| <= 63
      ensures done + (rest + [0x80] + Zeros(63 - |rest| + 56) + total)
           == (done + (rest + [0x80] + Zeros(63 - |rest|))) + (Zeros(56) + total)
    {
      hide Zeros;
      ZerosJoin(63 - |rest|, 56);
    }
  }

  function ByteUnit(i: nat): (u: nat)
    requires i < 4
    ensures u > 0
  {
    if i == 0 then 0x100_0000 else if i == 1 then 0x1_0000 else if i == 2 then 0x100 else 1
  }

  lemma ByteAt(w: uint32, i: nat)
    requires i < 4
    ensures |BigEndian32(w)| == 4 && BigEndian32(w)[i] == w / ByteUnit(i) % 0x100
  {
  }

  lemma EightWords(s: HashState, b: seq<byte>)
    requires |b| == 32
    requires forall j :: 0 <= j < 8 ==> b[4 * j..4 * j + 4] == BigEndian32(s[j])
    ensures b == StateBytes(s)
  {
    hide BigEndian32;
    assert b == b[..4] + b[4..8] + b[8..12] + b[12..16] + b[16..20] + b[20..24] + b[24..28] + b[28..32];
    assert b[4 * 0..4] == BigEndian32(s[0]);
    assert b[4 * 1..8] == BigEndian32(s[1]);
    assert b[4 * 2..12] == BigEndian32(s[2]);
    assert b[4 * 3..16] == BigEndian32(s[3]);
    assert b[4 * 4..20] == BigEndian32(s[4]);
    assert b[4 * 5..24] == BigEndian32(s[5]);
    assert b[4 * 6..28] == BigEndian32(s[6]);
    assert b[4 * 7..32] == BigEndian32(s[7]);
  }

  /** The last loop of sha256_final: the words of the state, most significant byte first. */
  method Output(s: HashState) returns (hash: seq<byte>)
    ensures hash == StateBytes(s)
  {
    hide StateBytes;
    hide ByteUnit;
    hide BigEndian32;
    var out := new byte[32](_ => 0);
    for i := 0 to 4
      invariant forall k :: 0 <= k < i ==> Row(out[..], s, k)
    {
      OutputRow(out, s, i);
    }
    hash := out[..];
    forall j | 0 <= j < 8
      ensures hash[4 * j..4 * j + 4] == BigEndian32(s[j])
    {
      assert Row(hash, s, 0) && Row(hash, s, 1) && Row(hash, s, 2) && Row(hash, s, 3);
      ByteAt(s[j], 0);
      ByteAt(s[j], 1);
      ByteAt(s[j], 2);
      ByteAt(s[j], 3);
    }
    EightWords(s, hash);
  }

  /** Byte i of every word is in its place. */
  ghost predicate Row(b: seq<byte>, s: HashState, i: nat)
    requires i < 4
  {
    |b| == 32 && forall j :: 0 <= j < 8 ==> b[4 * j + i] == s[j] / ByteUnit(i) % 0x100
  }

  method OutputRow(out: array<byte>, s: HashState, i: nat)
    requires out.Length == 32 && i < 4
    modifies out
    ensures Row(out[..], s, i)
    ensures forall k :: 0 <= k < 4 && k != i && Row(old(out[..]), s, k) ==> Row(out[..], s, k)
  {
    hide ByteUnit;
    for j := 0 to 8
      invariant forall a :: 0 <= a < j ==> out[4 * a + i] == s[a] / ByteUnit(i) % 0x100
      invariant forall m :: 0 <= m < 32 && m % 4 != i ==> out[m] == old(out[m])
    {
      out[4 * j + i] := s[j] / ByteUnit(i) % 0x100;  // >> (24 - i * 8)
    }
  }

  method HashOnce(f: Compression, input: seq<byte>) returns (hash: seq<byte>)
    requires |input| < TWO_TO_THE_32
    ensures hash == Digest(f, input)
  {
    var context := new Context(f);
    context.Update(f, input);
    assert [] + input == input;
    hash := context.Final(f);
  }
}
