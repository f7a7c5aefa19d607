/** HMAC-SHA-256 and HKDF-SHA-256 as src/crypto.cpp computes them from the streaming hash. */
module Hmac {
  import opened Words
  import opened ExclusiveOr
  import opened Sha256

  const OUTPUT: nat := 32
  const INNER_PAD: byte := 0x36
  const OUTER_PAD: byte := 0x5C

  // ----- the standards

  /** The key filled up to a block, hashed first when it is longer than one (section 2 of RFC 2104). */
  function BlockKey(f: Compression, key: seq<byte>): (k: seq<byte>)
    ensures |k| == BLOCK
  {
    if |key| > BLOCK then Digest(f, key) + Zeros(BLOCK - OUTPUT) else key + Zeros(BLOCK - |key|)
  }

  function Masked(s: seq<byte>, pad: byte): (r: seq<byte>)
    ensures |r| == |s|
  {
    seq(|s|, i requires 0 <= i < |s| => Xor(s[i], pad))
  }

  function Mac(f: Compression, key: seq<byte>, text: seq<byte>): (m: seq<byte>)
    ensures |m| == OUTPUT
  {
    var k := BlockKey(f, key);
    Digest(f, Masked(k, OUTER_PAD) + Digest(f, Masked(k, INNER_PAD) + text))
  }

  /** T(n) of section 2.3 of RFC 5869; the octet of the block number wraps around past 255. */
  function T(f: Compression, prk: seq<byte>, info: seq<byte>, n: nat): (t: seq<byte>)
    ensures |t| == if n == 0 then 0 else OUTPUT
  {
    if n == 0 then [] else Mac(f, prk, T(f, prk, info, n - 1) + info + [n % 0x100])
  }

  /** T(1) | T(2) | ... | T(n). */
  function Okm(f: Compression, prk: seq<byte>, info: seq<byte>, n: nat): (o: seq<byte>)
    ensures |o| == OUTPUT * n
  {
    if n == 0 then [] else Okm(f, prk, info, n - 1) + T(f, prk, info, n)
  }

  function SaltOrDefault(salt: Option<seq<byte>>): seq<byte> {
    if salt.Some? then salt.value else Zeros(OUTPUT)
  }

  /** The first `length` bytes of the output keying material. */
  function Hkdf(f: Compression, ikm: seq<byte>, salt: Option<seq<byte>>, info: seq<byte>, length: nat): (o: seq<byte>)
    ensures |o| == length
  {
    Okm(f, Mac(f, SaltOrDefault(salt), ikm), info, (length + OUTPUT - 1) / OUTPUT)[..length]
  }

  // ----- the standards, independently

  /** A key of at most a block is filled up with zeros; combined with 0x36 it goes before the text, and with 0x5C before the hash of that
      (section 2 of RFC 2104). */
  lemma MacIs(f: Compression, key: seq<byte>, text: seq<byte>, inner: seq<byte>, outer: seq<byte>)
    requires |key| <= 64 && |inner| == 64 && |outer| == 64
    requires forall i :: 0 <= i < 64 ==> inner[i] == Xor(if i < |key| then key[i] else 0, 0x36)
    requires forall i :: 0 <= i < 64 ==> outer[i] == Xor(if i < |key| then key[i] else 0, 0x5C)
    ensures Mac(f, key, text) == Digest(f, outer + Digest(f, inner + text))
  {
    hide Digest;
    hide Xor;
    assert Masked(BlockKey(f, key), INNER_PAD) == inner;
    assert Masked(BlockKey(f, key), OUTER_PAD) == outer;
  }

  /** A longer key stands for its hash. */
  lemma LongKeyIsHashed(f: Compression, key: seq<byte>, text: seq<byte>)
    requires |key| > 64
    ensures Mac(f, key, text) == Mac(f, Digest(f, key), text)
  {
    hide Digest;
    hide Masked;
    assert BlockKey(f, key) == BlockKey(f, Digest(f, key));
  }

  /** The pseudorandom key: the HMAC of the input under the salt, or under 32 zeros (section 2.2 of RFC 5869). */
  function Prk(f: Compression, input: seq<byte>, salt: Option<seq<byte>>): seq<byte> {
    Mac(f, if salt.Some? then salt.value else seq(32, _ => 0), input)
  }

  /** Block k of the output is the HMAC, under the pseudorandom key, of the block before, the info, and the octet k + 1
      (section 2.3 of RFC 5869); the last one is cut. */
  lemma HkdfBlock(f: Compression, input: seq<byte>, salt: Option<seq<byte>>, info: seq<byte>, length: nat, k: nat)
    requires 32 * k < length
    ensures var o := Hkdf(f, input, salt, info, length);
            var end := if length <= 32 * k + 32 then length else 32 * k + 32;
            var previous := if k == 0 then [] else o[32 * k - 32..32 * k];
            o[32 * k..end] == Mac(f, Prk(f, input, salt), previous + info + [(k + 1) % 0x100])[..end - 32 * k]
  {
    hide Mac;
    hide Okm;
    hide T;
    var prk := Prk(f, input, salt);
    var n := (length + OUTPUT - 1) / OUTPUT;
    assert SaltOrDefault(None) == seq(32, _ => 0);
    var okm := Okm(f, prk, info, n);
    OkmBlock(f, prk, info, n, k);
    TUnfolds(f, prk, info, k);
    if k > 0 {
      OkmBlock(f, prk, info, n, k - 1);
      assert okm[..length][32 * k - 32..32 * k] == okm[32 * (k - 1)..32 * (k - 1) + 32];
    }
    var end := if length <= 32 * k + 32 then length else 32 * k + 32;
    SliceOfSlice(okm, 0, length, 32 * k, end);
    SliceOfSlice(okm, 32 * k, 32 * k + 32, 0, end - 32 * k);
    assert okm[..length] == okm[0..length] && okm[32 * k..32 * k + 32][..end - 32 * k] == okm[32 * k..32 * k + 32][0..end - 32 * k];
  }

  lemma TUnfolds(f: Compression, prk: seq<byte>, info: seq<byte>, k: nat)
    ensures T(f, prk, info, 0) == []
    ensures T(f, prk, info, k + 1) == Mac(f, prk, T(f, prk, info, k) + info + [(k + 1) % 0x100])
  {
    hide Mac;
  }

  lemma {:induction false} OkmBlock(f: Compression, prk: seq<byte>, info: seq<byte>, n: nat, k: nat)
    requires k < n
    ensures Okm(f, prk, info, n)[32 * k..32 * k + 32] == T(f, prk, info, k + 1)
  {
    hide T;
    var before := Okm(f, prk, info, n - 1);
    if k < n - 1 {
      OkmBlock(f, prk, info, n - 1, k);
      assert Okm(f, prk, info, n)[32 * k..32 * k + 32] == before[32 * k..32 * k + 32];
    } else {
      assert Okm(f, prk, info, n)[32 * k..32 * k + 32] == T(f, prk, info, n);
    }
  }

  // ----- the code

  method HmacKey(f: Compression, key: seq<byte>, hmacKey: array<byte>)
    requires hmacKey.Length == BLOCK && |key| < TWO_TO_THE_32
    modifies hmacKey
    ensures hmacKey[..] == BlockKey(f, key)
  {
    hide Digest;
    for i := 0 to BLOCK
      invariant forall k :: 0 <= k < i ==> hmacKey[k] == 0
    {
      hmacKey[i] := 0;
    }
    var start := key;
    if |key| > BLOCK {
      start := HashOnce(f, key);
    }
    for i := 0 to |start|
      invariant forall k :: 0 <= k < i ==> hmacKey[k] == start[k]
      invariant forall k :: i <= k < BLOCK ==> hmacKey[k] == 0
    {
      hmacKey[i] := start[i];
    }
  }

  method HmacInit(f: Compression, context: Context, hmacKey: array<byte>)
    requires hmacKey.Length == BLOCK && context.data.Length == BLOCK && hmacKey != context.data
    modifies context, context.data
    ensures context.Valid(f) && context.message == Masked(hmacKey[..], INNER_PAD)
  {
    hide Xor;
    var pad := new byte[64](_ => 0);
    for i := 0 to BLOCK
      modifies pad
      invariant forall k :: 0 <= k < i ==> pad[k] == Xor(hmacKey[k], INNER_PAD)
    {
      pad[i] := Xor(hmacKey[i], INNER_PAD);
    }
    assert pad[..] == Masked(hmacKey[..], INNER_PAD);
    context.Init(f);
    context.Update(f, pad[..]);
    assert [] + pad[..] == pad[..];
  }

  method HmacFinal(f: Compression, context: Context, hmacKey: array<byte>) returns (mac: seq<byte>)
    requires hmacKey.Length == BLOCK && context.Valid(f) && hmacKey != context.data
    modifies context, context.data
    ensures mac == Digest(f, Masked(hmacKey[..], OUTER_PAD) + Digest(f, old(context.message)))
  {
    hide Xor;
    hide Digest;
    var pad := new byte[96](_ => 0);
    for i := 0 to BLOCK
      modifies pad
      invariant forall k :: 0 <= k < i ==> pad[k] == Xor(hmacKey[k], OUTER_PAD)
    {
      pad[i] := Xor(hmacKey[i], OUTER_PAD);
    }
    var inner := context.Final(f);
    assert pad[..BLOCK] == Masked(hmacKey[..], OUTER_PAD);
    mac := HashOnce(f, pad[..BLOCK] + inner);
  }

  method HmacSha256(f: Compression, key: seq<byte>, input: seq<byte>) returns (mac: seq<byte>)
    requires |key| < TWO_TO_THE_32 && |input| < TWO_TO_THE_32
    ensures mac == Mac(f, key, input)
  {
    hide Digest;
    hide BlockKey;
    hide Masked;
    var hmacKey := new byte[64](_ => 0);
    var context := new Context(f);
    HmacKey(f, key, hmacKey);
    HmacInit(f, context, hmacKey);
    context.Update(f, input);
    mac := HmacFinal(f, context, hmacKey);
  }

  lemma FourParts(a: seq<byte>, b: seq<byte>, c: seq<byte>, d: seq<byte>)
    ensures a + b + c + d == a + (b + c + d)
  {
  }

  /** One more block of the expansion. */
  method Expand(f: Compression, context: Context, hmacKey: array<byte>, previous: seq<byte>, info: seq<byte>, iteration: byte,
                ghost key: seq<byte>) returns (block: seq<byte>)
    requires hmacKey.Length == BLOCK && context.data.Length == BLOCK && hmacKey != context.data
    requires hmacKey[..] == BlockKey(f, key)
    requires |previous| < TWO_TO_THE_32 && |info| < TWO_TO_THE_32
    modifies context, context.data
    ensures block == Mac(f, key, previous + info + [iteration])
  {
    hide Digest;
    hide BlockKey;
    hide Masked;
    HmacInit(f, context, hmacKey);
    context.Update(f, previous);
    context.Update(f, info);
    context.Update(f, [iteration]);
    FourParts(Masked(hmacKey[..], INNER_PAD), previous, info, [iteration]);
    block := HmacFinal(f, context, hmacKey);
  }

  method HkdfSha256(f: Compression, input: seq<byte>, salt: Option<seq<byte>>, info: seq<byte>, length: nat)
    returns (output: seq<byte>)
    requires |input| < TWO_TO_THE_32 && |SaltOrDefault(salt)| < TWO_TO_THE_32 && |info| < TWO_TO_THE_32
    ensures output == Hkdf(f, input, salt, info, length)
  {
    hide T;
    hide Mac;
    hide BlockKey;
    hide Okm;
    hide Hkdf;
    hide Digest;
    hide Masked;
    hide Folded;
    hide Xor;
    hide XorBits;
    hide Zeros;
    hide SaltOrDefault;
    hide Padded;
    var hmacKey := new byte[64](_ => 0);
    var context := new Context(f);
    var stepResult := HmacSha256(f, SaltOrDefault(salt), input);
    ghost var prk := stepResult;
    HmacKey(f, stepResult, hmacKey);
    var remaining := length;
    var iteration: byte := 1;
    stepResult := Expand(f, context, hmacKey, [], info, iteration, prk);
    output := [];
    ghost var n := 1;
    FirstBlock(f, prk, info);
    while remaining > OUTPUT
      invariant n > 0 && iteration == n % 0x100
      invariant fresh(context) && fresh(context.data) && context.data.Length == BLOCK && hmacKey != context.data
      invariant hmacKey[..] == BlockKey(f, prk)
      invariant stepResult == T(f, prk, info, n)
      invariant output == Okm(f, prk, info, n - 1)
      invariant remaining + OUTPUT * (n - 1) == length
      invariant remaining > 0 || (n == 1 && remaining == 0)
    {
      output := output + stepResult;
      remaining := remaining - OUTPUT;
      iteration := (iteration + 1) % 0x100;
      n := n + 1;
      stepResult := Expand(f, context, hmacKey, stepResult, info, iteration, prk);
      NextBlock(f, prk, info, n);
    }
    output := output + stepResult[..remaining];
    Truncated(f, input, salt, info, n, remaining);
  }

  lemma Truncated(f: Compression, ikm: seq<byte>, salt: Option<seq<byte>>, info: seq<byte>, n: nat, remaining: nat)
    requires n > 0 && (0 < remaining <= OUTPUT || (n == 1 && remaining == 0))
    ensures var prk := Mac(f, SaltOrDefault(salt), ikm);
            Okm(f, prk, info, n - 1) + T(f, prk, info, n)[..remaining]
            == Hkdf(f, ikm, salt, info, OUTPUT * (n - 1) + remaining)
  {
    hide T;
    hide Mac;
    hide Okm;
    var prk := Mac(f, SaltOrDefault(salt), ikm);
    var done, last := Okm(f, prk, info, n - 1), T(f, prk, info, n);
    if remaining > 0 {
      DivModUnique(OUTPUT * (n - 1) + remaining + OUTPUT - 1, OUTPUT, n, remaining - 1);
      NextBlock(f, prk, info, n);
      assert (done + last)[..|done| + remaining] == done + last[..remaining];
    }
  }

  lemma FirstBlock(f: Compression, prk: seq<byte>, info: seq<byte>)
    ensures T(f, prk, info, 1) == Mac(f, prk, [] + info + [1]) && Okm(f, prk, info, 0) == []
  {
    hide Mac;
    assert T(f, prk, info, 0) == [];
  }

  lemma NextBlock(f: Compression, prk: seq<byte>, info: seq<byte>, n: nat)
    requires n > 0
    ensures T(f, prk, info, n) == Mac(f, prk, T(f, prk, info, n - 1) + info + [n % 0x100])
    ensures Okm(f, prk, info, n) == Okm(f, prk, info, n - 1) + T(f, prk, info, n)
    ensures n > 1 ==> Okm(f, prk, info, n - 1) == Okm(f, prk, info, n - 2) + T(f, prk, info, n - 1)
  {
    hide Mac;
  }
}
