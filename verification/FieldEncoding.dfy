/** Bytes to limbs and back: fexpand and fcontract. Encoded elements are 32 bytes, little-endian;
    fcontract always writes the one representative below P (section 5 of RFC 7748). */
module FieldEncoding {
  import opened Words
  import opened Field
  import opened FieldMultiply

  function LittleEndian(b: seq<byte>): nat {
    if b == [] then 0 else b[0] as int + 0x100 * LittleEndian(b[1..])
  }

  /** Where limb n starts: the byte, and the number of bits of that byte that belong to the limb before. */
  function StartByte(n: nat): (s: nat)
    requires n < 10
    ensures s <= 28
  {
    if n < 5 then 3 * n else 3 * n + 1
  }

  /** Two to the number of bits of the limb's first byte that belong to the limb before. */
  function Below(n: nat): (d: int)
    requires n < 10
    ensures 1 <= d <= 64 && d <= 0x100
  {
    match n
    case 0 => 1
    case 1 => 4
    case 2 => 8
    case 3 => 32
    case 4 => 64
    case 5 => 1
    case 6 => 2
    case 7 => 8
    case 8 => 16
    case _ => 64
  }

  /** Two to the number of bits of the limb's fourth byte that belong to the limb. */
  function Above(n: nat): (d: int)
    requires n < 10
    ensures 1 <= d <= 0x100 && Above(n) * 0x100_0000 == Radix(n) * Below(n)
  {
    if n == 4 then 0x100 else if n == 9 then 128 else Below(n + 1)
  }

  /** Limb n is cut out of four bytes. */
  predicate LimbPacked(b: seq<byte>, n: nat, x: int)
    requires |b| == 32 && n < 10
  {
    var s := StartByte(n);
    x * Below(n) == (b[s] / Below(n)) * Below(n) + 0x100 * b[s + 1] as int + 0x1_0000 * b[s + 2] as int
                     + 0x100_0000 * (b[s + 3] % Above(n))
  }

  predicate Packed(b: seq<byte>, x: seq<int>)
    requires |b| == 32 && |x| == 10
  {
    forall n :: 0 <= n < 10 ==> LimbPacked(b, n, x[n])
  }

  function IntValue(x: seq<int>): int
    requires |x| == 10
  {
    x[0] + Weight(1) * x[1] + Weight(2) * x[2] + Weight(3) * x[3] + Weight(4) * x[4]
    + Weight(5) * x[5] + Weight(6) * x[6] + Weight(7) * x[7] + Weight(8) * x[8] + Weight(9) * x[9]
  }

  /** Packing determines the limbs. */
  lemma PackedIsUnique(b: seq<byte>, x: seq<int>, y: seq<int>)
    requires |b| == 32 && |x| == |y| == 10 && Packed(b, x) && Packed(b, y)
    ensures x == y
  {
    forall n | 0 <= n < 10
      ensures x[n] == y[n]
    {
      assert LimbPacked(b, n, x[n]) && LimbPacked(b, n, y[n]);
      assert (x[n] - y[n]) * Below(n) == 0;
    }
  }

  /** The place value of byte k. */
  function ByteWeight(k: nat): int
    requires k < 32
  {
    match k
    case 0 => 0x1
    case 1 => 0x100
    case 2 => 0x1_0000
    case 3 => 0x100_0000
    case 4 => 0x1_0000_0000
    case 5 => 0x100_0000_0000
    case 6 => 0x1_0000_0000_0000
    case 7 => 0x100_0000_0000_0000
    case 8 => 0x1_0000_0000_0000_0000
    case 9 => 0x100_0000_0000_0000_0000
    case 10 => 0x1_0000_0000_0000_0000_0000
    case 11 => 0x100_0000_0000_0000_0000_0000
    case 12 => 0x1_0000_0000_0000_0000_0000_0000
    case 13 => 0x100_0000_0000_0000_0000_0000_0000
    case 14 => 0x1_0000_0000_0000_0000_0000_0000_0000
    case 15 => 0x100_0000_0000_0000_0000_0000_0000_0000
    case 16 => 0x1_0000_0000_0000_0000_0000_0000_0000_0000
    case 17 => 0x100_0000_0000_0000_0000_0000_0000_0000_0000
    case 18 => 0x1_0000_0000_0000_0000_0000_0000_0000_0000_0000
    case 19 => 0x100_0000_0000_0000_0000_0000_0000_0000_0000_0000
    case 20 => 0x1_0000_0000_0000_0000_0000_0000_0000_0000_0000_0000
    case 21 => 0x100_0000_0000_0000_0000_0000_0000_0000_0000_0000_0000
    case 22 => 0x1_0000_0000_0000_0000_0000_0000_0000_0000_0000_0000_0000
    case 23 => 0x100_0000_0000_0000_0000_0000_0000_0000_0000_0000_0000_0000
    case 24 => 0x1_0000_0000_0000_0000_0000_0000_0000_0000_0000_0000_0000_0000
    case 25 => 0x100_0000_0000_0000_0000_0000_0000_0000_0000_0000_0000_0000_0000
    case 26 => 0x1_0000_0000_0000_0000_0000_0000_0000_0000_0000_0000_0000_0000_0000
    case 27 => 0x100_0000_0000_0000_0000_0000_0000_0000_0000_0000_0000_0000_0000_0000
    case 28 => 0x1_0000_0000_0000_0000_0000_0000_0000_0000_0000_0000_0000_0000_0000_0000
    case 29 => 0x100_0000_0000_0000_0000_0000_0000_0000_0000_0000_0000_0000_0000_0000_0000
    case 30 => 0x1_0000_0000_0000_0000_0000_0000_0000_0000_0000_0000_0000_0000_0000_0000_0000
    case _ => 0x100_0000_0000_0000_0000_0000_0000_0000_0000_0000_0000_0000_0000_0000_0000_0000
  }

  lemma LittleEndianStep(b: seq<byte>)
    requires b != []
    ensures LittleEndian(b) == b[0] as int + 0x100 * LittleEndian(b[1..])
  {
  }

  lemma ByteWeightSteps(k: nat)
    requires k < 31
    ensures ByteWeight(k + 1) == ByteWeight(k) * 0x100
  {
  }

  /** The little-endian value of the first n bytes. */
  function BytePrefix(b: seq<byte>, n: nat): int
    requires |b| == 32 && n <= 32
  {
    if n == 0 then 0 else BytePrefix(b, n - 1) + ByteWeight(n - 1) * b[n - 1] as int
  }

  lemma {:induction false} BytePrefixRest(b: seq<byte>, n: nat)
    requires |b| == 32 && n < 32
    ensures LittleEndian(b) == BytePrefix(b, n) + ByteWeight(n) * LittleEndian(b[n..])
  {
    if n == 0 {
      assert b[0..] == b && ByteWeight(0) == 1;
    } else {
      hide ByteWeight;
      BytePrefixRest(b, n - 1);
      LittleEndianStep(b[n - 1..]);
      assert b[n - 1..][1..] == b[n..];
      ByteWeightSteps(n - 1);
      Distribute(ByteWeight(n - 1), b[n - 1] as int, LittleEndian(b[n..]));
    }
  }

  lemma Distribute(w: int, x: int, y: int)
    ensures w * (x + 0x100 * y) == w * x + (w * 0x100) * y
  {
  }

  lemma LayoutFacts(n: nat)
    requires n < 10
    ensures Weight(n) == ByteWeight(StartByte(n)) * Below(n)
    ensures StartByte(n) + 3 < 32
    ensures Below(n) * (0x100 / Below(n)) == 0x100 && 0x100 / Below(n) > 0
    ensures Radix(n) == Above(n) * (0x1_0000 * (0x100 / Below(n)))
    ensures n < 9 && n != 4 ==> StartByte(n + 1) == StartByte(n) + 3 && Below(n + 1) == Above(n)
    ensures n == 4 ==> StartByte(n + 1) == StartByte(n) + 4 && Below(n + 1) == 1 && Above(n) == 0x100
    ensures n == 9 ==> StartByte(n) == 28 && Above(n) == 128
  {
    if n == 0 {
    } else if n == 1 {
    } else if n == 2 {
    } else if n == 3 {
    } else if n == 4 {
    } else if n == 5 {
    } else if n == 6 {
    } else if n == 7 {
    } else if n == 8 {
    } else if n == 9 {
    }
  }

  /** The first three bytes of a limb, and the part of the fourth that belongs to it. */
  lemma WeightedLimb(b: seq<byte>, n: nat, x: int)
    requires |b| == 32 && n < 10 && LimbPacked(b, n, x)
    ensures var s := StartByte(n);
            s + 3 < 32 && Weight(n) * x
            == ByteWeight(s) * ((b[s] / Below(n)) * Below(n)) + ByteWeight(s + 1) * b[s + 1] as int
               + ByteWeight(s + 2) * b[s + 2] as int + ByteWeight(s + 3) * (b[s + 3] % Above(n))
  {
    var s := StartByte(n);
    LayoutFacts(n);
    ByteWeightSteps(s);
    ByteWeightSteps(s + 1);
    ByteWeightSteps(s + 2);
    hide ByteWeight;
    hide Weight;
    hide Below;
    hide Above;
    var w := ByteWeight(s);
    var (p, q, r, t) := ((b[s] / Below(n)) * Below(n), b[s + 1] as int, b[s + 2] as int, b[s + 3] % Above(n));
    assert (w * Below(n)) * x == w * (x * Below(n)) by { Regroup(w, Below(n), x); }
    FourTerms(w, p, q, r, t);
  }

  lemma Regroup(w: int, d: int, x: int)
    ensures (w * d) * x == w * (x * d)
  {
  }

  lemma FourTerms(w: int, p: int, q: int, r: int, t: int)
    ensures w * (p + 0x100 * q + 0x1_0000 * r + 0x100_0000 * t)
         == w * p + (w * 0x100) * q + (w * 0x100 * 0x100) * r + (w * 0x100 * 0x100 * 0x100) * t
  {
  }

  /** A byte shared by two limbs is the sum of its two parts. */
  lemma SharedByte(b: byte, d: int, w: int)
    requires d > 0
    ensures w * (b % d) + w * ((b / d) * d) == w * b
  {
    assert b as int == (b / d) * d + b % d;
  }

  /** The value of the first n limbs. */
  function LimbPrefix(x: seq<int>, n: nat): int
    requires |x| == 10 && n <= 10
  {
    if n == 0 then 0 else LimbPrefix(x, n - 1) + Weight(n - 1) * x[n - 1]
  }

  lemma LimbPrefixIsValue(x: seq<int>)
    requires |x| == 10
    ensures LimbPrefix(x, 10) == IntValue(x)
  {
    assert Weight(0) == 1;
    hide Weight;
    assert LimbPrefix(x, 2) == LimbPrefix(x, 0) + Weight(0) * x[0] + Weight(1) * x[1];
    assert LimbPrefix(x, 4) == LimbPrefix(x, 2) + Weight(2) * x[2] + Weight(3) * x[3];
    assert LimbPrefix(x, 6) == LimbPrefix(x, 4) + Weight(4) * x[4] + Weight(5) * x[5];
    assert LimbPrefix(x, 8) == LimbPrefix(x, 6) + Weight(6) * x[6] + Weight(7) * x[7];
  }

  /** The limbs below n hold the bytes below the start of limb n, and its low bits of that byte. */
  lemma {:induction false} PackedPrefix(b: seq<byte>, x: seq<int>, n: nat)
    requires |b| == 32 && |x| == 10 && Packed(b, x) && n < 10
    ensures StartByte(n) < 32
    ensures LimbPrefix(x, n) == BytePrefix(b, StartByte(n)) + ByteWeight(StartByte(n)) * (b[StartByte(n)] % Below(n))
  {
    hide Weight;
    if n > 0 {
      var m := n - 1;
      PackedPrefix(b, x, m);
      PackedStep(b, x, m);
      LayoutFacts(m);
      hide ByteWeight;
      if m == 4 {
        assert b[StartByte(m) + 3] % 0x100 == b[StartByte(m) + 3] && b[StartByte(n)] % 1 == 0;
        assert BytePrefix(b, StartByte(m) + 4) == BytePrefix(b, StartByte(m) + 3) + ByteWeight(StartByte(m) + 3) * b[StartByte(m) + 3] as int;
      }
    }
  }

  lemma PackedStep(b: seq<byte>, x: seq<int>, m: nat)
    requires |b| == 32 && |x| == 10 && Packed(b, x) && m < 10
    ensures var s := StartByte(m);
            s + 3 < 32
            && BytePrefix(b, s) + ByteWeight(s) * (b[s] % Below(m)) + Weight(m) * x[m]
               == BytePrefix(b, s + 3) + ByteWeight(s + 3) * (b[s + 3] % Above(m))
  {
    var s := StartByte(m);
    WeightedLimb(b, m, x[m]);
    SharedByte(b[s], Below(m), ByteWeight(s));
    hide ByteWeight;
    hide Weight;
    hide Below;
    hide Above;
    assert BytePrefix(b, s + 1) == BytePrefix(b, s) + ByteWeight(s) * b[s] as int;
    assert BytePrefix(b, s + 2) == BytePrefix(b, s + 1) + ByteWeight(s + 1) * b[s + 1] as int;
    assert BytePrefix(b, s + 3) == BytePrefix(b, s + 2) + ByteWeight(s + 2) * b[s + 2] as int;
  }

  /** The packed limbs have the value of the bytes, up to the topmost bit. */
  lemma PackedValue(b: seq<byte>, x: seq<int>)
    requires |b| == 32 && |x| == 10 && Packed(b, x)
    ensures IntValue(x) + (P + 19) * (b[31] / 128) == LittleEndian(b)
  {
    hide Weight;
    PackedPrefix(b, x, 9);
    PackedStep(b, x, 9);
    LayoutFacts(9);
    LimbPrefixIsValue(x);
    BytePrefixRest(b, 31);
    LittleEndianStep(b[31..]);
    assert b[31..][1..] == [];
    SharedByte(b[31], 128, ByteWeight(31));
    TopBit(b[31] / 128);
    hide ByteWeight;
  }

  lemma TopBit(q: int)
    ensures ByteWeight(31) * (q * 128) == (P + 19) * q
  {
  }

  // ----- fexpand

  function Ints(x: seq<limb>): (r: seq<int>)
    ensures |r| == |x|
  {
    seq(|x|, i requires 0 <= i < |x| => x[i] as int)
  }

  lemma IntsValue(x: seq<limb>)
    requires |x| == 10
    ensures IntValue(Ints(x)) == Value(x)
  {
    hide Weight;
    assert Weight(0) == 1 by { WeightZero(); }
  }

  /** Four bytes as a word, shifted right by the bits below the limb and masked to its width. */
  function CutOut(b: seq<byte>, n: nat): (x: int)
    requires |b| == 32 && n < 10
    ensures 0 <= x < Radix(n)
  {
    var s := StartByte(n);
    ((b[s] as int + 0x100 * b[s + 1] as int + 0x1_0000 * b[s + 2] as int + 0x100_0000 * b[s + 3] as int) / Below(n)) % Radix(n)
  }

  lemma CutOutIsPacked(b: seq<byte>, n: nat)
    requires |b| == 32 && n < 10
    ensures LimbPacked(b, n, CutOut(b, n))
  {
    var s := StartByte(n);
    LayoutFacts(n);
    hide StartByte;
    hide Below;
    hide Above;
    hide Radix;
    CutOutBy(b[s], b[s + 1], b[s + 2], b[s + 3], Below(n), 0x100 / Below(n), Above(n), Radix(n));
  }

  lemma CutOutBy(b0: byte, b1: byte, b2: byte, b3: byte, d: int, e: int, above: int, radix: int)
    requires d > 0 && e > 0 && above > 0 && d * e == 0x100 && radix == above * (0x1_0000 * e)
    ensures ((b0 as int + 0x100 * b1 as int + 0x1_0000 * b2 as int + 0x100_0000 * b3 as int) / d) % radix * d
         == (b0 / d) * d + 0x100 * b1 as int + 0x1_0000 * b2 as int + 0x100_0000 * (b3 % above)
  {
    var word := b0 as int + 0x100 * b1 as int + 0x1_0000 * b2 as int + 0x100_0000 * b3 as int;
    var low := b0 / d + e * b1 as int + (0x100 * e) * b2 as int;
    QuotientOfWord(b0, b1, b2, b3, d, e);
    DivModUnique(word, d, low + (0x1_0000 * e) * b3 as int, b0 % d);
    RestBound(b0, b1, b2, b3 % above, d, e, above);
    HighCutOff(low, b3, 0x1_0000 * e, above);
    QuotientOfWord(b0, b1, b2, b3 % above, d, e);
  }

  /** Reducing modulo above * w takes the multiples of `above` off the top byte. */
  lemma HighCutOff(low: int, b3: byte, w: int, above: int)
    requires above > 0 && w > 0 && 0 <= low + w * (b3 % above) < above * w
    ensures (low + w * b3 as int) % (above * w) == low + w * (b3 % above)
  {
    var q, r := b3 / above, b3 % above;
    assert b3 as int == q * above + r;
    HighPart(q, above, w, r);
    DivModUnique(low + w * b3 as int, above * w, q, low + w * r);
  }

  lemma QuotientOfWord(b0: byte, b1: int, b2: int, b3: int, d: int, e: int)
    requires d > 0 && d * e == 0x100
    ensures (b0 / d + e * b1 + (0x100 * e) * b2 + (0x1_0000 * e) * b3) * d
         == (b0 / d) * d + 0x100 * b1 + 0x1_0000 * b2 + 0x100_0000 * b3
  {
    assert (e * b1) * d == (d * e) * b1;
    assert ((0x100 * e) * b2) * d == 0x100 * (d * e) * b2;
    assert ((0x1_0000 * e) * b3) * d == 0x1_0000 * (d * e) * b3;
  }

  lemma HighPart(q: int, above: int, w: int, r: int)
    ensures w * (q * above + r) == q * (above * w) + w * r
  {
    assert w * (q * above) == q * (above * w);
  }

  lemma QuotientBelow(x: int, d: int, e: int)
    requires d > 0 && 0 <= x < d * e
    ensures 0 <= x / d < e
  {
    var q := x / d;
    assert x == q * d + x % d;
    assert q >= e ==> q * d >= e * d by { if q >= e { MulLe(d, e, q); } }
    assert q <= -1 ==> q * d <= -d by { if q <= -1 { MulLe(d, q, -1); } }
  }

  lemma RestBound(b0: byte, b1: byte, b2: byte, r: int, d: int, e: int, above: int)
    requires d > 0 && e > 0 && d * e == 0x100 && 0 <= r < above
    ensures 0 <= b0 / d + e * b1 as int + (0x100 * e) * b2 as int + (0x1_0000 * e) * r < above * (0x1_0000 * e)
  {
    QuotientBelow(b0 as int, d, e);
    MulLe(e, b1 as int, 0xFF);
    MulLe(0x100 * e, b2 as int, 0xFF);
    MulLe(0x1_0000 * e, r, above - 1);
    MulLe(e, 0, b1 as int);
    MulLe(0x100 * e, 0, b2 as int);
    MulLe(0x1_0000 * e, 0, r);
    assert (0x1_0000 * e) * (above - 1) == above * (0x1_0000 * e) - 0x1_0000 * e;
  }

  method CutAll(output: array<limb>, input: array<byte>)
    requires output.Length == 10 && input.Length == 32
    modifies output
    ensures forall n :: 0 <= n < 10 ==> output[n] as int == CutOut(input[..], n)
  {
    hide CutOut;
    var b := input[..];
    output[0] := CutOut(b, 0) as limb;
    output[1] := CutOut(b, 1) as limb;
    output[2] := CutOut(b, 2) as limb;
    output[3] := CutOut(b, 3) as limb;
    output[4] := CutOut(b, 4) as limb;
    output[5] := CutOut(b, 5) as limb;
    output[6] := CutOut(b, 6) as limb;
    output[7] := CutOut(b, 7) as limb;
    output[8] := CutOut(b, 8) as limb;
    output[9] := CutOut(b, 9) as limb;
  }

  /** Reads an element from its 32 bytes; the topmost bit is ignored. */
  method FExpand(output: array<limb>, input: array<byte>)
    requires output.Length == 10 && input.Length == 32
    modifies output
    ensures Packed(input[..], Ints(output[..]))
    ensures InRange(Ints(output[..]), 0)
    ensures Value(output[..]) + (P + 19) * (input[31] / 128) == LittleEndian(input[..])
  {
    hide CutOut;
    hide Packed;
    hide Value;
    hide IntValue;
    hide LittleEndian;
    CutAll(output, input);
    AllCutOut(input[..], Ints(output[..]));
    PackedValue(input[..], Ints(output[..]));
    IntsValue(output[..]);
  }

  lemma AllCutOut(b: seq<byte>, x: seq<int>)
    requires |b| == 32 && |x| == 10 && forall n :: 0 <= n < 10 ==> x[n] == CutOut(b, n)
    ensures Packed(b, x)
  {
    hide LimbPacked;
    hide CutOut;
    forall n | 0 <= n < 10
      ensures LimbPacked(b, n, x[n])
    {
      CutOutIsPacked(b, n);
    }
  }

  // ----- fcontract: borrowing

  function SInts(x: seq<s32>): (r: seq<int>)
    ensures |r| == |x|
  {
    seq(|x|, i requires 0 <= i < |x| => x[i] as int)
  }

  /** An arithmetic right shift by n bits divides by two to the n and rounds down. */
  function ShiftRight(x: s32, d: int): (r: s32)
    requires d > 0
    ensures r as int == x as int / d
  {
    QuotientShrinks(x as int, d);
    (x as int / d) as s32
  }

  lemma QuotientShrinks(x: int, d: int)
    requires d > 0
    ensures x >= 0 ==> 0 <= x / d <= x
    ensures x < 0 ==> x <= x / d < 0
  {
    var q := x / d;
    assert x == q * d + x % d;
    if x >= 0 {
      MulLe(x + 1, 1, d);
      QuotientBelow(x, d, x + 1);
    } else {
      assert q >= 0 ==> q * d >= 0 by { if q >= 0 { MulLe(d, 0, q); } }
      MulLe(d - 1, 1, -q);
      assert (-q) * d == (d - 1) * (-q) - q;
    }
  }

  /** x & mask, for a mask that is all ones or all zeros. */
  function Masked(x: s32, mask: s32): s32
    requires mask == 0 || mask == -1
  {
    if mask == -1 then x else 0
  }

  /** The least multiple of the radix that makes a value non-negative. */
  function Shortfall(v: int, radix: int): (b: nat)
    requires radix > 0
    ensures v >= 0 ==> b == 0
    ensures v < 0 ==> b > 0 && 0 <= v + b * radix < radix
  {
    if v >= 0 then 0
    else
      assert v == (v / radix) * radix + v % radix;
      ShortfallIsPositive(v, radix);
      -(v / radix)
  }

  lemma ShortfallIsPositive(v: int, radix: int)
    requires v < 0 < radix
    ensures v / radix < 0
  {
    var q := v / radix;
    assert v == q * radix + v % radix;
    assert q >= 0 ==> q * radix >= 0;
  }

  /** What a borrowing pass over the limbs x takes for limb i out of the next one. */
  function BorrowOut(x: seq<int>, i: nat): nat
    requires |x| == 10 && i < 10
    decreases i, 1
  {
    Shortfall(x[i] - BorrowIn(x, i), Radix(i))
  }

  /** What limb i has lost to the one before it by then. */
  function BorrowIn(x: seq<int>, i: nat): nat
    requires |x| == 10 && i < 10
    decreases i, 0
  {
    if i == 0 then 0 else BorrowOut(x, i - 1)
  }

  /** Limb i after the pass, before what limb 9 borrowed is taken off limb 0. */
  function Passed(x: seq<int>, i: nat): int
    requires |x| == 10 && i < 10
  {
    x[i] - BorrowIn(x, i) + BorrowOut(x, i) * Radix(i)
  }

  /** How much must be borrowed to make a limb non-negative, found without branching. */
  function Borrow(x: s32, radix: int): (carry: s32)
    requires radix == TWO_TO_THE_26 || radix == TWO_TO_THE_25
    ensures carry as int == Shortfall(x as int, radix)
    ensures x >= 0 ==> carry == 0
    ensures x < 0 ==> 0 < carry as int <= 64 && 0 <= x as int + carry as int * radix < radix
  {
    var mask := ShiftRight(x, TWO_TO_THE_31);
    -ShiftRight(Masked(x, mask), radix)
  }

  ghost predicate SmallLimbs(x: seq<s32>, from: nat)
    requires |x| == 10
  {
    forall k :: from <= k < 10 ==> 0 <= x[k] as int < TWO_TO_THE_26
  }

  /** Makes limb i non-negative at the expense of the next one. */
  method BorrowAt(x: array<s32>, i: nat)
    requires x.Length == 10 && i < 9
    requires -TWO_TO_THE_27 < x[i] as int < TWO_TO_THE_27 && -TWO_TO_THE_27 < x[i + 1] as int < TWO_TO_THE_27
    modifies x
    ensures IntValue(SInts(x[..])) == IntValue(SInts(old(x[..])))
    ensures forall k :: 0 <= k < 10 && k != i && k != i + 1 ==> x[k] == old(x[k])
    ensures old(x[i]) >= 0 ==> x[i] == old(x[i]) && x[i + 1] == old(x[i + 1])
    ensures old(x[i]) < 0 ==>
      var carry := old(x[i + 1]) as int - x[i + 1] as int;
      0 < carry && x[i] as int == old(x[i]) as int + carry * Radix(i) && 0 <= x[i] as int < Radix(i)
    ensures var carry := Shortfall(old(x[i]) as int, Radix(i));
      x[i] as int == old(x[i]) as int + carry * Radix(i) && x[i + 1] as int == old(x[i + 1]) as int - carry
  {
    hide Shortfall;
    ghost var before := x[..];
    var carry := Borrow(x[i], Radix(i));
    x[i] := (x[i] as int + carry as int * Radix(i)) as s32;
    x[i + 1] := x[i + 1] - carry;
    ValueMoves(SInts(before), SInts(x[..]), i, -(carry as int));
  }

  lemma ValueMoves(x: seq<int>, y: seq<int>, i: nat, over: int)
    requires |x| == |y| == 10 && i < 9
    requires forall k :: 0 <= k < 10 && k != i && k != i + 1 ==> y[k] == x[k]
    requires y[i] == x[i] - over * Radix(i) && y[i + 1] == x[i + 1] + over
    ensures IntValue(y) == IntValue(x)
  {
    TenParts(x);
    TenParts(y);
    PartMoves(x[i], y[i], x[i + 1], y[i + 1], i, over);
    hide IntValue;
    hide Radix;
    hide Part;
    assert forall k :: 0 <= k < 10 && k != i && k != i + 1 ==> Part(y[k], k) == Part(x[k], k);
    if i == 0 {
    } else if i == 1 {
    } else if i == 2 {
    } else if i == 3 {
    } else if i == 4 {
    } else if i == 5 {
    } else if i == 6 {
    } else if i == 7 {
    } else {
    }
  }

  lemma TenParts(x: seq<int>)
    requires |x| == 10
    ensures IntValue(x) == Part(x[0], 0) + Part(x[1], 1) + Part(x[2], 2) + Part(x[3], 3) + Part(x[4], 4)
                           + Part(x[5], 5) + Part(x[6], 6) + Part(x[7], 7) + Part(x[8], 8) + Part(x[9], 9)
  {
    WeightZero();
    hide Weight;
  }

  /** A carry out of limb 9 goes to limb 0, nineteen-fold. */
  lemma ValueWraps(x: seq<int>, y: seq<int>, over: int)
    requires |x| == |y| == 10
    requires forall k :: 0 < k < 9 ==> y[k] == x[k]
    requires y[9] == x[9] - over * TWO_TO_THE_25 && y[0] == x[0] + 19 * over
    ensures Congruent(IntValue(y), IntValue(x))
  {
    assert Weight(9) * TWO_TO_THE_25 == P + 19;
    hide Weight;
    assert Weight(9) * y[9] == Weight(9) * x[9] - over * (Weight(9) * TWO_TO_THE_25);
    CongruentBy(IntValue(y), IntValue(x), -over);
  }

  method BorrowRound(x: array<s32>) returns (ghost borrowed: int)
    requires x.Length == 10
    requires -TWO_TO_THE_27 < x[9] as int < TWO_TO_THE_27 && -TWO_TO_THE_27 < x[0] as int < TWO_TO_THE_27
    modifies x
    ensures Congruent(IntValue(SInts(x[..])), IntValue(SInts(old(x[..]))))
    ensures forall k :: 0 < k < 9 ==> x[k] == old(x[k])
    ensures x[0] as int == old(x[0]) as int - 19 * borrowed && x[9] as int == old(x[9]) as int + borrowed * TWO_TO_THE_25
    ensures borrowed == Shortfall(old(x[9]) as int, TWO_TO_THE_25)
    ensures old(x[9]) >= 0 ==> borrowed == 0
    ensures old(x[9]) < 0 ==> 0 < borrowed && 0 <= x[9] as int < TWO_TO_THE_25
  {
    ghost var before := x[..];
    var carry := Borrow(x[9], TWO_TO_THE_25);
    x[9] := (x[9] as int + carry as int * TWO_TO_THE_25) as s32;
    x[0] := x[0] - carry * 19;
    ValueWraps(SInts(before), SInts(x[..]), -(carry as int));
    borrowed := carry as int;
  }

  lemma PassStep(x: seq<int>, i: nat, v: int)
    requires |x| == 10 && i < 10 && v == x[i] - BorrowIn(x, i)
    ensures BorrowOut(x, i) == Shortfall(v, Radix(i)) && Passed(x, i) == v + BorrowOut(x, i) * Radix(i)
    ensures i < 9 ==> BorrowIn(x, i + 1) == BorrowOut(x, i)
    ensures i == 9 ==> Radix(i) == TWO_TO_THE_25
  {
    hide Shortfall;
  }

  lemma NothingBorrowedYet(x: seq<int>)
    requires |x| == 10
    ensures BorrowIn(x, 0) == 0
  {
  }

  /** A limb takes at most three out of the next one, an even limb at most two. */
  lemma {:induction false} BorrowBound(x: seq<int>, i: nat)
    requires |x| == 10 && i < 10 && forall k :: 0 <= k < 10 ==> -TWO_TO_THE_26 < x[k] < TWO_TO_THE_26
    ensures BorrowIn(x, i) <= 3 && (i % 2 == 1 ==> BorrowIn(x, i) <= 2)
    ensures BorrowOut(x, i) <= 3 && 0 <= Passed(x, i) < TWO_TO_THE_26
    ensures (forall k :: 0 <= k <= i ==> x[k] >= 0) ==> BorrowOut(x, i) == 0
  {
    hide Shortfall;
    hide BorrowOut;
    hide BorrowIn;
    hide Passed;
    if i == 0 {
      NothingBorrowedYet(x);
    } else {
      BorrowBound(x, i - 1);
      PassStep(x, i - 1, x[i - 1] - BorrowIn(x, i - 1));
      ShortfallOf(x[i - 1] - BorrowIn(x, i - 1), Radix(i - 1));
    }
    PassStep(x, i, x[i] - BorrowIn(x, i));
    ShortfallOf(x[i] - BorrowIn(x, i), Radix(i));
  }

  /** One pass over the limbs: each ends up as the pass says, and what is borrowed out of limb 9 comes off
      limb 0 nineteen-fold. */
  method BorrowPass(x: array<s32>) returns (ghost borrowed: nat)
    requires x.Length == 10 && forall k :: 0 <= k < 10 ==> -TWO_TO_THE_26 < x[k] as int < TWO_TO_THE_26
    modifies x
    ensures Congruent(IntValue(SInts(x[..])), IntValue(SInts(old(x[..]))))
    ensures borrowed == BorrowOut(SInts(old(x[..])), 9)
    ensures x[0] as int == Passed(SInts(old(x[..])), 0) - 19 * borrowed
    ensures forall k :: 0 < k < 10 ==> x[k] as int == Passed(SInts(old(x[..])), k)
  {
    hide IntValue;
    hide Congruent;
    hide Shortfall;
    hide BorrowOut;
    hide BorrowIn;
    hide Passed;
    ghost var start := SInts(x[..]);
    NothingBorrowedYet(start);
    for i := 0 to 9
      invariant IntValue(SInts(x[..])) == IntValue(start)
      invariant forall k :: 0 <= k < i ==> x[k] as int == Passed(start, k)
      invariant x[i] as int == start[i] - BorrowIn(start, i)
      invariant forall k :: i < k < 10 ==> x[k] as int == start[k]
    {
      PassStep(start, i, x[i] as int);
      BorrowBound(start, i);
      BorrowAt(x, i);
    }
    PassStep(start, 9, x[9] as int);
    BorrowBound(start, 9);
    BorrowBound(start, 0);
    borrowed := BorrowRound(x);
  }

  /** After the first round only limb 0 can be negative, and only just. */
  method FirstBorrow(x: array<s32>) returns (ghost borrowed: nat)
    requires x.Length == 10 && forall k :: 0 <= k < 10 ==> -TWO_TO_THE_26 < x[k] as int < TWO_TO_THE_26
    modifies x
    ensures Congruent(IntValue(SInts(x[..])), IntValue(SInts(old(x[..]))))
    ensures SmallLimbs(x[..], 1) && -57 <= x[0] as int < TWO_TO_THE_26
    ensures borrowed == BorrowOut(SInts(old(x[..])), 9) <= 3
    ensures x[0] as int == Passed(SInts(old(x[..])), 0) - 19 * borrowed
    ensures forall k :: 0 < k < 10 ==> x[k] as int == Passed(SInts(old(x[..])), k)
  {
    hide IntValue;
    hide Congruent;
    hide BorrowOut;
    hide Passed;
    ghost var start := SInts(x[..]);
    forall k | 0 <= k < 10
      ensures BorrowOut(start, k) <= 3 && 0 <= Passed(start, k) < TWO_TO_THE_26
    {
      BorrowBound(start, k);
    }
    borrowed := BorrowPass(x);
  }

  /** One is the most that is borrowed out of limb 9 if and only if limb 9, less what limb 8 borrows of it, is at
      least -2^25; in any case it is at most three. */
  lemma BorrowedAtMostOnce(x: seq<int>)
    requires |x| == 10 && forall k :: 0 <= k < 10 ==> -TWO_TO_THE_26 < x[k] < TWO_TO_THE_26
    ensures BorrowOut(x, 9) <= 3
    ensures BorrowOut(x, 9) <= 1 <==> x[9] - BorrowOut(x, 8) >= -TWO_TO_THE_25
    ensures (forall k :: 0 <= k < 9 ==> x[k] >= 0) ==> (BorrowOut(x, 9) <= 1 <==> x[9] >= -TWO_TO_THE_25)
  {
    hide Shortfall;
    hide BorrowOut;
    hide BorrowIn;
    hide Passed;
    BorrowBound(x, 8);
    BorrowBound(x, 9);
    PassStep(x, 8, x[8] - BorrowIn(x, 8));
    PassStep(x, 9, x[9] - BorrowIn(x, 9));
    ShortfallOf(x[9] - BorrowIn(x, 9), TWO_TO_THE_25);
  }

  lemma ShortfallOf(v: int, radix: int)
    requires radix == TWO_TO_THE_26 || radix == TWO_TO_THE_25
    ensures Shortfall(v, radix) <= 1 <==> v >= -radix
    ensures v >= -2 * radix ==> Shortfall(v, radix) <= 2
    ensures v >= -3 * radix ==> Shortfall(v, radix) <= 3
  {
  }

  /** Three is reached, and leaves -57 in limb 0. */
  lemma ThreeAreBorrowed(x: seq<int>)
    requires x == [0, 0, 0, 0, 0, 0, 0, 1 - TWO_TO_THE_26, 1 - TWO_TO_THE_26, 1 - TWO_TO_THE_26]
    ensures BorrowOut(x, 9) == 3 && Passed(x, 0) - 19 * BorrowOut(x, 9) == -57
  {
    hide BorrowOut;
    hide BorrowIn;
    NothingBorrowedYet(x);
    for i := 0 to 7
      invariant BorrowIn(x, i) == 0
    {
      PassStep(x, i, 0);
    }
    PassStep(x, 0, 0);
    PassStep(x, 7, 1 - TWO_TO_THE_26);
    PassStep(x, 8, -1 - TWO_TO_THE_26);
    PassStep(x, 9, -1 - TWO_TO_THE_26);
  }

  /** A second pass has work to do only if limb 0 is negative, and takes one out of each limb on its way. */
  lemma {:induction false} SecondBorrowBound(x: seq<int>, i: nat)
    requires |x| == 10 && i < 10 && -57 <= x[0] < TWO_TO_THE_26 && forall k :: 0 < k < 10 ==> 0 <= x[k] < TWO_TO_THE_26
    ensures BorrowOut(x, i) <= 1 && (BorrowOut(x, i) == 1 ==> x[0] < 0)
  {
    hide Shortfall;
    hide BorrowOut;
    hide BorrowIn;
    hide Passed;
    if i == 0 {
      NothingBorrowedYet(x);
    } else {
      SecondBorrowBound(x, i - 1);
      PassStep(x, i - 1, x[i - 1] - BorrowIn(x, i - 1));
    }
    PassStep(x, i, x[i] - BorrowIn(x, i));
    ShortfallOf(x[i] - BorrowIn(x, i), Radix(i));
  }

  lemma FirstLimbPassed(x: seq<int>)
    requires |x| == 10
    ensures -TWO_TO_THE_26 <= x[0] < 0 ==> Passed(x, 0) == x[0] + TWO_TO_THE_26
    ensures x[0] >= 0 ==> Passed(x, 0) == x[0]
  {
    ShortfallOf(x[0], TWO_TO_THE_26);
  }

  /** After the second round no limb is negative. */
  method SecondBorrow(x: array<s32>)
    requires x.Length == 10 && SmallLimbs(x[..], 1) && -57 <= x[0] as int < TWO_TO_THE_26
    modifies x
    ensures Congruent(IntValue(SInts(x[..])), IntValue(SInts(old(x[..]))))
    ensures SmallLimbs(x[..], 0)
  {
    hide IntValue;
    hide Congruent;
    hide BorrowOut;
    hide Passed;
    ghost var start := SInts(x[..]);
    assert forall k :: 0 < k < 10 ==> x[..][k] == x[k] && 0 <= start[k] < TWO_TO_THE_26;
    forall k | 0 <= k < 10
      ensures 0 <= Passed(start, k) < TWO_TO_THE_26
    {
      BorrowBound(start, k);
    }
    SecondBorrowBound(start, 9);
    FirstLimbPassed(start);
    ghost var _ := BorrowPass(x);
  }

  // ----- fcontract: carrying

  /** Moves what limb i cannot hold to the next one. */
  method CarryAt(x: array<s32>, i: nat)
    requires x.Length == 10 && i < 9
    requires 0 <= x[i] as int < TWO_TO_THE_27 && 0 <= x[i + 1] as int < TWO_TO_THE_26
    modifies x
    ensures IntValue(SInts(x[..])) == IntValue(SInts(old(x[..])))
    ensures forall k :: 0 <= k < 10 && k != i && k != i + 1 ==> x[k] == old(x[k])
    ensures x[i] as int == old(x[i]) as int % Radix(i)
    ensures x[i + 1] as int == old(x[i + 1]) as int + old(x[i]) as int / Radix(i)
  {
    ghost var before := x[..];
    var carry := ShiftRight(x[i], Radix(i));
    x[i] := (x[i] as int % Radix(i)) as s32;  // & 0x3ffffff or & 0x1ffffff
    x[i + 1] := x[i + 1] + carry;
    ValueMoves(SInts(before), SInts(x[..]), i, carry as int);
  }

  method CarryRound(x: array<s32>)
    requires x.Length == 10 && 0 <= x[9] as int < TWO_TO_THE_27 && 0 <= x[0] as int < TWO_TO_THE_26
    modifies x
    ensures Congruent(IntValue(SInts(x[..])), IntValue(SInts(old(x[..]))))
    ensures forall k :: 0 < k < 9 ==> x[k] == old(x[k])
    ensures x[9] as int == old(x[9]) as int % TWO_TO_THE_25
    ensures x[0] as int == old(x[0]) as int + 19 * (old(x[9]) as int / TWO_TO_THE_25)
  {
    ghost var before := x[..];
    var carry := ShiftRight(x[9], TWO_TO_THE_25);
    x[9] := (x[9] as int % TWO_TO_THE_25) as s32;
    x[0] := x[0] + 19 * carry;
    ValueWraps(SInts(before), SInts(x[..]), carry as int);
  }

  ghost predicate InRange(x: seq<int>, from: nat)
    requires |x| == 10
  {
    forall k :: from <= k < 10 ==> 0 <= x[k] < Radix(k)
  }

  method FirstCarry(x: array<s32>)
    requires x.Length == 10 && SmallLimbs(x[..], 0)
    modifies x
    ensures Congruent(IntValue(SInts(x[..])), IntValue(SInts(old(x[..]))))
    ensures InRange(SInts(x[..]), 1) && 0 <= x[0] as int < TWO_TO_THE_26 + 2 * 19
  {
    hide IntValue;
    hide Congruent;
    hide SInts;
    hide InRange;
    ghost var start := x[..];
    for i := 0 to 9
      invariant IntValue(SInts(x[..])) == IntValue(SInts(start))
      invariant forall k :: 0 <= k < i ==> 0 <= x[k] as int < Radix(k)
      invariant 0 <= x[i] as int <= TWO_TO_THE_26 + 1
      invariant i % 2 == 1 ==> x[i] as int <= TWO_TO_THE_26
      invariant i == 0 ==> x[0] == start[0]
      invariant forall k :: i < k < 10 ==> x[k] == start[k]
    {
      CarryAt(x, i);
    }
    CarryRound(x);
    LimbsInRange(x[..], 1);
  }

  lemma LimbsInRange(x: seq<s32>, from: nat)
    requires |x| == 10 && forall k :: from <= k < 10 ==> 0 <= x[k] as int < Radix(k)
    ensures InRange(SInts(x), from)
  {
  }

  method SecondCarry(x: array<s32>)
    requires x.Length == 10 && InRange(SInts(x[..]), 1) && 0 <= x[0] as int < TWO_TO_THE_26 + 2 * 19
    modifies x
    ensures Congruent(IntValue(SInts(x[..])), IntValue(SInts(old(x[..]))))
    ensures InRange(SInts(x[..]), 0)
  {
    hide IntValue;
    hide Congruent;
    ghost var start := x[..];
    forall k | 0 < k < 10
      ensures 0 <= start[k] as int < Radix(k)
    {
      assert SInts(start)[k] == start[k] as int;
    }
    for i := 0 to 9
      invariant IntValue(SInts(x[..])) == IntValue(SInts(start))
      invariant forall k :: 0 <= k < i ==> 0 <= x[k] as int < Radix(k)
      invariant 0 <= x[i] as int <= Radix(i) + (if i == 0 then 37 else 0)
      invariant i > 0 && x[i] as int == Radix(i) ==> x[0] as int < 2 * 19
      invariant forall k :: i < k < 10 ==> x[k] == start[k]
    {
      CarryAt(x, i);
    }
    CarryRound(x);
  }

  // ----- fcontract: the last subtraction

  /** The n low bits of a number, least significant first. */
  function Bits(x: int, n: nat): (r: seq<bool>)
    ensures |r| == n
    decreases n
  {
    if n == 0 then [] else [x % 2 == 1] + Bits(x / 2, n - 1)
  }

  /** Numbers less than two to the n apart that agree in their n low bits are equal. */
  lemma {:induction false} BitsTellApart(x: int, y: int, n: nat, bound: int)
    requires -bound < x - y < bound && bound == TwoTo(n)
    requires Bits(x, n) == Bits(y, n)
    ensures x == y
    decreases n
  {
    if n > 0 {
      var s, t := Bits(x, n), Bits(y, n);
      assert s[0] == t[0] && s[1..] == t[1..];
      assert s[1..] == Bits(x / 2, n - 1) && t[1..] == Bits(y / 2, n - 1);
      BitsTellApart(x / 2, y / 2, n - 1, TwoTo(n - 1));
    }
  }

  lemma TwoToThe32()
    ensures TwoTo(32) == TWO_TO_THE_32
  {
    assert TwoTo(4) == 16;
    assert TwoTo(8) == 16 * TwoTo(4);
    assert TwoTo(12) == 16 * TwoTo(8);
    assert TwoTo(16) == 16 * TwoTo(12);
    assert TwoTo(20) == 16 * TwoTo(16);
    assert TwoTo(24) == 16 * TwoTo(20);
    assert TwoTo(28) == 16 * TwoTo(24);
    assert TwoTo(32) == 16 * TwoTo(28);
  }

  /** ~(a ^ b) */
  function NotXor(a: seq<bool>, b: seq<bool>): (r: seq<bool>)
    requires |a| == |b| == 32
    ensures |r| == 32
  {
    seq(32, i requires 0 <= i < 32 => a[i] == b[i])
  }

  /** x & (x << n) */
  function AndShifted(x: seq<bool>, n: nat): (r: seq<bool>)
    requires |x| == 32
    ensures |r| == 32
  {
    seq(32, i requires 0 <= i < 32 => i >= n && x[i] && x[i - n])
  }

  predicate AllFrom(x: seq<bool>, from: nat)
    requires |x| == 32
  {
    forall i :: from <= i < 32 ==> x[i]
  }

  lemma Halved(x: seq<bool>, n: nat)
    requires |x| == 32 && 0 < n <= 16
    ensures AllFrom(AndShifted(x, n), 32 - n) <==> AllFrom(x, 32 - 2 * n)
  {
    var y := AndShifted(x, n);
    assert forall i :: n <= i < 32 ==> (y[i] <==> x[i] && x[i - n]);
    if AllFrom(y, 32 - n) {
      forall i | 32 - 2 * n <= i < 32
        ensures x[i]
      {
        assert y[if i < 32 - n then i + n else i];
      }
    }
  }

  /** Every bit of a word folded into the top one. */
  function Folded32(x: seq<bool>): (top: bool)
    requires |x| == 32
    ensures top <==> AllFrom(x, 0)
  {
    hide AllFrom;
    hide AndShifted;
    Halved(x, 16);
    var x16 := AndShifted(x, 16);
    Halved(x16, 8);
    var x8 := AndShifted(x16, 8);
    Halved(x8, 4);
    var x4 := AndShifted(x8, 4);
    Halved(x4, 2);
    var x2 := AndShifted(x4, 2);
    Halved(x2, 1);
    var x1 := AndShifted(x2, 1);
    TopBitOnly(x1);
    x1[31]
  }

  lemma TopBitOnly(x: seq<bool>)
    requires |x| == 32
    ensures AllFrom(x, 31) <==> x[31]
  {
  }

  function S32Eq(a: s32, b: s32): (mask: s32)
    ensures mask == if a == b then -1 else 0
  {
    var x, y := Bits(a as int, 32), Bits(b as int, 32);
    EqualBits(a as int, b as int, x, y);
    if Folded32(NotXor(x, y)) then -1 else 0  // the arithmetic shift spreads the top bit
  }

  lemma NotXorBits(x: seq<bool>, y: seq<bool>)
    requires |x| == |y| == 32
    ensures forall i :: 0 <= i < 32 ==> (NotXor(x, y)[i] <==> x[i] == y[i])
  {
  }

  lemma EqualBits(a: int, b: int, x: seq<bool>, y: seq<bool>)
    requires a - b < TWO_TO_THE_32 && b - a < TWO_TO_THE_32
    requires x == Bits(a, 32) && y == Bits(b, 32)
    ensures AllFrom(NotXor(x, y), 0) <==> a == b
  {
    hide NotXor;
    hide Bits;
    hide TwoTo;
    NotXorBits(x, y);
    if a == b {
      assert x == y;
    } else if AllFrom(NotXor(x, y), 0) {
      assert x == y;
      TwoToThe32();
      BitsTellApart(a, b, 32, TWO_TO_THE_32);
    }
  }

  function S32Gte(a: s32, b: s32): (mask: s32)
    requires a >= 0 && b >= 0
    ensures mask == if a >= b then -1 else 0
  {
    -1 - ShiftRight(a - b, TWO_TO_THE_31)  // ~((a - b) >> 31)
  }

  /** The limbs of a value that is not below P although all of them are in range. */
  predicate IsTop(x: seq<int>)
    requires |x| == 10
  {
    x[0] >= 0x3ff_ffed && forall k :: 1 <= k < 10 ==> x[k] == Radix(k) - 1
  }

  /** The limbs of P. */
  function PrimeLimb(k: nat): int {
    if k == 0 then 0x3ff_ffed else Radix(k) - 1
  }

  /** In-range limbs stand for a number below 2^255, and for one below P unless they are at the top. */
  lemma RangeValue(x: seq<int>)
    requires |x| == 10 && InRange(x, 0)
    ensures 0 <= IntValue(x) < P + 19
    ensures IntValue(x) >= P <==> IsTop(x)
  {
    assert forall k :: 0 <= k < 10 ==> 0 <= x[k] <= Radix(k) - 1;
    assert x[0] <= 0x3ff_ffff && x[1] <= 0x1ff_ffff && x[2] <= 0x3ff_ffff && x[3] <= 0x1ff_ffff && x[4] <= 0x3ff_ffff;
    assert x[5] <= 0x1ff_ffff && x[6] <= 0x3ff_ffff && x[7] <= 0x1ff_ffff && x[8] <= 0x3ff_ffff && x[9] <= 0x1ff_ffff;
  }

  lemma SubtractPrime(x: seq<int>, y: seq<int>)
    requires |x| == |y| == 10 && forall k :: 0 <= k < 10 ==> y[k] == x[k] - PrimeLimb(k)
    ensures IntValue(y) == IntValue(x) - P
  {
    assert y[0] == x[0] - 0x3ff_ffed && y[1] == x[1] - 0x1ff_ffff && y[2] == x[2] - 0x3ff_ffff;
    assert y[3] == x[3] - 0x1ff_ffff && y[4] == x[4] - 0x3ff_ffff && y[5] == x[5] - 0x1ff_ffff;
    assert y[6] == x[6] - 0x3ff_ffff && y[7] == x[7] - 0x1ff_ffff && y[8] == x[8] - 0x3ff_ffff && y[9] == x[9] - 0x1ff_ffff;
  }

  /** Subtracts P once if the value is not below it, without branching on the value. */
  method SubtractOnce(x: array<s32>)
    requires x.Length == 10 && InRange(SInts(x[..]), 0)
    modifies x
    ensures InRange(SInts(x[..]), 0)
    ensures IntValue(SInts(x[..])) == IntValue(SInts(old(x[..]))) % P
  {
    hide IntValue;
    hide S32Eq;
    hide S32Gte;
    ghost var start := SInts(x[..]);
    RangeValue(start);
    forall k | 0 <= k < 10
      ensures 0 <= x[k] as int < Radix(k)
    {
      assert start[k] == x[k] as int;
    }
    var mask := S32Gte(x[0], 0x3ff_ffed);
    for i := 1 to 10
      invariant x[..] == old(x[..])
      invariant mask == if x[0] >= 0x3ff_ffed && (forall k :: 1 <= k < i ==> x[k] as int == Radix(k) - 1) then -1 else 0
    {
      mask := Masked(S32Eq(x[i], (Radix(i) - 1) as s32), mask);
    }
    assert mask == if IsTop(start) then -1 else 0;
    x[0] := x[0] - Masked(0x3ff_ffed, mask);
    for i := 1 to 10
      invariant forall k :: 0 <= k < i ==> x[k] as int == start[k] - (if mask == -1 then PrimeLimb(k) else 0)
      invariant forall k :: i <= k < 10 ==> x[k] as int == start[k]
    {
      x[i] := x[i] - Masked((Radix(i) - 1) as s32, mask);
    }
    if mask == -1 {
      SubtractPrime(start, SInts(x[..]));
      DivModUnique(IntValue(start), P, 1, IntValue(start) - P);
    } else {
      assert SInts(x[..]) == start;
      DivModUnique(IntValue(start), P, 0, IntValue(start));
    }
  }

  // ----- fcontract: packing

  /** Bitwise or. */
  function Or(a: nat, b: nat): nat {
    if a == 0 then b else if b == 0 then a
    else (if a % 2 == 1 || b % 2 == 1 then 1 else 0) + 2 * Or(a / 2, b / 2)
  }

  /** Numbers without a common bit are added. */
  lemma {:induction false} OrAdds(a: nat, b: nat, k: nat)
    requires a < TwoTo(k) && b % TwoTo(k) == 0
    ensures Or(a, b) == a + b
  {
    if a > 0 && b > 0 {
      HalfMultiple(b, TwoTo(k - 1));
      OrAdds(a / 2, b / 2, k - 1);
    }
  }

  lemma HalfMultiple(b: nat, m: nat)
    requires m > 0 && b % (2 * m) == 0
    ensures b % 2 == 0 && (b / 2) % m == 0
  {
    var q := b / (2 * m);
    assert b == q * (2 * m) == 2 * (q * m);
    DivModUnique(b / 2, m, q, 0);
  }

  /** The bits below a limb as a power of two. */
  function BelowBits(n: nat): (k: nat)
    requires n < 10
    ensures k < 7 && TwoTo(k) == Below(n)
  {
    assert TwoTo(1) == 2 && TwoTo(2) == 4 && TwoTo(3) == 8 && TwoTo(4) == 16 && TwoTo(5) == 32 && TwoTo(6) == 64;
    match n
    case 0 => 0
    case 1 => 2
    case 2 => 3
    case 3 => 5
    case 4 => 6
    case 5 => 0
    case 6 => 1
    case 7 => 3
    case 8 => 4
    case _ => 6
  }

  /** A shifted limb as a signed 32-bit pattern: limb 4 fills all 32 bits, and may come out negative. */
  function ShiftLeft(x: s32, n: nat): (r: s32)
    requires n < 10 && 0 <= x as int < Radix(n)
    ensures r as int % TWO_TO_THE_32 == x as int * Below(n)
  {
    LayoutFacts(n);
    ShiftedFits(x as int, n);
    var u := x as int * Below(n);
    if u < TWO_TO_THE_31 then u as s32 else (u - TWO_TO_THE_32) as s32
  }

  lemma ShiftedFits(x: int, n: nat)
    requires n < 10 && 0 <= x < Radix(n)
    ensures 0 <= x * Below(n) < Above(n) * 0x100_0000 <= TWO_TO_THE_32
  {
    MulLe(Below(n), 0, x);
    MulLe(Below(n), x, Radix(n) - 1);
    assert (Radix(n) - 1) * Below(n) == Radix(n) * Below(n) - Below(n);
  }

  /** Byte k of a 32-bit pattern, whatever its sign. */
  function ByteOfWord(v: s32, k: nat): byte
    requires k < 4
  {
    (v as int / (if k == 0 then 1 else if k == 1 then 0x100 else if k == 2 then 0x1_0000 else 0x100_0000)) % 0x100
  }

  lemma WordBytes(v: s32, u: int)
    requires u == v as int % TWO_TO_THE_32
    ensures u == ByteOfWord(v, 0) as int + 0x100 * ByteOfWord(v, 1) as int + 0x1_0000 * ByteOfWord(v, 2) as int + 0x100_0000 * ByteOfWord(v, 3) as int
  {
    var w := v as int;
    assert w / 0x100 == w / 0x1_0000 * 0x100 + ByteOfWord(v, 1);
    assert w / 0x1_0000 == w / 0x100_0000 * 0x100 + ByteOfWord(v, 2);
    assert w / 0x100_0000 == w / TWO_TO_THE_32 * 0x100 + ByteOfWord(v, 3);
  }

  /** The limbs below n are packed, and the byte they share with limb n has only their bits so far. */
  ghost predicate PackedBelow(b: seq<byte>, x: seq<int>, n: nat)
    requires |b| == 32 && |x| == 10 && n <= 10
  {
    && (forall m :: 0 <= m < n ==> LimbPacked(b, m, x[m]))
    && (n < 10 ==> b[StartByte(n)] < Below(n))
    && (n == 10 ==> b[31] < 128)
    && (n <= 5 ==> b[16] == 0)
  }

  /** Writes the four bytes of limb n; the first of them may already hold the end of limb n-1. */
  method PackLimb(output: array<byte>, n: nat, v: s32, ghost x: seq<int>)
    requires output.Length == 32 && |x| == 10 && InRange(x, 0) && n < 10
    requires PackedBelow(output[..], x, n) && v as int % TWO_TO_THE_32 == x[n] * Below(n)
    modifies output
    ensures PackedBelow(output[..], x, n + 1)
  {
    var s := StartByte(n);
    ghost var before := output[..];
    LowByteFits(v, x[n], n);
    OrAdds(output[s], ByteOfWord(v, 0), BelowBits(n));
    output[s] := Or(output[s], ByteOfWord(v, 0));
    output[s + 1] := ByteOfWord(v, 1);
    output[s + 2] := ByteOfWord(v, 2);
    output[s + 3] := ByteOfWord(v, 3);
    PackedMore(before, output[..], x, n, v);
  }

  lemma LowByteFits(v: s32, x: int, n: nat)
    requires n < 10 && v as int % TWO_TO_THE_32 == x * Below(n)
    ensures ByteOfWord(v, 0) % Below(n) == 0
    ensures ByteOfWord(v, 0) + Below(n) <= 0x100
  {
    WordBytes(v, x * Below(n));
    LayoutFacts(n);
    var d, e := Below(n), 0x100 / Below(n);
    var (b0, b1, b2, b3) := (ByteOfWord(v, 0) as int, ByteOfWord(v, 1) as int, ByteOfWord(v, 2) as int, ByteOfWord(v, 3) as int);
    MultipleLeft(x, d, e, b0, b1, b2, b3);
    var q := b0 / d;
    assert b0 == q * d;
    QuotientBelow(b0, d, e);
    MulLe(d, q, e - 1);
  }

  lemma MultipleLeft(x: int, d: int, e: int, b0: int, b1: int, b2: int, b3: int)
    requires d > 0 && d * e == 0x100
    requires x * d == b0 + 0x100 * b1 + 0x1_0000 * b2 + 0x100_0000 * b3
    ensures b0 % d == 0
  {
    var q := x - e * b1 - (0x100 * e) * b2 - (0x1_0000 * e) * b3;
    assert (e * b1) * d == (d * e) * b1;
    assert ((0x100 * e) * b2) * d == 0x100 * (d * e) * b2;
    assert ((0x1_0000 * e) * b3) * d == 0x1_0000 * (d * e) * b3;
    assert b0 == q * d;
    DivModUnique(b0, d, q, 0);
  }

  lemma OwnLimb(a: byte, after: seq<byte>, x: int, n: nat, v: s32)
    requires |after| == 32 && n < 10 && 0 <= x < Radix(n) && a < Below(n) && v as int % TWO_TO_THE_32 == x * Below(n)
    requires var s := StartByte(n);
             && after[s] as int == a as int + ByteOfWord(v, 0) as int
             && after[s + 1] == ByteOfWord(v, 1) && after[s + 2] == ByteOfWord(v, 2) && after[s + 3] == ByteOfWord(v, 3)
    ensures LimbPacked(after, n, x) && after[StartByte(n) + 3] < Above(n) && after[StartByte(n)] % Below(n) == a
  {
    LowByteFits(v, x, n);
    ShiftedFits(x, n);
    WordBytes(v, x * Below(n));
    var s, d, above := StartByte(n), Below(n), Above(n);
    var b0, b1, b2, b3 := ByteOfWord(v, 0), ByteOfWord(v, 1), ByteOfWord(v, 2), ByteOfWord(v, 3);
    TopByteBelow(x * d, b0, b1, b2, b3, above);
    FirstByte(a, b0, d);
    SmallRemainder(b3, above);
    hide ByteOfWord;
    hide Below;
    hide Above;
    hide Radix;
    hide StartByte;
  }

  lemma TopByteBelow(u: int, b0: byte, b1: byte, b2: byte, b3: byte, above: int)
    requires u == b0 as int + 0x100 * b1 as int + 0x1_0000 * b2 as int + 0x100_0000 * b3 as int
    requires u < above * 0x100_0000
    ensures b3 < above
  {
  }

  lemma OtherLimbs(before: seq<byte>, after: seq<byte>, x: seq<int>, n: nat, m: nat)
    requires |before| == |after| == 32 && |x| == 10 && m < n < 10
    requires LimbPacked(before, m, x[m]) && before[StartByte(n)] < Below(n) && after[StartByte(n)] % Below(n) == before[StartByte(n)]
    requires forall k :: 0 <= k < 32 && !(StartByte(n) <= k <= StartByte(n) + 3) ==> after[k] == before[k]
    ensures LimbPacked(after, m, x[m])
  {
    StartBytesApart(m, n);
    hide Below;
    hide Above;
    hide StartByte;
    var s := StartByte(m);
    assert after[s] == before[s] && after[s + 1] == before[s + 1] && after[s + 2] == before[s + 2];
    if s + 3 == StartByte(n) {
      SmallRemainder(before[s + 3], Above(m));
    }
    assert after[s + 3] % Above(m) == before[s + 3] % Above(m);
  }

  lemma SmallRemainder(b: byte, d: int)
    requires b < d
    ensures b % d == b
  {
  }

  lemma StartBytesApart(m: nat, n: nat)
    requires m < n < 10
    ensures StartByte(m) + 3 <= StartByte(n)
    ensures StartByte(m) + 3 == StartByte(n) ==> m == n - 1 && n != 5 && Above(m) == Below(n)
  {
  }

  lemma PackedMore(before: seq<byte>, after: seq<byte>, x: seq<int>, n: nat, v: s32)
    requires |before| == |after| == 32 && |x| == 10 && InRange(x, 0) && n < 10
    requires PackedBelow(before, x, n) && v as int % TWO_TO_THE_32 == x[n] * Below(n)
    requires var s := StartByte(n);
             && after[s] as int == before[s] as int + ByteOfWord(v, 0) as int
             && after[s + 1] == ByteOfWord(v, 1) && after[s + 2] == ByteOfWord(v, 2) && after[s + 3] == ByteOfWord(v, 3)
             && forall k :: 0 <= k < 32 && !(s <= k <= s + 3) ==> after[k] == before[k]
    ensures PackedBelow(after, x, n + 1)
  {
    hide ByteOfWord;
    hide LimbPacked;
    hide Radix;
    OwnLimb(before[StartByte(n)], after, x[n], n, v);
    forall m | 0 <= m < n
      ensures LimbPacked(after, m, x[m])
    {
      OtherLimbs(before, after, x, n, m);
    }
    LayoutFacts(n);
  }

  lemma FirstByte(a: byte, b: byte, d: int)
    requires 0 < d && a < d && b % d == 0
    ensures (a as int + b as int) / d * d == b && (a as int + b as int) % d == a
  {
    var q := b / d;
    assert b as int == q * d;
    DivModUnique(a as int + b as int, d, q, a);
  }

  /** Writes in-range limbs as 32 bytes. */
  method Pack(output: array<byte>, x: array<s32>)
    requires output.Length == 32 && x.Length == 10 && InRange(SInts(x[..]), 0)
    modifies output
    ensures Packed(output[..], SInts(x[..])) && output[31] < 128
  {
    hide Radix;
    hide PackedBelow;
    ghost var v := SInts(x[..]);
    forall n | 0 <= n < 10
      ensures 0 <= x[n] as int < Radix(n) && v[n] == x[n] as int
    {
      assert v[n] == x[..][n] as int;
    }
    output[0] := 0;
    output[16] := 0;
    StartPacking(output[..], v);
    PackLimb(output, 0, ShiftLeft(x[0], 0), v);
    PackLimb(output, 1, ShiftLeft(x[1], 1), v);
    PackLimb(output, 2, ShiftLeft(x[2], 2), v);
    PackLimb(output, 3, ShiftLeft(x[3], 3), v);
    PackLimb(output, 4, ShiftLeft(x[4], 4), v);
    PackLimb(output, 5, ShiftLeft(x[5], 5), v);
    PackLimb(output, 6, ShiftLeft(x[6], 6), v);
    PackLimb(output, 7, ShiftLeft(x[7], 7), v);
    PackLimb(output, 8, ShiftLeft(x[8], 8), v);
    PackLimb(output, 9, ShiftLeft(x[9], 9), v);
    DonePacking(output[..], v);
  }

  lemma StartPacking(b: seq<byte>, x: seq<int>)
    requires |b| == 32 && |x| == 10 && b[0] == 0 && b[16] == 0
    ensures PackedBelow(b, x, 0)
  {
  }

  lemma DonePacking(b: seq<byte>, x: seq<int>)
    requires |b| == 32 && |x| == 10 && PackedBelow(b, x, 10)
    ensures Packed(b, x) && b[31] < 128
  {
  }

  // ----- the whole contraction

  /** Writes an element as the 32 little-endian bytes of its representative below P. */
  method FContract(output: array<byte>, limbs: array<limb>)
    requires output.Length == 32 && limbs.Length == 10 && Within(limbs[..], 10, TWO_TO_THE_26)
    modifies output
    ensures LittleEndian(output[..]) == Value(limbs[..]) % P
    ensures exists x: seq<int> :: |x| == 10 && InRange(x, 0) && Packed(output[..], x) && IntValue(x) == Value(limbs[..]) % P
  {
    hide IntValue;
    hide Value;
    hide Congruent;
    hide LittleEndian;
    hide InRange;
    hide Packed;
    hide SmallLimbs;
    hide BorrowOut;
    hide Passed;
    var x := new s32[10];
    CopyLimbs(x, limbs);
    ghost var v := IntValue(SInts(x[..]));
    ghost var _ := FirstBorrow(x);
    ghost var v1 := IntValue(SInts(x[..]));
    SecondBorrow(x);
    ghost var v2 := IntValue(SInts(x[..]));
    BorrowNothing(x);
    FirstCarry(x);
    ghost var v3 := IntValue(SInts(x[..]));
    SecondCarry(x);
    ghost var v4 := IntValue(SInts(x[..]));
    SubtractOnce(x);
    SameRemainder(v, v1, v2, v3, v4);
    Pack(output, x);
    PackedValue(output[..], SInts(x[..]));
  }

  method CopyLimbs(x: array<s32>, limbs: array<limb>)
    requires x.Length == limbs.Length == 10 && Within(limbs[..], 10, TWO_TO_THE_26)
    modifies x
    ensures forall k :: 0 <= k < 10 ==> -TWO_TO_THE_26 < x[k] as int < TWO_TO_THE_26
    ensures IntValue(SInts(x[..])) == Value(limbs[..])
  {
    assert forall k :: 0 <= k < 10 ==> limbs[..][k] == limbs[k];
    for i := 0 to 10
      invariant forall k :: 0 <= k < i ==> x[k] as int == limbs[k] as int
    {
      x[i] := limbs[i] as s32;
    }
    assert SInts(x[..]) == Ints(limbs[..]);
    IntsValue(limbs[..]);
  }

  /** The third borrow of the source, out of limb 0 once more: it never finds anything to borrow. */
  method BorrowNothing(x: array<s32>)
    requires x.Length == 10 && SmallLimbs(x[..], 0)
    modifies x
    ensures x[..] == old(x[..])
  {
    assert x[..][0] == x[0] && x[..][1] == x[1];
    BorrowAt(x, 0);
  }

  lemma SameRemainder(a: int, b: int, c: int, d: int, e: int)
    requires Congruent(b, a) && Congruent(c, b) && Congruent(d, c) && Congruent(e, d)
    ensures a % P == e % P
  {
    CongruentTrans(e, d, c);
    CongruentTrans(e, c, b);
    CongruentTrans(e, b, a);
    var k := CongruentQuotient(e, a);
    var q := a / P;
    assert a == q * P + a % P;
    assert e == (q + k) * P + a % P;
    DivModUnique(e, P, q + k, a % P);
  }

  /** Expanding what was contracted gives the representative back, limb by limb. */
  method ContractExpand(limbs: array<limb>) returns (back: array<limb>)
    requires limbs.Length == 10 && Within(limbs[..], 10, TWO_TO_THE_26)
    ensures back.Length == 10 && InRange(Ints(back[..]), 0) && Value(back[..]) == Value(limbs[..]) % P
  {
    hide Value;
    hide LittleEndian;
    var bytes := new byte[32];
    FContract(bytes, limbs);
    back := new limb[10];
    FExpand(back, bytes);
    ghost var x: seq<int> :| |x| == 10 && InRange(x, 0) && Packed(bytes[..], x) && IntValue(x) == Value(limbs[..]) % P;
    PackedIsUnique(bytes[..], x, Ints(back[..]));
    IntsValue(back[..]);
  }

  /** Two encodings are equal exactly if the elements are congruent: one encoding for each element. */
  lemma EncodingIsCanonical(a: seq<byte>, b: seq<byte>, x: int, y: int)
    requires |a| == |b| == 32 && LittleEndian(a) == x % P && LittleEndian(b) == y % P
    ensures Congruent(x, y) <==> a == b
  {
    if Congruent(x, y) {
      CongruentSelf(x);
      SameRemainder(y, x, x, x, x);
      LittleEndianInjective(a, b);
    }
    if a == b {
      assert x - y == (x / P - y / P) * P by {
        assert x == (x / P) * P + x % P && y == (y / P) * P + y % P;
      }
      CongruentBy(x, y, x / P - y / P);
    }
  }

  lemma CongruentSelf(x: int)
    ensures Congruent(x, x)
  {
  }

  lemma {:induction false} LittleEndianInjective(a: seq<byte>, b: seq<byte>)
    requires |a| == |b| && LittleEndian(a) == LittleEndian(b)
    ensures a == b
  {
    if a != [] {
      LittleEndianInjective(a[1..], b[1..]);
      assert a == [a[0]] + a[1..] && b == [b[0]] + b[1..];
    }
  }
}
