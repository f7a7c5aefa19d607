/** Field elements modulo 2^255-19 as lib/curve25519-donna/curve25519-donna.c keeps them: ten signed
    64-bit limbs of alternately 26 and 25 bits. Every operation is written in the bounded integer
    types of the source, so that it verifies only if no intermediate result overflows. */
module Field {
  import opened Words

  newtype limb = x: int | -0x8000_0000_0000_0000 <= x < 0x8000_0000_0000_0000
  newtype s32 = x: int | -0x8000_0000 <= x < 0x8000_0000

  const TWO_TO_THE_25: int := 0x200_0000
  const TWO_TO_THE_26: int := 0x400_0000
  const TWO_TO_THE_27: int := 0x800_0000
  const TWO_TO_THE_54: int := 0x40_0000_0000_0000

  /** The prime 2^255 - 19. */
  const P: int := 0x7FFF_FFFF_FFFF_FFFF_FFFF_FFFF_FFFF_FFFF_FFFF_FFFF_FFFF_FFFF_FFFF_FFFF_FFFF_FFED

  /** The place value of limb i: 2 to the power of 25.5 i, rounded up. */
  function Weight(i: nat): int
    requires i < 19
  {
    match i
    case 0 => 0x1
    case 1 => 0x400_0000
    case 2 => 0x8_0000_0000_0000
    case 3 => 0x2000_0000_0000_0000_0000
    case 4 => 0x40_0000_0000_0000_0000_0000_0000
    case 5 => 0x1_0000_0000_0000_0000_0000_0000_0000_0000
    case 6 => 0x200_0000_0000_0000_0000_0000_0000_0000_0000_0000
    case 7 => 0x8_0000_0000_0000_0000_0000_0000_0000_0000_0000_0000_0000
    case 8 => 0x1000_0000_0000_0000_0000_0000_0000_0000_0000_0000_0000_0000_0000
    case 9 => 0x40_0000_0000_0000_0000_0000_0000_0000_0000_0000_0000_0000_0000_0000_0000
    case 10 => 0x8000_0000_0000_0000_0000_0000_0000_0000_0000_0000_0000_0000_0000_0000_0000_0000
    case 11 => 0x200_0000_0000_0000_0000_0000_0000_0000_0000_0000_0000_0000_0000_0000_0000_0000_0000_0000
    case 12 => 0x4_0000_0000_0000_0000_0000_0000_0000_0000_0000_0000_0000_0000_0000_0000_0000_0000_0000_0000_0000
    case 13 => 0x1000_0000_0000_0000_0000_0000_0000_0000_0000_0000_0000_0000_0000_0000_0000_0000_0000_0000_0000_0000_0000
    case 14 => 0x20_0000_0000_0000_0000_0000_0000_0000_0000_0000_0000_0000_0000_0000_0000_0000_0000_0000_0000_0000_0000_0000_0000
    case 15 => 0x8000_0000_0000_0000_0000_0000_0000_0000_0000_0000_0000_0000_0000_0000_0000_0000_0000_0000_0000_0000_0000_0000_0000_0000
    case 16 => 0x100_0000_0000_0000_0000_0000_0000_0000_0000_0000_0000_0000_0000_0000_0000_0000_0000_0000_0000_0000_0000_0000_0000_0000_0000_0000
    case 17 => 0x4_0000_0000_0000_0000_0000_0000_0000_0000_0000_0000_0000_0000_0000_0000_0000_0000_0000_0000_0000_0000_0000_0000_0000_0000_0000_0000_0000
    case _ => 0x800_0000_0000_0000_0000_0000_0000_0000_0000_0000_0000_0000_0000_0000_0000_0000_0000_0000_0000_0000_0000_0000_0000_0000_0000_0000_0000_0000_0000
  }

  /** Consecutive weights differ by 26 and 25 bits in turn, and ten limbs make 255 bits. */
  lemma WeightSteps(i: nat)
    requires i < 18
    ensures Weight(i + 1) == Weight(i) * (if i % 2 == 0 then TWO_TO_THE_26 else TWO_TO_THE_25)
    ensures i < 9 ==> Weight(i + 10) == Weight(i) * (P + 19)
  {
    if i == 0 {
    } else if i == 1 {
    } else if i == 2 {
    } else if i == 3 {
    } else if i == 4 {
    } else if i == 5 {
    } else if i == 6 {
    } else if i == 7 {
    } else if i == 8 {
    } else if i == 9 {
    } else if i == 10 {
    } else if i == 11 {
    } else if i == 12 {
    } else if i == 13 {
    } else if i == 14 {
    } else if i == 15 {
    } else if i == 16 {
    } else if i == 17 {
    }
  }

  /** The integer that the first ten limbs stand for. */
  function Value(x: seq<limb>): int
    requires |x| >= 10
  {
    x[0] as int + Weight(1) * x[1] as int + Weight(2) * x[2] as int + Weight(3) * x[3] as int + Weight(4) * x[4] as int
    + Weight(5) * x[5] as int + Weight(6) * x[6] as int + Weight(7) * x[7] as int + Weight(8) * x[8] as int + Weight(9) * x[9] as int
  }

  function LongValue(x: seq<limb>): int
    requires |x| == 19
  {
    Value(x)
    + Weight(10) * x[10] as int + Weight(11) * x[11] as int + Weight(12) * x[12] as int + Weight(13) * x[13] as int + Weight(14) * x[14] as int
    + Weight(15) * x[15] as int + Weight(16) * x[16] as int + Weight(17) * x[17] as int + Weight(18) * x[18] as int
  }

  predicate Within(x: seq<limb>, n: nat, bound: int)
    requires n <= |x|
  {
    forall i :: 0 <= i < n ==> -bound < x[i] as int < bound
  }

  // ----- congruence modulo P

  ghost predicate Congruent(a: int, b: int) {
    (a - b) % P == 0
  }

  lemma CongruentBy(a: int, b: int, k: int)
    requires a - b == k * P
    ensures Congruent(a, b)
  {
    DivModUnique(a - b, P, k, 0);
  }

  lemma CongruentQuotient(a: int, b: int) returns (k: int)
    requires Congruent(a, b)
    ensures a == b + k * P
  {
    k := (a - b) / P;
  }

  lemma CongruentTrans(a: int, b: int, c: int)
    requires Congruent(a, b) && Congruent(b, c)
    ensures Congruent(a, c) && Congruent(b, a)
  {
    var k := CongruentQuotient(a, b);
    var l := CongruentQuotient(b, c);
    CongruentBy(a, c, k + l);
    CongruentBy(b, a, -k);
  }

  lemma CongruentProduct(a: int, b: int, c: int, d: int)
    requires Congruent(a, b) && Congruent(c, d)
    ensures Congruent(a * c, b * d)
  {
    var k := CongruentQuotient(a, b);
    var l := CongruentQuotient(c, d);
    assert a * c - b * d == (b * l + k * d + k * l * P) * P by {
      RingStep(b, k, d, l, P);
    }
    CongruentBy(a * c, b * d, b * l + k * d + k * l * P);
  }

  lemma RingStep(b: int, k: int, d: int, l: int, p: int)
    ensures (b + k * p) * (d + l * p) - b * d == (b * l + k * d + k * l * p) * p
  {
    assert (b + k * p) * (d + l * p) == b * d + b * (l * p) + (k * p) * d + (k * p) * (l * p);
    assert b * (l * p) == (b * l) * p && (k * p) * d == (k * d) * p && (k * p) * (l * p) == (k * l * p) * p;
  }
}
