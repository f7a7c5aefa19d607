/** The inversion of crecip: an addition chain for the exponent P - 2. */
module FieldInverse {
  import opened Words
  import opened Field
  import opened FieldMultiply

  function Pow(x: int, n: nat): int {
    if n == 0 then 1 else x * Pow(x, n - 1)
  }

  lemma {:induction false} PowAdd(x: int, m: nat, n: nat)
    ensures Pow(x, m) * Pow(x, n) == Pow(x, m + n)
  {
    if m > 0 {
      PowAdd(x, m - 1, n);
      assert x * Pow(x, m - 1) * Pow(x, n) == x * (Pow(x, m - 1) * Pow(x, n));
    }
  }

  lemma {:induction false} TwoToAdd(m: nat, n: nat)
    ensures TwoTo(m) * TwoTo(n) == TwoTo(m + n)
  {
    if m > 0 {
      TwoToAdd(m - 1, n);
      TwiceAProduct(TwoTo(m - 1), TwoTo(n));
    }
  }

  lemma TwiceAProduct(a: int, b: int)
    ensures (2 * a) * b == 2 * (a * b)
  {
  }

  /** Shifting m ones left by n places and filling in n ones. */
  lemma OnesJoin(m: nat, n: nat)
    ensures (TwoTo(m) - 1) * TwoTo(n) + (TwoTo(n) - 1) == TwoTo(m + n) - 1
  {
    TwoToAdd(m, n);
    assert (TwoTo(m) - 1) * TwoTo(n) == TwoTo(m) * TwoTo(n) - TwoTo(n);
  }

  lemma SmallPowers()
    ensures TwoTo(5) == 32 && TwoTo(10) == 1024
  {
    assert TwoTo(1) == 2 && TwoTo(2) == 4 && TwoTo(3) == 8;
    TwoToAdd(2, 3);
    TwoToAdd(5, 5);
  }

  /** A product of powers of two, once the factors are known. */
  lemma TwoToIs(m: nat, n: nat, a: nat, b: nat)
    requires TwoTo(m) == a && TwoTo(n) == b
    ensures TwoTo(m + n) == a * b
  {
    TwoToAdd(m, n);
  }

  lemma TwoToThe255()
    ensures TwoTo(5) == 32 && TwoTo(255) == P + 19
  {
    hide TwoTo;
    SmallPowers();
    TwoToIs(10, 10, 0x400, 0x400);
    TwoToIs(20, 5, 0x10_0000, 0x20);
    TwoToIs(25, 25, 0x200_0000, 0x200_0000);
    TwoToIs(50, 50, 0x4_0000_0000_0000, 0x4_0000_0000_0000);
    TwoToIs(100, 100, 0x10_0000_0000_0000_0000_0000_0000, 0x10_0000_0000_0000_0000_0000_0000);
    TwoToIs(200, 50, 0x100_0000_0000_0000_0000_0000_0000_0000_0000_0000_0000_0000_0000, 0x4_0000_0000_0000);
    TwoToIs(250, 5, 0x400_0000_0000_0000_0000_0000_0000_0000_0000_0000_0000_0000_0000_0000_0000_0000, 0x20);
  }

  /** The limbs are small and stand for the n-th power of z modulo P. */
  ghost predicate IsPower(x: seq<limb>, z: int, n: nat)
    requires |x| == 10
  {
    Within(x, 10, TWO_TO_THE_27) && Congruent(Value(x), Pow(z, n))
  }

  method Multiply(output: array<limb>, a: array<limb>, b: array<limb>, ghost z: int, ghost m: nat, ghost n: nat)
    requires output.Length == a.Length == b.Length == 10 && output != a && output != b
    requires IsPower(a[..], z, m) && IsPower(b[..], z, n)
    modifies output
    ensures IsPower(output[..], z, m + n) && Within(output[..], 10, TWO_TO_THE_26)
  {
    FMul(output, a, b);
    CongruentProduct(Value(a[..]), Pow(z, m), Value(b[..]), Pow(z, n));
    CongruentTrans(Value(output[..]), Value(a[..]) * Value(b[..]), Pow(z, m) * Pow(z, n));
    PowAdd(z, m, n);
  }

  method Square(output: array<limb>, a: array<limb>, ghost z: int, ghost m: nat)
    requires output.Length == a.Length == 10 && output != a
    requires IsPower(a[..], z, m)
    modifies output
    ensures IsPower(output[..], z, 2 * m)
  {
    FSquare(output, a);
    CongruentProduct(Value(a[..]), Pow(z, m), Value(a[..]), Pow(z, m));
    CongruentTrans(Value(output[..]), Value(a[..]) * Value(a[..]), Pow(z, m) * Pow(z, m));
    PowAdd(z, m, m);
  }

  /** Five squarings in a row, without a loop. */
  method SquareFive(s: array<limb>, t: array<limb>, input: array<limb>, ghost z: int, ghost m: nat)
    requires s.Length == t.Length == input.Length == 10 && s != t && s != input
    requires IsPower(input[..], z, m)
    modifies s, t
    ensures IsPower(s[..], z, 32 * m)
  {
    hide IsPower;
    hide Pow;
    hide Value;
    hide Congruent;
    hide Within;
    Square(s, input, z, m);
    Square(t, s, z, 2 * m);
    Square(s, t, z, 4 * m);
    Square(t, s, z, 8 * m);
    Square(s, t, z, 16 * m);
  }

  /** The squaring loops of the chain: n squarings, alternating between two buffers. */
  method SquareTimes(s: array<limb>, t: array<limb>, input: array<limb>, n: nat, ghost z: int, ghost m: nat)
    requires s.Length == t.Length == input.Length == 10 && s != t && s != input
    requires n >= 2 && n % 2 == 0 && IsPower(input[..], z, m)
    modifies s, t
    ensures IsPower(t[..], z, m * TwoTo(n))
  {
    hide IsPower;
    hide Pow;
    hide Value;
    hide Congruent;
    hide Within;
    hide TwoTo;
    Square(s, input, z, m);
    Square(t, s, z, 2 * m);
    var i := 2;
    Doubled(m, 0);
    while i < n
      invariant 2 <= i <= n && i % 2 == 0
      invariant IsPower(t[..], z, m * TwoTo(i))
    {
      Square(s, t, z, m * TwoTo(i));
      Square(t, s, z, 2 * (m * TwoTo(i)));
      Doubled(m, i);
      i := i + 2;
    }
  }

  lemma Doubled(m: nat, i: nat)
    ensures 2 * (2 * (m * TwoTo(i))) == m * TwoTo(i + 2)
    ensures i == 0 ==> 2 * (2 * m) == m * TwoTo(i + 2)
  {
    assert TwoTo(i + 2) == 2 * TwoTo(i + 1) == 4 * TwoTo(i);
    assert m * (4 * TwoTo(i)) == 4 * (m * TwoTo(i));
  }

  /** The first part of the chain: exponents 11 and 2^10 - 1. */
  method ChainToTen(input: array<limb>, ghost z: int) returns (z11: array<limb>, z2_10_0: array<limb>)
    requires input.Length == 10 && IsPower(input[..], z, 1)
    ensures fresh(z11) && fresh(z2_10_0) && z11.Length == z2_10_0.Length == 10 && z11 != z2_10_0
    ensures IsPower(z11[..], z, 11) && IsPower(z2_10_0[..], z, TwoTo(10) - 1)
  {
    hide IsPower;
    hide TwoTo;
    hide Pow;
    hide Value;
    hide Congruent;
    hide Within;
    var z2, z9, z2_5_0 := new limb[10], new limb[10], new limb[10];
    z11, z2_10_0 := new limb[10], new limb[10];
    var t0, t1 := new limb[10], new limb[10];
    Square(z2, input, z, 1);
    Square(t1, z2, z, 2);
    Square(t0, t1, z, 4);
    Multiply(z9, t0, input, z, 8, 1);
    Multiply(z11, z9, z2, z, 9, 2);
    Square(t0, z11, z, 11);
    Multiply(z2_5_0, t0, z9, z, 22, 9);
    SquareFive(t0, t1, z2_5_0, z, 31);
    Multiply(z2_10_0, t0, z2_5_0, z, 992, 31);
    SmallPowers();
  }

  /** From 2^10 - 1 to 2^50 - 1. */
  method ChainToFifty(z2_10_0: array<limb>, ghost z: int) returns (z2_50_0: array<limb>)
    requires z2_10_0.Length == 10 && IsPower(z2_10_0[..], z, TwoTo(10) - 1)
    ensures fresh(z2_50_0) && z2_50_0.Length == 10 && IsPower(z2_50_0[..], z, TwoTo(50) - 1)
  {
    hide IsPower;
    hide Pow;
    hide Value;
    hide Congruent;
    hide Within;
    hide TwoTo;
    var z2_20_0 := new limb[10];
    z2_50_0 := new limb[10];
    var t0, t1 := new limb[10], new limb[10];
    SquareTimes(t0, t1, z2_10_0, 10, z, TwoTo(10) - 1);
    Multiply(z2_20_0, t1, z2_10_0, z, (TwoTo(10) - 1) * TwoTo(10), TwoTo(10) - 1);
    OnesJoin(10, 10);
    SquareTimes(t0, t1, z2_20_0, 20, z, TwoTo(20) - 1);
    Multiply(t0, t1, z2_20_0, z, (TwoTo(20) - 1) * TwoTo(20), TwoTo(20) - 1);
    OnesJoin(20, 20);
    SquareTimes(t1, t0, t0, 10, z, TwoTo(40) - 1);
    Multiply(z2_50_0, t0, z2_10_0, z, (TwoTo(40) - 1) * TwoTo(10), TwoTo(10) - 1);
    OnesJoin(40, 10);
  }

  /** From 2^50 - 1 to 2^250 - 1. */
  method ChainToTwoHundredAndFifty(z2_50_0: array<limb>, ghost z: int) returns (t0: array<limb>, t1: array<limb>)
    requires z2_50_0.Length == 10 && IsPower(z2_50_0[..], z, TwoTo(50) - 1)
    ensures fresh(t0) && fresh(t1) && t0 != t1 && t0.Length == t1.Length == 10
    ensures IsPower(t0[..], z, TwoTo(250) - 1)
  {
    hide IsPower;
    hide Pow;
    hide Value;
    hide Congruent;
    hide Within;
    hide TwoTo;
    var z2_100_0 := new limb[10];
    t0, t1 := new limb[10], new limb[10];
    SquareTimes(t0, t1, z2_50_0, 50, z, TwoTo(50) - 1);
    Multiply(z2_100_0, t1, z2_50_0, z, (TwoTo(50) - 1) * TwoTo(50), TwoTo(50) - 1);
    OnesJoin(50, 50);
    SquareTimes(t1, t0, z2_100_0, 100, z, TwoTo(100) - 1);
    Multiply(t1, t0, z2_100_0, z, (TwoTo(100) - 1) * TwoTo(100), TwoTo(100) - 1);
    OnesJoin(100, 100);
    SquareTimes(t0, t1, t1, 50, z, TwoTo(200) - 1);
    Multiply(t0, t1, z2_50_0, z, (TwoTo(200) - 1) * TwoTo(50), TwoTo(50) - 1);
    OnesJoin(200, 50);
  }

  /** The chain but for its last six steps. */
  method ChainUp(input: array<limb>, ghost z: int) returns (t0: array<limb>, t1: array<limb>, z11: array<limb>)
    requires input.Length == 10 && IsPower(input[..], z, 1)
    ensures fresh(t0) && fresh(t1) && fresh(z11) && t0 != t1 && t0 != z11 && t1 != z11
    ensures t0.Length == t1.Length == z11.Length == 10
    ensures IsPower(t0[..], z, TwoTo(250) - 1) && IsPower(z11[..], z, 11)
  {
    hide IsPower;
    hide TwoTo;
    var z2_10_0;
    z11, z2_10_0 := ChainToTen(input, z);
    var z2_50_0 := ChainToFifty(z2_10_0, z);
    t0, t1 := ChainToTwoHundredAndFifty(z2_50_0, z);
  }

  lemma LastExponent()
    ensures 32 * (TwoTo(250) - 1) + 11 == P - 2
  {
    OnesJoin(250, 5);
    TwoToThe255();
  }

  /** z to the power of 2^255 - 21, which is P - 2. */
  method CRecip(output: array<limb>, input: array<limb>)
    requires output.Length == input.Length == 10 && output != input
    requires Within(input[..], 10, TWO_TO_THE_27)
    modifies output
    ensures Congruent(Value(output[..]), Pow(Value(input[..]), P - 2))
    ensures Within(output[..], 10, TWO_TO_THE_26)
  {
    ghost var z := Value(input[..]);
    First(input[..]);
    hide IsPower;
    hide TwoTo;
    hide P;
    var t0, t1, z11 := ChainUp(input, z);
    ghost var e := TwoTo(250) - 1;
    SquareFive(t1, t0, t0, z, e);
    Multiply(output, t1, z11, z, 32 * e, 11);
    LastExponent();
    Last(output[..], z, P - 2);
  }

  lemma First(x: seq<limb>)
    requires |x| == 10 && Within(x, 10, TWO_TO_THE_27)
    ensures IsPower(x, Value(x), 1)
  {
    assert Pow(Value(x), 1) == Value(x) * Pow(Value(x), 0);
    CongruentBy(Value(x), Value(x), 0);
  }

  lemma Last(x: seq<limb>, z: int, n: nat)
    requires |x| == 10 && IsPower(x, z, n)
    ensures Congruent(Value(x), Pow(z, n))
  {
  }

  /** The power below the one that gives 1 is the inverse. With n = P - 1, for which Fermat promises 1, that
      is what CRecip computes. */
  lemma InverseIfFermat(z: int, n: nat, inverse: int)
    requires n > 0 && Congruent(Pow(z, n), 1) && Congruent(inverse, Pow(z, n - 1))
    ensures Congruent(z * inverse, 1)
  {
    CongruentBy(z, z, 0);
    CongruentProduct(z, z, inverse, Pow(z, n - 1));
    CongruentTrans(z * inverse, Pow(z, n), 1);
  }
}
