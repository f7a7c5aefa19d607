/** Exclusive or of bytes, bit by bit. */
module ExclusiveOr {
  import opened Words

  /** Exclusive or of the low n bits. */
  function XorBits(n: nat, a: nat, b: nat): (r: nat)
    ensures r < TwoTo(n)
  {
    if n == 0 then 0 else 2 * XorBits(n - 1, a / 2, b / 2) + (a + b) % 2
  }

  lemma {:induction false} XorBitsTwice(n: nat, a: nat, b: nat)
    requires a < TwoTo(n)
    ensures XorBits(n, XorBits(n, a, b), b) == a
  {
    hide XorBits;
    XorBitsUnfold(n, a, b);
    if n > 0 {
      var r := XorBits(n, a, b);
      XorBitsUnfold(n, r, b);
      XorBitsTwice(n - 1, a / 2, b / 2);
      assert (r + b) % 2 == a % 2;
    }
  }

  lemma XorBitsUnfold(n: nat, a: nat, b: nat)
    ensures n == 0 ==> XorBits(n, a, b) == 0
    ensures n > 0 ==> XorBits(n, a, b) / 2 == XorBits(n - 1, a / 2, b / 2) && XorBits(n, a, b) % 2 == (a + b) % 2
    ensures n > 0 ==> XorBits(n, a, b) == 2 * (XorBits(n, a, b) / 2) + XorBits(n, a, b) % 2
  {
    if n > 0 {
      DivModUnique(XorBits(n, a, b), 2, XorBits(n - 1, a / 2, b / 2), (a + b) % 2);
    }
  }

  lemma EightBits()
    ensures TwoTo(8) == 0x100
  {
    assert TwoTo(4) == 16;
  }

  function Xor(a: byte, b: byte): byte {
    EightBits();
    XorBits(8, a, b)
  }

  /** Bit i of an exclusive or is set if exactly one of the two bits is. */
  lemma {:induction false} BitOfXor(n: nat, a: nat, b: nat, i: nat)
    requires i < n
    ensures XorBits(n, a, b) / TwoTo(i) % 2 == (a / TwoTo(i) + b / TwoTo(i)) % 2
  {
    hide XorBits;
    XorBitsUnfold(n, a, b);
    if i == 0 {
      assert TwoTo(0) == 1;
    } else {
      var r := XorBits(n, a, b);
      BitOfXor(n - 1, a / 2, b / 2, i - 1);
      HalvesAgain(r, i);
      HalvesAgain(a, i);
      HalvesAgain(b, i);
    }
  }

  lemma HalvesAgain(v: nat, i: nat)
    requires i > 0
    ensures v / TwoTo(i) == v / 2 / TwoTo(i - 1)
  {
    var m := TwoTo(i - 1);
    assert TwoTo(i) == 2 * m;
    var q := v / 2 / m;
    var r := v / 2 % m;
    assert v == (q * m + r) * 2 + v % 2 == q * (2 * m) + (2 * r + v % 2);
    DivModUnique(v, 2 * m, q, 2 * r + v % 2);
  }

  /** Of bytes: all eight bits. */
  lemma XorIs(a: byte, b: byte)
    ensures forall i: nat :: i < 8 ==> Xor(a, b) / TwoTo(i) % 2 == (a / TwoTo(i) + b / TwoTo(i)) % 2
  {
    forall i: nat | i < 8
      ensures Xor(a, b) / TwoTo(i) % 2 == (a / TwoTo(i) + b / TwoTo(i)) % 2
    {
      BitOfXor(8, a, b, i);
    }
  }

  lemma XorTwice(a: byte, b: byte)
    ensures Xor(Xor(a, b), b) == a
  {
    EightBits();
    XorBitsTwice(8, a, b);
  }

  lemma {:induction false} XorBitsCommutes(n: nat, a: nat, b: nat)
    ensures XorBits(n, a, b) == XorBits(n, b, a)
  {
    if n > 0 {
      XorBitsCommutes(n - 1, a / 2, b / 2);
    }
  }

  lemma XorCommutes(a: byte, b: byte)
    ensures Xor(a, b) == Xor(b, a)
  {
    XorBitsCommutes(8, a, b);
  }
}
