/** Multiplication and squaring of field elements: the products of the limbs, then the reduction of
    the degree and of the coefficients. */
module FieldMultiply {
  import opened Words
  import opened Field

  /** Fourteen products of two limbs below 2^27. */
  const PRODUCT_BOUND: int := 14 * TWO_TO_THE_54 + 1

  function Times(a: int, b: int): int {
    a * b
  }

  /** The product of two limbs, each cut to 32 bits first; the cut loses nothing. */
  function Mul(a: limb, b: limb): (r: limb)
    requires -TWO_TO_THE_27 < a as int < TWO_TO_THE_27 && -TWO_TO_THE_27 < b as int < TWO_TO_THE_27
    ensures r as int == Times(a as int, b as int)
    ensures -TWO_TO_THE_54 <= r as int <= TWO_TO_THE_54
  {
    MulBound(a as int, b as int);
    ((a as s32) as limb) * ((b as s32) as limb)
  }

  lemma MulBound(a: int, b: int)
    requires -TWO_TO_THE_27 < a < TWO_TO_THE_27 && -TWO_TO_THE_27 < b < TWO_TO_THE_27
    ensures -TWO_TO_THE_54 <= a * b <= TWO_TO_THE_54
  {
    var x, y := if a < 0 then -a else a, if b < 0 then -b else b;
    Larger(x, y);
    assert a * b == x * y || a * b == -(x * y);
  }

  lemma MulLe(z: nat, x: int, y: int)
    requires x <= y
    ensures z * x <= z * y
  {
  }

  lemma Larger(x: nat, y: nat)
    requires x < TWO_TO_THE_27 && y < TWO_TO_THE_27
    ensures 0 <= x * y <= TWO_TO_THE_54
  {
    MulLe(x, 0, y);
    MulLe(x, y, TWO_TO_THE_27);
    assert x * TWO_TO_THE_27 <= TWO_TO_THE_54;
  }

  /** What limbs i and k-i contribute to coefficient k: two odd limbs meet half a bit too low. */
  function Term(a: seq<limb>, b: seq<limb>, i: nat, k: nat): int
    requires |a| == |b| == 10 && i < 10
  {
    if i <= k < i + 10 then (if i % 2 == 1 && (k - i) % 2 == 1 then 2 else 1) * Times(a[i] as int, b[k - i] as int) else 0
  }

  function Convolution(a: seq<limb>, b: seq<limb>, k: nat): int
    requires |a| == |b| == 10
  {
    Term(a, b, 0, k) + Term(a, b, 1, k) + Term(a, b, 2, k) + Term(a, b, 3, k) + Term(a, b, 4, k)
    + Term(a, b, 5, k) + Term(a, b, 6, k) + Term(a, b, 7, k) + Term(a, b, 8, k) + Term(a, b, 9, k)
  }

  lemma TimesCommutes(a: seq<limb>)
    ensures forall i, j :: 0 <= i < |a| && 0 <= j < |a| ==> Times(a[i] as int, a[j] as int) == Times(a[j] as int, a[i] as int)
  {
  }

  ghost predicate ConvolutionIn(a: seq<limb>, b: seq<limb>, t: seq<limb>, from: nat, to: nat)
    requires |a| == |b| == 10 && |t| == 19 && to <= 19
  {
    forall k :: from <= k < to ==> t[k] as int == Convolution(a, b, k) && -PRODUCT_BOUND < t[k] as int < PRODUCT_BOUND
  }

  /** One limb times a whole element. */
  lemma RowProduct(x: int, b: seq<limb>)
    requires |b| == 10
    ensures x * Value(b)
         == x * b[0] as int + Weight(1) * (x * b[1] as int) + Weight(2) * (x * b[2] as int) + Weight(3) * (x * b[3] as int) + Weight(4) * (x * b[4] as int) + Weight(5) * (x * b[5] as int) + Weight(6) * (x * b[6] as int) + Weight(7) * (x * b[7] as int) + Weight(8) * (x * b[8] as int) + Weight(9) * (x * b[9] as int)
  {
  }

  /** What limb i of the first factor contributes to coefficient k, in its place. */
  function Cell(a: seq<limb>, b: seq<limb>, i: nat, k: nat): int
    requires |a| == |b| == 10 && i < 10 && k < 19
  {
    Weight(k) * Term(a, b, i, k)
  }

  /** What limb i of the first factor contributes to the long product. */
  function Row(a: seq<limb>, b: seq<limb>, i: nat): int
    requires |a| == |b| == 10 && i < 10
  {
    Cell(a, b, i, 0) + Cell(a, b, i, 1) + Cell(a, b, i, 2) + Cell(a, b, i, 3)
    + Cell(a, b, i, 4) + Cell(a, b, i, 5) + Cell(a, b, i, 6) + Cell(a, b, i, 7)
    + Cell(a, b, i, 8) + Cell(a, b, i, 9) + Cell(a, b, i, 10) + Cell(a, b, i, 11)
    + Cell(a, b, i, 12) + Cell(a, b, i, 13) + Cell(a, b, i, 14) + Cell(a, b, i, 15)
    + Cell(a, b, i, 16) + Cell(a, b, i, 17) + Cell(a, b, i, 18)
  }

  /** A row without its zeros. */
  function RowCore(a: seq<limb>, b: seq<limb>, i: nat): int
    requires |a| == |b| == 10 && i < 10
  {
    Cell(a, b, i, i) + Cell(a, b, i, i + 1) + Cell(a, b, i, i + 2)
    + Cell(a, b, i, i + 3) + Cell(a, b, i, i + 4) + Cell(a, b, i, i + 5)
    + Cell(a, b, i, i + 6) + Cell(a, b, i, i + 7) + Cell(a, b, i, i + 8)
    + Cell(a, b, i, i + 9)
  }

  /** Weights multiply like powers of two with rounded exponents. */
  lemma {:induction false} WeightProduct(i: nat, j: nat)
    requires i < 10 && j < 10
    ensures Weight(i + j) * (if i % 2 == 1 && j % 2 == 1 then 2 else 1) == Weight(i) * Weight(j)
  {
    hide Weight;
    if j == 0 {
      WeightZero();
    } else {
      WeightProduct(i, j - 1);
      WeightSteps(j - 1);
      WeightSteps(i + j - 1);
      WeightStep(Weight(i), Weight(j - 1), Weight(i + j - 1), i % 2, (j - 1) % 2, (i + j - 1) % 2);
    }
  }

  lemma WeightZero()
    ensures Weight(0) == 1
  {
  }

  lemma WeightStep(wi: int, wj: int, wij: int, a: nat, b: nat, c: nat)
    requires a < 2 && b < 2 && c == (a + b) % 2
    requires wij * (if a == 1 && b == 1 then 2 else 1) == wi * wj
    ensures wij * (if c == 0 then TWO_TO_THE_26 else TWO_TO_THE_25) * (if a == 1 && b == 0 then 2 else 1)
         == wi * (wj * (if b == 0 then TWO_TO_THE_26 else TWO_TO_THE_25))
  {
    var s := if b == 0 then TWO_TO_THE_26 else TWO_TO_THE_25;
    assert wi * (wj * s) == (wi * wj) * s;
  }

  lemma TermWeight(a: seq<limb>, b: seq<limb>, i: nat, j: nat)
    requires |a| == |b| == 10 && i < 10 && j < 10
    ensures Weight(i + j) * Term(a, b, i, i + j) == Weight(i) * (Weight(j) * (a[i] as int * b[j] as int))
  {
    hide Weight;
    WeightProduct(i, j);
    var m := a[i] as int * b[j] as int;
    var c := if i % 2 == 1 && j % 2 == 1 then 2 else 1;
    Reassociate(Weight(i + j), c, m, Weight(i), Weight(j));
  }

  lemma Reassociate(w: int, c: int, m: int, x: int, y: int)
    requires w * c == x * y
    ensures w * (c * m) == x * (y * m)
  {
    assert w * (c * m) == (w * c) * m;
    assert x * (y * m) == (x * y) * m;
  }

  lemma RowHasZeros(a: seq<limb>, b: seq<limb>, i: nat)
    requires |a| == |b| == 10 && i < 10
    ensures Row(a, b, i) == RowCore(a, b, i)
  {
    forall k: nat | k < 19 && !(i <= k < i + 10)
      ensures Cell(a, b, i, k) == 0
    {
    }
    hide Cell;
    if i == 0 {
    } else if i == 1 {
    } else if i == 2 {
    } else if i == 3 {
    } else if i == 4 {
    } else if i == 5 {
    } else if i == 6 {
    } else if i == 7 {
    } else if i == 8 {
    } else if i == 9 {
    }
  }

  lemma RowIsProduct(a: seq<limb>, b: seq<limb>, i: nat)
    requires |a| == |b| == 10 && i < 10
    ensures Row(a, b, i) == Weight(i) * (a[i] as int * Value(b))
  {
    hide Term;
    hide Weight;
    hide Value;
    hide Row;
    RowHasZeros(a, b, i);
    RowProduct(a[i] as int, b);
    TermWeight(a, b, i, 0);
    TermWeight(a, b, i, 1);
    TermWeight(a, b, i, 2);
    TermWeight(a, b, i, 3);
    TermWeight(a, b, i, 4);
    TermWeight(a, b, i, 5);
    TermWeight(a, b, i, 6);
    TermWeight(a, b, i, 7);
    TermWeight(a, b, i, 8);
    TermWeight(a, b, i, 9);
    WeightZero();
  }

  /** All that goes into coefficient k. */
  function Column(a: seq<limb>, b: seq<limb>, k: nat): int
    requires |a| == |b| == 10 && k < 19
  {
    Cell(a, b, 0, k) + Cell(a, b, 1, k) + Cell(a, b, 2, k) + Cell(a, b, 3, k) + Cell(a, b, 4, k) + Cell(a, b, 5, k)
    + Cell(a, b, 6, k) + Cell(a, b, 7, k) + Cell(a, b, 8, k) + Cell(a, b, 9, k)
  }

  function Columns(a: seq<limb>, b: seq<limb>): int
    requires |a| == |b| == 10
  {
    Column(a, b, 0) + Column(a, b, 1) + Column(a, b, 2) + Column(a, b, 3) + Column(a, b, 4) + Column(a, b, 5)
    + Column(a, b, 6) + Column(a, b, 7) + Column(a, b, 8) + Column(a, b, 9) + Column(a, b, 10) + Column(a, b, 11)
    + Column(a, b, 12) + Column(a, b, 13) + Column(a, b, 14) + Column(a, b, 15) + Column(a, b, 16) + Column(a, b, 17)
    + Column(a, b, 18)
  }

  lemma ColumnIsCoefficient(a: seq<limb>, b: seq<limb>, t: seq<limb>, k: nat)
    requires |a| == |b| == 10 && |t| == 19 && k < 19
    requires ConvolutionIn(a, b, t, 0, 19)
    ensures Weight(k) * t[k] as int == Column(a, b, k)
  {
    assert t[k] as int == Convolution(a, b, k);
    hide Term;
    hide Weight;
    hide ConvolutionIn;
    OverTen(Weight(k), Term(a, b, 0, k), Term(a, b, 1, k), Term(a, b, 2, k), Term(a, b, 3, k), Term(a, b, 4, k),
            Term(a, b, 5, k), Term(a, b, 6, k), Term(a, b, 7, k), Term(a, b, 8, k), Term(a, b, 9, k), t[k] as int);
  }

  lemma OverTen(w: int, a: int, b: int, c: int, d: int, e: int, f: int, g: int, h: int, i: int, j: int, sum: int)
    requires sum == a + b + c + d + e + f + g + h + i + j
    ensures w * sum == w * a + w * b + w * c + w * d + w * e + w * f + w * g + w * h + w * i + w * j
  {
  }

  /** Summing the rows is summing the columns. */
  lemma RowsAreColumns(a: seq<limb>, b: seq<limb>)
    requires |a| == |b| == 10
    ensures Columns(a, b) == Row(a, b, 0) + Row(a, b, 1) + Row(a, b, 2) + Row(a, b, 3) + Row(a, b, 4)
      + Row(a, b, 5) + Row(a, b, 6) + Row(a, b, 7) + Row(a, b, 8) + Row(a, b, 9)
  {
    hide Cell;
  }

  lemma RowsAreCoefficients(a: seq<limb>, b: seq<limb>, t: seq<limb>)
    requires |a| == |b| == 10 && |t| == 19
    requires ConvolutionIn(a, b, t, 0, 19)
    ensures LongValue(t) == Row(a, b, 0) + Row(a, b, 1) + Row(a, b, 2) + Row(a, b, 3) + Row(a, b, 4)
      + Row(a, b, 5) + Row(a, b, 6) + Row(a, b, 7) + Row(a, b, 8) + Row(a, b, 9)
  {
    hide Weight;
    hide Column;
    hide Row;
    hide ConvolutionIn;
    RowsAreColumns(a, b);
    WeightZero();
    ColumnIsCoefficient(a, b, t, 0);
    ColumnIsCoefficient(a, b, t, 1);
    ColumnIsCoefficient(a, b, t, 2);
    ColumnIsCoefficient(a, b, t, 3);
    ColumnIsCoefficient(a, b, t, 4);
    ColumnIsCoefficient(a, b, t, 5);
    ColumnIsCoefficient(a, b, t, 6);
    ColumnIsCoefficient(a, b, t, 7);
    ColumnIsCoefficient(a, b, t, 8);
    ColumnIsCoefficient(a, b, t, 9);
    ColumnIsCoefficient(a, b, t, 10);
    ColumnIsCoefficient(a, b, t, 11);
    ColumnIsCoefficient(a, b, t, 12);
    ColumnIsCoefficient(a, b, t, 13);
    ColumnIsCoefficient(a, b, t, 14);
    ColumnIsCoefficient(a, b, t, 15);
    ColumnIsCoefficient(a, b, t, 16);
    ColumnIsCoefficient(a, b, t, 17);
    ColumnIsCoefficient(a, b, t, 18);
  }

  lemma ConvolutionIsProduct(a: seq<limb>, b: seq<limb>, t: seq<limb>)
    requires |a| == |b| == 10 && |t| == 19
    requires ConvolutionIn(a, b, t, 0, 19)
    ensures LongValue(t) == Value(a) * Value(b)
  {
    hide Row;
    hide ConvolutionIn;
    hide Weight;
    RowsAreCoefficients(a, b, t);
    RowIsProduct(a, b, 0);
    RowIsProduct(a, b, 1);
    RowIsProduct(a, b, 2);
    RowIsProduct(a, b, 3);
    RowIsProduct(a, b, 4);
    RowIsProduct(a, b, 5);
    RowIsProduct(a, b, 6);
    RowIsProduct(a, b, 7);
    RowIsProduct(a, b, 8);
    RowIsProduct(a, b, 9);
    RowProduct(Value(b), a);
    WeightZero();
    hide LongValue;
    hide Value;
  }

  method FProductPart0(output: array<limb>, in2: array<limb>, input: array<limb>)
    requires output.Length == 19 && in2.Length == input.Length == 10
    requires output != input && output != in2
    requires Within(in2[..], 10, TWO_TO_THE_27) && Within(input[..], 10, TWO_TO_THE_27)
    modifies output
    ensures ConvolutionIn(in2[..], input[..], output[..], 0, 3)
    ensures forall k :: 0 <= k < 19 && !(0 <= k < 3) ==> output[k] == old(output[k])
  {
    hide Times;
    output[0] := Mul(in2[0], input[0]);
    output[1] := Mul(in2[0], input[1]) + Mul(in2[1], input[0]);
    output[2] := 2 * Mul(in2[1], input[1]) + Mul(in2[0], input[2]) + Mul(in2[2], input[0]);
  }

  method FProductPart1(output: array<limb>, in2: array<limb>, input: array<limb>)
    requires output.Length == 19 && in2.Length == input.Length == 10
    requires output != input && output != in2
    requires Within(in2[..], 10, TWO_TO_THE_27) && Within(input[..], 10, TWO_TO_THE_27)
    modifies output
    ensures ConvolutionIn(in2[..], input[..], output[..], 3, 5)
    ensures forall k :: 0 <= k < 19 && !(3 <= k < 5) ==> output[k] == old(output[k])
  {
    hide Times;
    output[3] := Mul(in2[1], input[2]) + Mul(in2[2], input[1]) + Mul(in2[0], input[3]) + Mul(in2[3], input[0]);
    output[4] := Mul(in2[2], input[2]) + 2 * (Mul(in2[1], input[3]) + Mul(in2[3], input[1])) + Mul(in2[0], input[4]) +
      Mul(in2[4], input[0]);
  }

  method FProductPart2(output: array<limb>, in2: array<limb>, input: array<limb>)
    requires output.Length == 19 && in2.Length == input.Length == 10
    requires output != input && output != in2
    requires Within(in2[..], 10, TWO_TO_THE_27) && Within(input[..], 10, TWO_TO_THE_27)
    modifies output
    ensures ConvolutionIn(in2[..], input[..], output[..], 5, 8)
    ensures forall k :: 0 <= k < 19 && !(5 <= k < 8) ==> output[k] == old(output[k])
  {
    hide Times;
    output[5] := Mul(in2[2], input[3]) + Mul(in2[3], input[2]) + Mul(in2[1], input[4]) + Mul(in2[4], input[1]) +
      Mul(in2[0], input[5]) + Mul(in2[5], input[0]);
    output[6] := 2 * (Mul(in2[3], input[3]) + Mul(in2[1], input[5]) + Mul(in2[5], input[1])) + Mul(in2[2], input[4]) +
      Mul(in2[4], input[2]) + Mul(in2[0], input[6]) + Mul(in2[6], input[0]);
    output[7] := Mul(in2[3], input[4]) + Mul(in2[4], input[3]) + Mul(in2[2], input[5]) + Mul(in2[5], input[2]) +
      Mul(in2[1], input[6]) + Mul(in2[6], input[1]) + Mul(in2[0], input[7]) + Mul(in2[7], input[0]);
  }

  method FProductPart3(output: array<limb>, in2: array<limb>, input: array<limb>)
    requires output.Length == 19 && in2.Length == input.Length == 10
    requires output != input && output != in2
    requires Within(in2[..], 10, TWO_TO_THE_27) && Within(input[..], 10, TWO_TO_THE_27)
    modifies output
    ensures ConvolutionIn(in2[..], input[..], output[..], 8, 10)
    ensures forall k :: 0 <= k < 19 && !(8 <= k < 10) ==> output[k] == old(output[k])
  {
    hide Times;
    output[8] := Mul(in2[4], input[4]) + 2 * (Mul(in2[3], input[5]) + Mul(in2[5], input[3]) + Mul(in2[1], input[7]) +
      Mul(in2[7], input[1])) + Mul(in2[2], input[6]) + Mul(in2[6], input[2]) + Mul(in2[0], input[8]) +
      Mul(in2[8], input[0]);
    output[9] := Mul(in2[4], input[5]) + Mul(in2[5], input[4]) + Mul(in2[3], input[6]) + Mul(in2[6], input[3]) +
      Mul(in2[2], input[7]) + Mul(in2[7], input[2]) + Mul(in2[1], input[8]) + Mul(in2[8], input[1]) +
      Mul(in2[0], input[9]) + Mul(in2[9], input[0]);
  }

  method FProductPart4(output: array<limb>, in2: array<limb>, input: array<limb>)
    requires output.Length == 19 && in2.Length == input.Length == 10
    requires output != input && output != in2
    requires Within(in2[..], 10, TWO_TO_THE_27) && Within(input[..], 10, TWO_TO_THE_27)
    modifies output
    ensures ConvolutionIn(in2[..], input[..], output[..], 10, 12)
    ensures forall k :: 0 <= k < 19 && !(10 <= k < 12) ==> output[k] == old(output[k])
  {
    hide Times;
    output[10] := 2 * (Mul(in2[5], input[5]) + Mul(in2[3], input[7]) + Mul(in2[7], input[3]) + Mul(in2[1], input[9]) +
      Mul(in2[9], input[1])) + Mul(in2[4], input[6]) + Mul(in2[6], input[4]) + Mul(in2[2], input[8]) +
      Mul(in2[8], input[2]);
    output[11] := Mul(in2[5], input[6]) + Mul(in2[6], input[5]) + Mul(in2[4], input[7]) + Mul(in2[7], input[4]) +
      Mul(in2[3], input[8]) + Mul(in2[8], input[3]) + Mul(in2[2], input[9]) + Mul(in2[9], input[2]);
  }

  method FProductPart5(output: array<limb>, in2: array<limb>, input: array<limb>)
    requires output.Length == 19 && in2.Length == input.Length == 10
    requires output != input && output != in2
    requires Within(in2[..], 10, TWO_TO_THE_27) && Within(input[..], 10, TWO_TO_THE_27)
    modifies output
    ensures ConvolutionIn(in2[..], input[..], output[..], 12, 15)
    ensures forall k :: 0 <= k < 19 && !(12 <= k < 15) ==> output[k] == old(output[k])
  {
    hide Times;
    output[12] := Mul(in2[6], input[6]) + 2 * (Mul(in2[5], input[7]) + Mul(in2[7], input[5]) + Mul(in2[3], input[9]) +
      Mul(in2[9], input[3])) + Mul(in2[4], input[8]) + Mul(in2[8], input[4]);
    output[13] := Mul(in2[6], input[7]) + Mul(in2[7], input[6]) + Mul(in2[5], input[8]) + Mul(in2[8], input[5]) +
      Mul(in2[4], input[9]) + Mul(in2[9], input[4]);
    output[14] := 2 * (Mul(in2[7], input[7]) + Mul(in2[5], input[9]) + Mul(in2[9], input[5])) +
      Mul(in2[6], input[8]) + Mul(in2[8], input[6]);
  }

  method FProductPart6(output: array<limb>, in2: array<limb>, input: array<limb>)
    requires output.Length == 19 && in2.Length == input.Length == 10
    requires output != input && output != in2
    requires Within(in2[..], 10, TWO_TO_THE_27) && Within(input[..], 10, TWO_TO_THE_27)
    modifies output
    ensures ConvolutionIn(in2[..], input[..], output[..], 15, 19)
    ensures forall k :: 0 <= k < 19 && !(15 <= k < 19) ==> output[k] == old(output[k])
  {
    hide Times;
    output[15] := Mul(in2[7], input[8]) + Mul(in2[8], input[7]) + Mul(in2[6], input[9]) + Mul(in2[9], input[6]);
    output[16] := Mul(in2[8], input[8]) + 2 * (Mul(in2[7], input[9]) + Mul(in2[9], input[7]));
    output[17] := Mul(in2[8], input[9]) + Mul(in2[9], input[8]);
    output[18] := 2 * Mul(in2[9], input[9]);
  }

  method FProduct(output: array<limb>, in2: array<limb>, input: array<limb>)
    requires output.Length == 19 && in2.Length == input.Length == 10
    requires output != input && output != in2
    requires Within(in2[..], 10, TWO_TO_THE_27) && Within(input[..], 10, TWO_TO_THE_27)
    modifies output
    ensures LongValue(output[..]) == Value(in2[..]) * Value(input[..])
    ensures Within(output[..], 19, PRODUCT_BOUND)
  {
    hide Convolution;
    hide LongValue;
    hide Value;
    FProductPart0(output, in2, input);
    FProductPart1(output, in2, input);
    FProductPart2(output, in2, input);
    FProductPart3(output, in2, input);
    FProductPart4(output, in2, input);
    FProductPart5(output, in2, input);
    FProductPart6(output, in2, input);
    ConvolutionIsProduct(in2[..], input[..], output[..]);
  }

  method FSquareInnerPart0(output: array<limb>, input: array<limb>)
    requires output.Length == 19 && input.Length == 10
    requires output != input
    requires Within(input[..], 10, TWO_TO_THE_27)
    modifies output
    ensures ConvolutionIn(input[..], input[..], output[..], 0, 3)
    ensures forall k :: 0 <= k < 19 && !(0 <= k < 3) ==> output[k] == old(output[k])
  {
    TimesCommutes(input[..]);
    hide Times;
    output[0] := Mul(input[0], input[0]);
    output[1] := 2 * Mul(input[0], input[1]);
    output[2] := 2 * (Mul(input[1], input[1]) + Mul(input[0], input[2]));
  }

  method FSquareInnerPart1(output: array<limb>, input: array<limb>)
    requires output.Length == 19 && input.Length == 10
    requires output != input
    requires Within(input[..], 10, TWO_TO_THE_27)
    modifies output
    ensures ConvolutionIn(input[..], input[..], output[..], 3, 5)
    ensures forall k :: 0 <= k < 19 && !(3 <= k < 5) ==> output[k] == old(output[k])
  {
    TimesCommutes(input[..]);
    hide Times;
    output[3] := 2 * (Mul(input[1], input[2]) + Mul(input[0], input[3]));
    output[4] := Mul(input[2], input[2]) + 4 * Mul(input[1], input[3]) + 2 * Mul(input[0], input[4]);
  }

  method FSquareInnerPart2(output: array<limb>, input: array<limb>)
    requires output.Length == 19 && input.Length == 10
    requires output != input
    requires Within(input[..], 10, TWO_TO_THE_27)
    modifies output
    ensures ConvolutionIn(input[..], input[..], output[..], 5, 8)
    ensures forall k :: 0 <= k < 19 && !(5 <= k < 8) ==> output[k] == old(output[k])
  {
    TimesCommutes(input[..]);
    hide Times;
    output[5] := 2 * (Mul(input[2], input[3]) + Mul(input[1], input[4]) + Mul(input[0], input[5]));
    output[6] := 2 * (Mul(input[3], input[3]) + Mul(input[2], input[4]) + Mul(input[0], input[6]) +
      2 * Mul(input[1], input[5]));
    output[7] := 2 * (Mul(input[3], input[4]) + Mul(input[2], input[5]) + Mul(input[1], input[6]) +
      Mul(input[0], input[7]));
  }

  method FSquareInnerPart3(output: array<limb>, input: array<limb>)
    requires output.Length == 19 && input.Length == 10
    requires output != input
    requires Within(input[..], 10, TWO_TO_THE_27)
    modifies output
    ensures ConvolutionIn(input[..], input[..], output[..], 8, 10)
    ensures forall k :: 0 <= k < 19 && !(8 <= k < 10) ==> output[k] == old(output[k])
  {
    TimesCommutes(input[..]);
    hide Times;
    output[8] := Mul(input[4], input[4]) + 2 * (Mul(input[2], input[6]) + Mul(input[0], input[8]) +
      2 * (Mul(input[1], input[7]) + Mul(input[3], input[5])));
    output[9] := 2 * (Mul(input[4], input[5]) + Mul(input[3], input[6]) + Mul(input[2], input[7]) +
      Mul(input[1], input[8]) + Mul(input[0], input[9]));
  }

  method FSquareInnerPart4(output: array<limb>, input: array<limb>)
    requires output.Length == 19 && input.Length == 10
    requires output != input
    requires Within(input[..], 10, TWO_TO_THE_27)
    modifies output
    ensures ConvolutionIn(input[..], input[..], output[..], 10, 12)
    ensures forall k :: 0 <= k < 19 && !(10 <= k < 12) ==> output[k] == old(output[k])
  {
    TimesCommutes(input[..]);
    hide Times;
    output[10] := 2 * (Mul(input[5], input[5]) + Mul(input[4], input[6]) + Mul(input[2], input[8]) +
      2 * (Mul(input[3], input[7]) + Mul(input[1], input[9])));
    output[11] := 2 * (Mul(input[5], input[6]) + Mul(input[4], input[7]) + Mul(input[3], input[8]) +
      Mul(input[2], input[9]));
  }

  method FSquareInnerPart5(output: array<limb>, input: array<limb>)
    requires output.Length == 19 && input.Length == 10
    requires output != input
    requires Within(input[..], 10, TWO_TO_THE_27)
    modifies output
    ensures ConvolutionIn(input[..], input[..], output[..], 12, 15)
    ensures forall k :: 0 <= k < 19 && !(12 <= k < 15) ==> output[k] == old(output[k])
  {
    TimesCommutes(input[..]);
    hide Times;
    output[12] := Mul(input[6], input[6]) + 2 * (Mul(input[4], input[8]) + 2 * (Mul(input[5], input[7]) +
      Mul(input[3], input[9])));
    output[13] := 2 * (Mul(input[6], input[7]) + Mul(input[5], input[8]) + Mul(input[4], input[9]));
    output[14] := 2 * (Mul(input[7], input[7]) + Mul(input[6], input[8]) + 2 * Mul(input[5], input[9]));
  }

  method FSquareInnerPart6(output: array<limb>, input: array<limb>)
    requires output.Length == 19 && input.Length == 10
    requires output != input
    requires Within(input[..], 10, TWO_TO_THE_27)
    modifies output
    ensures ConvolutionIn(input[..], input[..], output[..], 15, 19)
    ensures forall k :: 0 <= k < 19 && !(15 <= k < 19) ==> output[k] == old(output[k])
  {
    TimesCommutes(input[..]);
    hide Times;
    output[15] := 2 * (Mul(input[7], input[8]) + Mul(input[6], input[9]));
    output[16] := Mul(input[8], input[8]) + 4 * Mul(input[7], input[9]);
    output[17] := 2 * Mul(input[8], input[9]);
    output[18] := 2 * Mul(input[9], input[9]);
  }

  method FSquareInner(output: array<limb>, input: array<limb>)
    requires output.Length == 19 && input.Length == 10
    requires output != input
    requires Within(input[..], 10, TWO_TO_THE_27)
    modifies output
    ensures LongValue(output[..]) == Value(input[..]) * Value(input[..])
    ensures Within(output[..], 19, PRODUCT_BOUND)
  {
    FSquareInnerPart0(output, input);
    FSquareInnerPart1(output, input);
    FSquareInnerPart2(output, input);
    FSquareInnerPart3(output, input);
    FSquareInnerPart4(output, input);
    FSquareInnerPart5(output, input);
    FSquareInnerPart6(output, input);
    ConvolutionIsProduct(input[..], input[..], output[..]);
  }

  // ----- reduction of the degree

  /** Coefficients on entry to the reduction of coefficients. */
  const REDUCED_DEGREE_BOUND: int := 280 * TWO_TO_THE_54

  /** output[i] += 19 * output[i + 10], by shifts and adds. */
  method AddNineteenTimes(output: array<limb>, i: nat)
    requires output.Length == 19 && i < 9
    requires -PRODUCT_BOUND < output[i] as int < PRODUCT_BOUND && -PRODUCT_BOUND < output[i + 10] as int < PRODUCT_BOUND
    modifies output
    ensures -REDUCED_DEGREE_BOUND <= output[i] as int <= REDUCED_DEGREE_BOUND
    ensures output[i] as int == old(output[i] as int) + 19 * old(output[i + 10] as int)
    ensures forall k :: 0 <= k < 19 && k != i ==> output[k] == old(output[k])
  {
    output[i] := output[i] + output[i + 10] * 16;
    output[i] := output[i] + output[i + 10] * 2;
    output[i] := output[i] + output[i + 10];
  }

  ghost predicate Folded(x: seq<limb>, y: seq<limb>, from: nat, to: nat)
    requires |x| == |y| == 19 && to <= 9
  {
    && (forall k :: from <= k < to ==>
         y[k] as int == x[k] as int + 19 * x[k + 10] as int && -REDUCED_DEGREE_BOUND <= y[k] as int <= REDUCED_DEGREE_BOUND)
    && (forall k :: 0 <= k < 19 && !(from <= k < to) ==> y[k] == x[k])
  }

  method FoldHigh(output: array<limb>)
    requires output.Length == 19 && Within(output[..], 19, PRODUCT_BOUND)
    modifies output
    ensures Folded(old(output[..]), output[..], 4, 9)
  {
    AddNineteenTimes(output, 8);
    AddNineteenTimes(output, 7);
    AddNineteenTimes(output, 6);
    AddNineteenTimes(output, 5);
    AddNineteenTimes(output, 4);
  }

  method FoldLow(output: array<limb>)
    requires output.Length == 19
    requires forall k :: 0 <= k < 4 || 10 <= k < 14 ==> -PRODUCT_BOUND < output[k] as int < PRODUCT_BOUND
    modifies output
    ensures Folded(old(output[..]), output[..], 0, 4)
  {
    AddNineteenTimes(output, 3);
    AddNineteenTimes(output, 2);
    AddNineteenTimes(output, 1);
    AddNineteenTimes(output, 0);
  }

  /** Folds the upper coefficients onto the lower ones: 2^255 is 19 modulo P. */
  method FReduceDegree(output: array<limb>)
    requires output.Length == 19 && Within(output[..], 19, PRODUCT_BOUND)
    modifies output
    ensures Congruent(LongValue(old(output[..])), Value(output[..]))
    ensures Within(output[..], 10, REDUCED_DEGREE_BOUND + 1)
  {
    FoldHigh(output);
    FoldLow(output);
    FoldedIsCongruent(old(output[..]), output[..]);
  }

  /** The value of the upper nine coefficients, ten places down. */
  function UpperValue(x: seq<limb>): int
    requires |x| == 19
  {
    Weight(0) * x[10] as int + Weight(1) * x[11] as int + Weight(2) * x[12] as int + Weight(3) * x[13] as int
    + Weight(4) * x[14] as int + Weight(5) * x[15] as int + Weight(6) * x[16] as int + Weight(7) * x[17] as int
    + Weight(8) * x[18] as int
  }

  lemma LongValueSplits(x: seq<limb>)
    requires |x| == 19
    ensures LongValue(x) == Value(x) + UpperValue(x) * (P + 19)
  {
    hide Value;
    WeightSteps(0);
    WeightSteps(1);
    WeightSteps(2);
    WeightSteps(3);
    WeightSteps(4);
    WeightSteps(5);
    WeightSteps(6);
    WeightSteps(7);
    WeightSteps(8);
    hide Weight;
    var m := P + 19;
    Rescale(Weight(0), m, x[10] as int);
    Rescale(Weight(1), m, x[11] as int);
    Rescale(Weight(2), m, x[12] as int);
    Rescale(Weight(3), m, x[13] as int);
    Rescale(Weight(4), m, x[14] as int);
    Rescale(Weight(5), m, x[15] as int);
    Rescale(Weight(6), m, x[16] as int);
    Rescale(Weight(7), m, x[17] as int);
    Rescale(Weight(8), m, x[18] as int);
  }

  lemma Rescale(w: int, m: int, x: int)
    ensures (w * m) * x == (w * x) * m
  {
  }

  lemma FoldedIsCongruent(x: seq<limb>, y: seq<limb>)
    requires |x| == |y| == 19
    requires forall k :: 0 <= k < 9 ==> y[k] as int == x[k] as int + 19 * x[k + 10] as int
    requires y[9] == x[9]
    ensures Congruent(LongValue(x), Value(y))
  {
    LongValueSplits(x);
    assert Value(y) == Value(x) + 19 * UpperValue(x) by {
      FoldedValue(x, y);
    }
    CongruentBy(LongValue(x), Value(y), UpperValue(x));
  }

  lemma FoldedValue(x: seq<limb>, y: seq<limb>)
    requires |x| == |y| == 19
    requires forall k :: 0 <= k < 9 ==> y[k] as int == x[k] as int + 19 * x[k + 10] as int
    requires y[9] == x[9]
    ensures Value(y) == Value(x) + 19 * UpperValue(x)
  {
    WeightZero();
    hide Weight;
    assert y[0] as int == x[0] as int + 19 * x[0 + 10] as int;
    Spread(Weight(1), x[1] as int, x[1 + 10] as int);
    Spread(Weight(2), x[2] as int, x[2 + 10] as int);
    Spread(Weight(3), x[3] as int, x[3 + 10] as int);
    Spread(Weight(4), x[4] as int, x[4 + 10] as int);
    Spread(Weight(5), x[5] as int, x[5 + 10] as int);
    Spread(Weight(6), x[6] as int, x[6 + 10] as int);
    Spread(Weight(7), x[7] as int, x[7 + 10] as int);
    Spread(Weight(8), x[8] as int, x[8 + 10] as int);
    assert y[8] as int == x[8] as int + 19 * x[8 + 10] as int;
  }

  lemma Spread(w: int, a: int, b: int)
    ensures w * (a + 19 * b) == w * a + 19 * (w * b)
  {
  }

  // ----- reduction of the coefficients

  /** The top bit of a number in two's complement is its sign. */
  lemma HighWordSign(v: int)
    requires -0x8000_0000_0000_0000 <= v < 0x8000_0000_0000_0000
    ensures 0 <= v % TWO_TO_THE_64 / TWO_TO_THE_32 < TWO_TO_THE_32
    ensures v % TWO_TO_THE_64 / TWO_TO_THE_32 >= TWO_TO_THE_31 <==> v < 0
  {
    assert v % TWO_TO_THE_64 == if v < 0 then v + TWO_TO_THE_64 else v;
  }

  function RoundOff(v: limb, shift: int): (r: limb)
    requires shift == 0x40 || shift == 0x80
    ensures v < 0 ==> r as int == TWO_TO_THE_32 / shift - 1
    ensures v >= 0 ==> r == 0
  {
    HighWordSign(v as int);
    var highword := (v as int % TWO_TO_THE_64) / TWO_TO_THE_32;           // (uint32_t) (((uint64_t) v) >> 32)
    var signed := if highword >= TWO_TO_THE_31 then highword - TWO_TO_THE_32 else highword;
    var sign := signed / TWO_TO_THE_31;                                   // an arithmetic shift by 31
    ((sign % TWO_TO_THE_32) / shift) as limb                              // ((uint32_t) sign) >> 6 or >> 7
  }

  /** v / 2^n rounded towards zero, for n = 26 and n = 25, by shifts and adds on the two halves of the word. */
  function DivByTwoTo26(v: limb): (q: limb)
    ensures -TWO_TO_THE_26 < v as int - q as int * TWO_TO_THE_26 < TWO_TO_THE_26
    ensures v >= 0 ==> 0 <= q as int * TWO_TO_THE_26 <= v as int
    ensures v <= 0 ==> v as int <= q as int * TWO_TO_THE_26 <= 0
  {
    ((v + RoundOff(v, 0x40)) as int / TWO_TO_THE_26) as limb
  }

  function DivByTwoTo25(v: limb): (q: limb)
    ensures -TWO_TO_THE_25 < v as int - q as int * TWO_TO_THE_25 < TWO_TO_THE_25
    ensures v >= 0 ==> 0 <= q as int * TWO_TO_THE_25 <= v as int
    ensures v <= 0 ==> v as int <= q as int * TWO_TO_THE_25 <= 0
  {
    ((v + RoundOff(v, 0x80)) as int / TWO_TO_THE_25) as limb
  }

  /** Bits of limb i. */
  function Radix(i: nat): int {
    if i % 2 == 0 then TWO_TO_THE_26 else TWO_TO_THE_25
  }

  /** The value of the first eleven coefficients. */
  function ElevenValue(x: seq<limb>): int
    requires |x| == 19
  {
    Value(x) + Weight(10) * x[10] as int
  }

  lemma CarryIsSmall(v: int, q: int, radix: int)
    requires radix == TWO_TO_THE_26 || radix == TWO_TO_THE_25
    requires -REDUCED_DEGREE_BOUND - TWO_TO_THE_54 < v < REDUCED_DEGREE_BOUND + TWO_TO_THE_54
    requires v >= 0 ==> 0 <= q * radix <= v
    requires v <= 0 ==> v <= q * radix <= 0
    ensures -281 * 0x2000_0000 < q < 281 * 0x2000_0000
  {
    if radix == TWO_TO_THE_26 {
    }
  }

  /** Moves what limb i cannot hold to limb i+1. */
  method CarryFrom(output: array<limb>, i: nat)
    requires output.Length == 19 && i < 10
    requires -REDUCED_DEGREE_BOUND - TWO_TO_THE_54 < output[i] as int < REDUCED_DEGREE_BOUND + TWO_TO_THE_54
    requires -REDUCED_DEGREE_BOUND - 1 < output[i + 1] as int < REDUCED_DEGREE_BOUND + 1
    modifies output
    ensures forall k :: 0 <= k < 19 && k != i && k != i + 1 ==> output[k] == old(output[k])
    ensures -Radix(i) < output[i] as int < Radix(i)
    ensures ElevenValue(output[..]) == ElevenValue(old(output[..]))
    ensures -281 * 0x2000_0000 < output[i + 1] as int - old(output[i + 1]) as int < 281 * 0x2000_0000
    ensures old(output[i]) as int == output[i] as int + Radix(i) * (output[i + 1] as int - old(output[i + 1]) as int)
  {
    hide ElevenValue;
    hide DivByTwoTo26;
    hide DivByTwoTo25;
    ghost var before := output[..];
    var over;
    if i % 2 == 0 {
      over := DivByTwoTo26(output[i]);
      CarryIsSmall(output[i] as int, over as int, TWO_TO_THE_26);
      output[i] := output[i] - over * 0x400_0000;
    } else {
      over := DivByTwoTo25(output[i]);
      CarryIsSmall(output[i] as int, over as int, TWO_TO_THE_25);
      output[i] := output[i] - over * 0x200_0000;
    }
    output[i + 1] := output[i + 1] + over;
    CarryKeepsValue(before, output[..], i, over as int);
  }

  lemma CarryKeepsValue(x: seq<limb>, y: seq<limb>, i: nat, over: int)
    requires |x| == |y| == 19 && i < 10
    requires forall k :: 0 <= k < 19 && k != i && k != i + 1 ==> y[k] == x[k]
    requires y[i] as int == x[i] as int - over * Radix(i) && y[i + 1] as int == x[i + 1] as int + over
    ensures ElevenValue(y) == ElevenValue(x)
  {
    ElevenParts(x);
    ElevenParts(y);
    PartMoves(x[i] as int, y[i] as int, x[i + 1] as int, y[i + 1] as int, i, over);
    hide ElevenValue;
    hide Radix;
    hide Part;
    assert forall k :: 0 <= k < 19 && k != i && k != i + 1 ==> Part(y[k] as int, k) == Part(x[k] as int, k);
    if i == 0 {
    } else if i == 1 {
    } else if i == 2 {
    } else if i == 3 {
    } else if i == 4 {
    } else if i == 5 {
    } else if i == 6 {
    } else if i == 7 {
    } else if i == 8 {
    } else {
    }
  }

  /** What a limb is worth in its place. */
  function Part(v: int, k: nat): int
    requires k < 19
  {
    Weight(k) * v
  }

  lemma ElevenParts(x: seq<limb>)
    requires |x| == 19
    ensures ElevenValue(x) == Part(x[0] as int, 0) + Part(x[1] as int, 1) + Part(x[2] as int, 2) + Part(x[3] as int, 3)
         + Part(x[4] as int, 4) + Part(x[5] as int, 5) + Part(x[6] as int, 6) + Part(x[7] as int, 7) + Part(x[8] as int, 8)
         + Part(x[9] as int, 9) + Part(x[10] as int, 10)
  {
    WeightZero();
    hide Weight;
  }

  /** Moving `over` from limb i to the next one moves no value. */
  lemma PartMoves(a: int, a': int, b: int, b': int, i: nat, over: int)
    requires i < 18 && a' == a - over * Radix(i) && b' == b + over
    ensures Part(a', i) + Part(b', i + 1) == Part(a, i) + Part(b, i + 1)
  {
    WeightSteps(i);
    var w, r := Weight(i), Radix(i);
    assert Weight(i + 1) == w * r;
    hide Weight;
    hide Radix;
    MovesOver(w, r, a, b, over);
  }

  lemma MovesOver(w: int, r: int, a: int, b: int, over: int)
    ensures w * (a - over * r) + (w * r) * (b + over) == w * a + (w * r) * b
  {
    assert w * (over * r) == (w * r) * over;
  }

  /** All limbs back below 26 bits, the value unchanged modulo P. */
  method FReduceCoefficients(output: array<limb>)
    requires output.Length == 19 && Within(output[..], 10, REDUCED_DEGREE_BOUND + 1)
    modifies output
    ensures Congruent(Value(output[..]), Value(old(output[..])))
    ensures Within(output[..], 10, TWO_TO_THE_26)
  {
    hide Value;
    hide ElevenValue;
    hide Congruent;
    output[10] := 0;
    ghost var start := output[..];
    SameValue(old(output[..]), start);
    var i := 0;
    while i < 10
      invariant 0 <= i <= 10 && i % 2 == 0
      invariant ElevenValue(output[..]) == ElevenValue(start)
      invariant forall k :: 0 <= k < i ==> -Radix(k) < output[k] as int < Radix(k)
      invariant i > 0 ==> -281 * 0x2000_0000 < output[i] as int - start[i] as int < 281 * 0x2000_0000
      invariant i == 0 ==> output[0] == start[0]
      invariant forall k :: i < k < 19 ==> output[k] == start[k]
    {
      CarryFrom(output, i);
      CarryFrom(output, i + 1);
      i := i + 2;
    }
    ghost var carried := output[..];
    LastCarry(output);
    CongruentTrans(Value(output[..]), ElevenValue(carried), ElevenValue(carried));
  }

  /** The carry out of the top limb goes round to the bottom one, and one more carry settles it. */
  method LastCarry(output: array<limb>)
    requires output.Length == 19 && -281 * 0x2000_0000 < output[10] as int < 281 * 0x2000_0000
    requires forall k :: 0 <= k < 10 ==> -Radix(k) < output[k] as int < Radix(k)
    modifies output
    ensures Congruent(Value(output[..]), ElevenValue(old(output[..])))
    ensures Within(output[..], 10, TWO_TO_THE_26)
  {
    hide Value;
    hide ElevenValue;
    hide Congruent;
    hide DivByTwoTo26;
    ghost var carried := output[..];
    assert Radix(0) == TWO_TO_THE_26 && Radix(1) == TWO_TO_THE_25;
    output[0] := output[0] + output[10] * 16;
    output[0] := output[0] + output[10] * 2;
    output[0] := output[0] + output[10];
    output[10] := 0;
    ghost var wrapped := output[..];
    Wrapped(carried, wrapped);
    var over := DivByTwoTo26(output[0]);
    output[0] := output[0] - over * 0x400_0000;
    assert -0x1_0000 < over as int < 0x1_0000;
    output[1] := output[1] + over;
    CarryKeepsValue(wrapped, output[..], 0, over as int);
    NoTop(wrapped);
    NoTop(output[..]);
  }

  lemma NoTop(x: seq<limb>)
    requires |x| == 19 && x[10] == 0
    ensures ElevenValue(x) == Value(x)
  {
  }

  lemma SameValue(x: seq<limb>, y: seq<limb>)
    requires |x| == |y| == 19 && y == x[10 := 0]
    ensures Value(y) == Value(x) == ElevenValue(y)
  {
  }

  /** The carry out of the top limb comes back multiplied by 19. */
  lemma Wrapped(x: seq<limb>, y: seq<limb>)
    requires |x| == |y| == 19
    requires y[0] as int == x[0] as int + 19 * x[10] as int && forall k :: 1 <= k < 10 ==> y[k] == x[k]
    ensures Congruent(Value(y), ElevenValue(x))
  {
    WeightSteps(0);
    WeightZero();
    hide Weight;
    assert Value(y) == Value(x) + 19 * x[10] as int;
    assert Weight(10) * x[10] as int == x[10] as int * (P + 19);
    CongruentBy(Value(y), ElevenValue(x), -(x[10] as int));
  }

  // ----- the two products

  method CopyTen(output: array<limb>, t: array<limb>)
    requires output.Length == 10 && t.Length == 19 && output != t
    modifies output
    ensures output[..] == t[..10]
  {
    for i := 0 to 10
      invariant output[..i] == t[..i]
    {
      output[i] := t[i];
    }
  }

  /** The product modulo P; limbs up to 27 bits in, limbs up to 26 bits out. */
  method FMul(output: array<limb>, input: array<limb>, in2: array<limb>)
    requires output.Length == input.Length == in2.Length == 10 && output != input && output != in2
    requires Within(input[..], 10, TWO_TO_THE_27) && Within(in2[..], 10, TWO_TO_THE_27)
    modifies output
    ensures Congruent(Value(output[..]), Value(input[..]) * Value(in2[..]))
    ensures Within(output[..], 10, TWO_TO_THE_26)
  {
    var t := new limb[19];
    FProduct(t, input, in2);
    Finish(output, t, Value(input[..]) * Value(in2[..]));
  }

  method FSquare(output: array<limb>, input: array<limb>)
    requires output.Length == input.Length == 10 && output != input
    requires Within(input[..], 10, TWO_TO_THE_27)
    modifies output
    ensures Congruent(Value(output[..]), Value(input[..]) * Value(input[..]))
    ensures Within(output[..], 10, TWO_TO_THE_26)
  {
    var t := new limb[19];
    FSquareInner(t, input);
    Finish(output, t, Value(input[..]) * Value(input[..]));
  }

  /** Reducing a long product and copying out its ten limbs. */
  method Finish(output: array<limb>, t: array<limb>, ghost product: int)
    requires output.Length == 10 && t.Length == 19 && output != t
    requires LongValue(t[..]) == product && Within(t[..], 19, PRODUCT_BOUND)
    modifies output, t
    ensures Congruent(Value(output[..]), product)
    ensures Within(output[..], 10, TWO_TO_THE_26)
  {
    FReduceDegree(t);
    ghost var folded := t[..];
    FReduceCoefficients(t);
    CopyTen(output, t);
    FirstTen(t[..]);
    CongruentTrans(product, Value(folded), Value(folded));
    CongruentTrans(Value(t[..]), Value(folded), product);
  }

  lemma FirstTen(x: seq<limb>)
    requires |x| == 19
    ensures Value(x[..10]) == Value(x)
  {
  }
}
