/** Fixed-width unsigned integers, written as bounded integers with explicit wrap-around. */
module Words {
  const TWO_TO_THE_31: nat := 0x8000_0000
  const TWO_TO_THE_32: nat := 0x1_0000_0000
  const TWO_TO_THE_64: nat := 0x1_0000_0000_0000_0000

  type byte = b: int | 0 <= b < 0x100
  type uint32 = w: int | 0 <= w < 0x1_0000_0000

  /** The value a uint32_t expression takes when the mathematical result is x. */
  function Wrap32(x: int): uint32 {
    x % TWO_TO_THE_32
  }

  /** Two to the power of n. */
  function TwoTo(n: nat): (r: nat)
    ensures r > 0
  {
    if n == 0 then 1 else 2 * TwoTo(n - 1)
  }

  lemma {:induction false} TwoToAdd(a: nat, b: nat)
    ensures TwoTo(a + b) == TwoTo(a) * TwoTo(b)
  {
    if a > 0 {
      TwoToAdd(a - 1, b);
      var x, y := TwoTo(a - 1), TwoTo(b);
      assert TwoTo(a) == 2 * x && TwoTo(a + b) == 2 * TwoTo(a - 1 + b);
      hide TwoTo;
      MulThree(2, y, x);
    }
  }

  /** Dividing twice is dividing by the product. */
  lemma DivTwice(v: nat, a: nat, b: nat)
    requires a > 0 && b > 0
    ensures a * b > 0 && v / a / b == v / (a * b)
  {
    var x := v / a;
    var q, r := x / b, x % b;
    Regrouped(v, a, b, x, q, r, v % a);
    DivModUnique(v, a * b, q, r * a + v % a);
  }

  lemma Regrouped(v: nat, a: nat, b: nat, x: nat, q: nat, r: nat, s: nat)
    requires v == x * a + s && x == q * b + r && s < a && r < b
    ensures v == q * (a * b) + (r * a + s) && r * a + s < a * b
  {
    MulAdd(q * b, r, a);
    MulThree(q, a, b);
    MulAdd(r, 1, a);
    MulAtMost(r + 1, b, a);
  }

  lemma MulAdd(x: nat, y: nat, a: nat)
    ensures (x + y) * a == x * a + y * a
  {
  }

  lemma MulThree(q: nat, a: nat, b: nat)
    ensures (q * b) * a == q * (a * b)
  {
  }

  lemma MulAtMost(x: nat, y: nat, a: nat)
    requires x <= y
    ensures x * a <= y * a == a * y
  {
  }

  lemma Wrap32Add(a: int, b: int)
    ensures Wrap32(Wrap32(a) + b) == Wrap32(a + b)
  {
  }

  /** Quotient and remainder are unique. */
  lemma DivModUnique(x: int, m: int, q: int, r: int)
    requires m > 0 && 0 <= r < m
    requires x == q * m + r
    ensures x / m == q && x % m == r
  {
    var k := x / m - q;
    assert x == (x / m) * m + x % m;
    assert k * m == r - x % m by {
      assert k * m == (x / m) * m - q * m;
    }
    assert k >= 1 ==> k * m >= m;
    assert k <= -1 ==> k * m <= -m;
  }

  /** Big-endian bytes of a 32-bit number. */
  function BigEndian32(w: uint32): (s: seq<byte>) {
    [w / 0x100_0000, w / 0x1_0000 % 0x100, w / 0x100 % 0x100, w % 0x100]
  }

  function FromBigEndian32(s: seq<byte>): uint32
    requires |s| == 4
  {
    s[0] as int * 0x100_0000 + s[1] as int * 0x1_0000 + s[2] as int * 0x100 + s[3]
  }

  lemma BigEndian32RoundTrip(w: uint32)
    ensures |BigEndian32(w)| == 4
    ensures FromBigEndian32(BigEndian32(w)) == w
  {
    assert w / 0x100_0000 * 0x100 + w / 0x1_0000 % 0x100 == w / 0x1_0000;
    assert w / 0x1_0000 * 0x100 + w / 0x100 % 0x100 == w / 0x100;
  }

  /** Four bytes are determined by their number. */
  lemma FromBigEndian32Injective(a: seq<byte>, b: seq<byte>)
    requires |a| == 4 && |b| == 4 && FromBigEndian32(a) == FromBigEndian32(b)
    ensures a == b
  {
    assert a[0] == b[0] && a[1] == b[1] && a[2] == b[2] && a[3] == b[3];
  }

  /** The number after i rounds of shifting its top byte out. */
  function ShiftedOut(w: uint32, i: nat): uint32 {
    if i == 0 then w else if i == 1 then w % 0x100_0000 * 0x100 else if i == 2 then w % 0x1_0000 * 0x1_0000
    else if i == 3 then w % 0x100 * 0x100_0000 else 0
  }

  lemma TopByte(w: uint32, i: nat)
    requires i < 4
    ensures |BigEndian32(w)| == 4 && ShiftedOut(w, i) / 0x100_0000 == BigEndian32(w)[i]
    ensures ShiftedOut(w, i + 1) == ShiftedOut(w, i) * 0x100 % TWO_TO_THE_32
  {
    FourBytes(w);
    var b := BigEndian32(w);
    if i == 0 {
      ShiftOnce(w, b[0], w % 0x100_0000);
    } else if i == 1 {
      ShiftOnce(ShiftedOut(w, 1), b[1], w % 0x1_0000 * 0x100);
    } else if i == 2 {
      ShiftOnce(ShiftedOut(w, 2), b[2], w % 0x100 * 0x1_0000);
    } else {
      ShiftOnce(ShiftedOut(w, 3), b[3], 0);
    }
  }

  lemma FourBytes(w: uint32)
    ensures |BigEndian32(w)| == 4
    ensures w == BigEndian32(w)[0] as int * 0x100_0000 + w % 0x100_0000
    ensures w % 0x100_0000 == BigEndian32(w)[1] as int * 0x1_0000 + w % 0x1_0000
    ensures w % 0x1_0000 == BigEndian32(w)[2] as int * 0x100 + w % 0x100
    ensures w % 0x100 == BigEndian32(w)[3]
  {
    assert w / 0x1_0000 == w / 0x100_0000 * 0x100 + w / 0x1_0000 % 0x100;
    assert w / 0x100 == w / 0x1_0000 * 0x100 + w / 0x100 % 0x100;
  }

  lemma ShiftOnce(v: uint32, top: byte, rest: nat)
    requires v == top as int * 0x100_0000 + rest && rest < 0x100_0000
    ensures v / 0x100_0000 == top && v * 0x100 % TWO_TO_THE_32 == rest * 0x100
  {
    DivModUnique(v, 0x100_0000, top, rest);
    DivModUnique(v * 0x100, TWO_TO_THE_32, top, rest * 0x100);
  }

  /** Writes the top byte and shifts it out, four times. */
  method PutBigEndian32(mem: array<byte>, pos: nat, w: uint32)
    requires pos + 4 <= mem.Length
    modifies mem
    ensures mem[..] == Overwritten(old(mem[..]), pos, BigEndian32(w))
  {
    hide ShiftedOut;
    hide BigEndian32;
    var v := w;
    assert v == ShiftedOut(w, 0) by {
      FirstShift(w);
    }
    TopByte(w, 0);
    for i := 0 to 4
      invariant v == ShiftedOut(w, i)
      invariant forall k :: 0 <= k < i ==> mem[pos + k] == BigEndian32(w)[k]
      invariant forall k :: 0 <= k < mem.Length && !(pos <= k < pos + i) ==> mem[k] == old(mem[k])
    {
      TopByte(w, i);
      mem[pos + i] := v / 0x100_0000;
      v := v * 0x100 % TWO_TO_THE_32;
    }
    assert mem[pos..pos + 4] == BigEndian32(w);
    assert mem[..] == mem[..pos] + mem[pos..pos + 4] + mem[pos + 4..];
  }

  lemma FirstShift(w: uint32)
    ensures ShiftedOut(w, 0) == w
  {
  }

  /** Shifts four bytes in, the most significant first. */
  method GetBigEndian32(s: seq<byte>) returns (w: uint32)
    requires |s| == 4
    ensures w == FromBigEndian32(s)
  {
    w := 0;
    for i := 0 to 4
      invariant i == 0 ==> w == 0
      invariant i == 1 ==> w == s[0]
      invariant i == 2 ==> w == s[0] as int * 0x100 + s[1]
      invariant i == 3 ==> w == s[0] as int * 0x1_0000 + s[1] as int * 0x100 + s[2]
      invariant i == 4 ==> w == FromBigEndian32(s)
      invariant i < 4 ==> w < 0x100_0000
    {
      w := w * 0x100 + s[i] as int;
    }
  }

  datatype Option<+T> = None | Some(value: T)

  // ----- stretches of a sequence

  lemma SliceOfSlice<T>(s: seq<T>, start: nat, end: nat, a: nat, b: nat)
    requires start <= end <= |s| && a <= b <= end - start
    ensures s[start..end][a..b] == s[start + a..start + b]
  {
    var x, y := s[start..end][a..b], s[start + a..start + b];
    assert |x| == |y|;
    forall k | 0 <= k < |x|
      ensures x[k] == y[k]
    {
      assert x[k] == s[start..end][a + k];
    }
  }

  /** A sequence with `w` written over it from `pos` on. */
  function Overwritten<T>(s: seq<T>, pos: nat, w: seq<T>): (r: seq<T>)
    requires pos + |w| <= |s|
    ensures |r| == |s|
  {
    s[..pos] + w + s[pos + |w|..]
  }

  /** `now` is `was` with the bytes written at pos, which they fit. */
  ghost predicate Wrote(was: seq<byte>, now: seq<byte>, pos: nat, bytes: seq<byte>) {
    pos + |bytes| <= |was| && now == Overwritten(was, pos, bytes)
  }

  /** Writing the part that completes a whole writes the whole. */
  lemma WroteWhole(before: seq<byte>, was: seq<byte>, now: seq<byte>, part: nat, w: seq<byte>, pos: nat, whole: seq<byte>)
    requires Wrote(was, now, part, w) && pos + |whole| <= |before|
    requires part + |w| <= |was| && Overwritten(was, part, w) == Overwritten(before, pos, whole)
    ensures Wrote(before, now, pos, whole)
  {
    hide Overwritten;
  }

  lemma OverwrittenAt<T>(s: seq<T>, pos: nat, w: seq<T>)
    requires pos + |w| <= |s|
    ensures Overwritten(s, pos, w)[pos..pos + |w|] == w
  {
  }

  lemma OverwrittenElsewhere<T>(s: seq<T>, pos: nat, w: seq<T>, a: nat, b: nat)
    requires pos + |w| <= |s| && a <= b <= |s|
    requires b <= pos || pos + |w| <= a
    ensures Overwritten(s, pos, w)[a..b] == s[a..b]
  {
  }

  lemma OverwrittenTwice<T>(s: seq<T>, pos: nat, v: seq<T>, w: seq<T>)
    requires pos + |v| + |w| <= |s|
    ensures Overwritten(Overwritten(s, pos, v), pos + |v|, w) == Overwritten(s, pos, v + w)
  {
    var t := Overwritten(s, pos, v);
    assert t[..pos + |v|] == s[..pos] + v;
    assert t[pos + |v| + |w|..] == s[pos + |v| + |w|..];
  }

  lemma OverwrittenNothing<T>(s: seq<T>, pos: nat)
    requires pos <= |s|
    ensures Overwritten(s, pos, []) == s
  {
  }

  lemma OverwrittenAll<T>(s: seq<T>, w: seq<T>)
    requires |w| == |s|
    ensures Overwritten(s, 0, w) == w && s[0..|s|] == s
  {
  }

  lemma OverwrittenAgain<T>(s: seq<T>, pos: nat, v: seq<T>, w: seq<T>)
    requires |v| == |w| && pos + |v| <= |s|
    ensures Overwritten(Overwritten(s, pos, v), pos, w) == Overwritten(s, pos, w)
  {
  }

  /** Writing over a stretch forgets what was written inside it. */
  lemma OverwrittenWithin<T>(s: seq<T>, pos: nat, inner: nat, v: seq<T>, w: seq<T>)
    requires pos <= inner && inner + |v| <= pos + |w| <= |s|
    ensures Overwritten(Overwritten(s, inner, v), pos, w) == Overwritten(s, pos, w)
  {
    var t := Overwritten(s, inner, v);
    assert t[..pos] == s[..pos] && t[pos + |w|..] == s[pos + |w|..];
  }

  lemma OverwrittenPart<T>(s: seq<T>, pos: nat, w: seq<T>, n: nat)
    requires n <= |w| && pos + |w| <= |s|
    ensures Overwritten(s, pos, w)[pos..pos + n] == w[..n]
  {
    OverwrittenAt(s, pos, w);
    SliceOfSlice(Overwritten(s, pos, w), pos, pos + |w|, 0, n);
  }

  /** Bytes that hold w at pos and are otherwise as before are the old ones overwritten. */
  lemma IsOverwritten<T>(was: seq<T>, s: seq<T>, pos: nat, w: seq<T>)
    requires |s| == |was| && pos + |w| <= |s|
    requires s[0..pos] == was[0..pos] && s[pos..pos + |w|] == w && s[pos + |w|..|s|] == was[pos + |w|..|s|]
    ensures s == Overwritten(was, pos, w)
  {
    assert s == s[0..pos] + s[pos..pos + |w|] + s[pos + |w|..|s|];
  }

  /** What lies before or after a stretch that was written is as it was. */
  lemma StretchKept<T>(before: seq<T>, s1: seq<T>, base: nat, end: nat, a: nat, b: nat)
    requires |s1| == |before| && base <= end <= |s1| && a <= b <= |s1| && (b <= base || end <= a)
    requires s1[0..base] == before[0..base] && s1[end..|s1|] == before[end..|s1|]
    ensures s1[a..b] == before[a..b]
  {
    if b <= base {
      SliceOfSlice(s1, 0, base, a, b);
      SliceOfSlice(before, 0, base, a, b);
    } else {
      SliceOfSlice(s1, end, |s1|, a - end, b - end);
      SliceOfSlice(before, end, |s1|, a - end, b - end);
    }
  }

  lemma OverwrittenOne<T>(s: seq<T>, pos: nat, x: T)
    requires pos < |s|
    ensures Overwritten(s, pos, [x]) == s[pos := x]
  {
  }

  lemma Cut<T>(s: seq<T>, a: nat, b: nat, c: nat)
    requires a <= b <= c <= |s|
    ensures s[a..c] == s[a..b] + s[b..c]
  {
  }

  /** memcpy. */
  method PutBytes(mem: array<byte>, pos: nat, bytes: seq<byte>)
    requires pos + |bytes| <= mem.Length
    modifies mem
    ensures mem[..] == Overwritten(old(mem[..]), pos, bytes)
  {
    for i := 0 to |bytes|
      invariant forall k :: 0 <= k < i ==> mem[pos + k] == bytes[k]
      invariant forall k :: 0 <= k < mem.Length && !(pos <= k < pos + i) ==> mem[k] == old(mem[k])
    {
      mem[pos + i] := bytes[i];
    }
    assert mem[pos..pos + |bytes|] == bytes;
    assert mem[..] == mem[..pos] + mem[pos..pos + |bytes|] + mem[pos + |bytes|..];
  }
}
