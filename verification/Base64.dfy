/** Unpadded base64 (src/base64.cpp), input and output lying in one memory and possibly overlapping. */
module Base64 {
  import opened Words

  // ----- the alphabet

  function EncodeDigit(v: int): (c: byte)
    requires 0 <= v < 64
  {
    if v < 26 then 0x41 + v else if v < 52 then 0x61 + (v - 26) else if v < 62 then 0x30 + (v - 52)
    else if v == 62 then 0x2B else 0x2F
  }

  predicate IsDigit(c: byte) {
    0x41 <= c <= 0x5A || 0x61 <= c <= 0x7A || 0x30 <= c <= 0x39 || c == 0x2B || c == 0x2F
  }

  /** What the table holds for the low seven bits of any byte: the digit, or all ones. */
  function DecodeDigit(c: byte): (v: int)
    ensures IsDigit(c) ==> 0 <= v < 64
    ensures 0 <= v < 64 || v == 0xFF
  {
    var d := c % 0x80;
    if 0x41 <= d <= 0x5A then d - 0x41 else if 0x61 <= d <= 0x7A then d - 0x61 + 26
    else if 0x30 <= d <= 0x39 then d - 0x30 + 52 else if d == 0x2B then 62 else if d == 0x2F then 63 else 0xFF
  }

  /** A value shifted by six bits, and what the table holds or-ed in: all ones also overwrite the two lowest bits of the value. */
  function Joined(v: nat, digit: int): (r: nat)
    requires 0 <= digit < 64 || digit == 0xFF
  {
    if digit < 64 then v * 64 + digit else v / 4 * 0x100 + 0xFF
  }

  lemma JoinedIsOr(v: bv32, digit: bv32)
    requires v < 0x400_0000 && (digit < 64 || digit == 0xFF)
    ensures (v << 6) | digit == if digit < 64 then (v << 6) + digit else ((v >> 2) << 8) + 0xFF
  {
  }

  /** The 64 characters in order: A to Z, a to z, 0 to 9, + and /. */
  const ALPHABET: seq<byte> := [
    0x41, 0x42, 0x43, 0x44, 0x45, 0x46, 0x47, 0x48, 0x49, 0x4A, 0x4B, 0x4C, 0x4D, 0x4E, 0x4F, 0x50,
    0x51, 0x52, 0x53, 0x54, 0x55, 0x56, 0x57, 0x58, 0x59, 0x5A, 0x61, 0x62, 0x63, 0x64, 0x65, 0x66,
    0x67, 0x68, 0x69, 0x6A, 0x6B, 0x6C, 0x6D, 0x6E, 0x6F, 0x70, 0x71, 0x72, 0x73, 0x74, 0x75, 0x76,
    0x77, 0x78, 0x79, 0x7A, 0x30, 0x31, 0x32, 0x33, 0x34, 0x35, 0x36, 0x37, 0x38, 0x39, 0x2B, 0x2F]

  lemma AlphabetIs()
    ensures ALPHABET == [
      EncodeDigit(0), EncodeDigit(1), EncodeDigit(2), EncodeDigit(3), EncodeDigit(4), EncodeDigit(5), EncodeDigit(6), EncodeDigit(7),
      EncodeDigit(8), EncodeDigit(9), EncodeDigit(10), EncodeDigit(11), EncodeDigit(12), EncodeDigit(13), EncodeDigit(14), EncodeDigit(15),
      EncodeDigit(16), EncodeDigit(17), EncodeDigit(18), EncodeDigit(19), EncodeDigit(20), EncodeDigit(21), EncodeDigit(22), EncodeDigit(23),
      EncodeDigit(24), EncodeDigit(25), EncodeDigit(26), EncodeDigit(27), EncodeDigit(28), EncodeDigit(29), EncodeDigit(30), EncodeDigit(31),
      EncodeDigit(32), EncodeDigit(33), EncodeDigit(34), EncodeDigit(35), EncodeDigit(36), EncodeDigit(37), EncodeDigit(38), EncodeDigit(39),
      EncodeDigit(40), EncodeDigit(41), EncodeDigit(42), EncodeDigit(43), EncodeDigit(44), EncodeDigit(45), EncodeDigit(46), EncodeDigit(47),
      EncodeDigit(48), EncodeDigit(49), EncodeDigit(50), EncodeDigit(51), EncodeDigit(52), EncodeDigit(53), EncodeDigit(54), EncodeDigit(55),
      EncodeDigit(56), EncodeDigit(57), EncodeDigit(58), EncodeDigit(59), EncodeDigit(60), EncodeDigit(61), EncodeDigit(62), EncodeDigit(63)]
  {
  }

  /** A byte is read as the digit of its low seven bits, and as all ones if these are no character of the alphabet. */
  lemma DecodeDigitIs(c: byte, v: int)
    requires 0 <= v < 64
    ensures DecodeDigit(c) == v <==> EncodeDigit(v) == c % 0x80
    ensures IsDigit(c) <==> c < 0x80 && DecodeDigit(c) != 0xFF
  {
  }

  /** Below a digit lie the bits shifted up; all ones fill the low byte whatever was there. */
  lemma JoinedIs(v: nat, digit: int)
    requires 0 <= digit < 64 || digit == 0xFF
    ensures digit < 64 ==> Joined(v, digit) % 64 == digit && Joined(v, digit) / 64 == v
    ensures digit == 0xFF ==> Joined(v, digit) % 0x100 == 0xFF && Joined(v, digit) / 0x100 == v * 64 / 0x100
  {
  }

  lemma DigitRoundTrip(v: int)
    requires 0 <= v < 64
    ensures IsDigit(EncodeDigit(v)) && DecodeDigit(EncodeDigit(v)) == v
  {
  }

  // ----- the standard, group by group

  function EncodedLength(n: nat): int {
    4 * ((n + 2) / 3) + (n + 2) % 3 - 2
  }

  /** None stands for the length that no encoding has. */
  function DecodedLength(n: nat): Option<int> {
    if n % 4 == 1 then None else Some(3 * ((n + 2) / 4) + (n + 2) % 4 - 2)
  }

  function EncodedGroup(a: byte, b: byte, c: byte): seq<byte> {
    var value := a as int * 0x1_0000 + b as int * 0x100 + c as int;
    [EncodeDigit(value / 0x4_0000), EncodeDigit(value / 0x1000 % 64), EncodeDigit(value / 64 % 64), EncodeDigit(value % 64)]
  }

  /** Sixteen or eight bits, filled up with zero bits to whole digits. */
  function EncodedTail(s: seq<byte>): (r: seq<byte>)
    requires |s| < 3
  {
    if |s| == 2 then
      var value := (s[0] as int * 0x100 + s[1] as int) * 4;
      [EncodeDigit(value / 0x1000), EncodeDigit(value / 64 % 64), EncodeDigit(value % 64)]
    else if |s| == 1 then
      var value := s[0] as int * 16;
      [EncodeDigit(value / 64), EncodeDigit(value % 64)]
    else []
  }

  function Encoded(s: seq<byte>): (r: seq<byte>)
    ensures |r| == EncodedLength(|s|)
  {
    if |s| < 3 then EncodedTail(s) else EncodedGroup(s[0], s[1], s[2]) + Encoded(s[3..])
  }

  predicate IsText(s: seq<byte>) {
    forall k :: 0 <= k < |s| ==> IsDigit(s[k])
  }

  function DecodedGroup(a: byte, b: byte, c: byte, d: byte): seq<byte> {
    var value := Joined(Joined(Joined(DecodeDigit(a), DecodeDigit(b)), DecodeDigit(c)), DecodeDigit(d));
    [value / 0x1_0000 % 0x100, value / 0x100 % 0x100, value % 0x100]
  }

  function DecodedTail(s: seq<byte>): seq<byte>
    requires |s| < 4 && |s| != 1
  {
    if |s| == 3 then
      var value := Joined(Joined(DecodeDigit(s[0]), DecodeDigit(s[1])), DecodeDigit(s[2])) / 4;
      [value / 0x100 % 0x100, value % 0x100]
    else if |s| == 2 then
      [Joined(DecodeDigit(s[0]), DecodeDigit(s[1])) / 16 % 0x100]
    else []
  }

  /** Any bytes are decoded, those outside the alphabet included. */
  function Decoded(s: seq<byte>): (r: seq<byte>)
    requires |s| % 4 != 1
    ensures Some(|r|) == DecodedLength(|s|)
  {
    if |s| < 4 then DecodedTail(s) else DecodedGroup(s[0], s[1], s[2], s[3]) + Decoded(s[4..])
  }

  lemma FourDigits(v: int)
    requires 0 <= v < 0x100_0000
    ensures v / 0x4_0000 < 64
    ensures ((v / 0x4_0000 * 64 + v / 0x1000 % 64) * 64 + v / 64 % 64) * 64 + v % 64 == v
  {
    assert v / 64 / 64 == v / 0x1000 && v / 0x1000 / 64 == v / 0x4_0000;
  }

  lemma ThreeBytes(a: byte, b: byte, c: byte, v: int)
    requires v == a as int * 0x1_0000 + b as int * 0x100 + c as int
    ensures v / 0x1_0000 % 0x100 == a && v / 0x100 % 0x100 == b && v % 0x100 == c
  {
    assert v / 0x100 == a as int * 0x100 + b as int;
  }

  lemma FourJoined(a: nat, b: nat, c: nat, d: nat)
    requires a < 64 && b < 64 && c < 64 && d < 64
    ensures Joined(Joined(Joined(a, b), c), d) == ((a * 64 + b) * 64 + c) * 64 + d
  {
  }

  lemma GroupRoundTrip(a: byte, b: byte, c: byte, g: seq<byte>)
    requires g == EncodedGroup(a, b, c)
    ensures |g| == 4 && IsText(g) && DecodedGroup(g[0], g[1], g[2], g[3]) == [a, b, c]
  {
    hide EncodeDigit;
    hide DecodeDigit;
    hide Joined;
    var v := a as int * 0x1_0000 + b as int * 0x100 + c as int;
    FourDigits(v);
    FourJoined(v / 0x4_0000, v / 0x1000 % 64, v / 64 % 64, v % 64);
    ThreeBytes(a, b, c, v);
    DigitRoundTrip(v / 0x4_0000);
    DigitRoundTrip(v / 0x1000 % 64);
    DigitRoundTrip(v / 64 % 64);
    DigitRoundTrip(v % 64);
  }

  lemma TailRoundTrip(s: seq<byte>, g: seq<byte>)
    requires |s| < 3 && g == EncodedTail(s)
    ensures |g| < 4 && |g| != 1 && IsText(g) && DecodedTail(g) == s
  {
    hide EncodeDigit;
    hide DecodeDigit;
    if |s| == 2 {
      TwoByteTail(s[0], s[1], g);
    } else if |s| == 1 {
      OneByteTail(s[0], g);
    }
  }

  lemma TwoByteTail(a: byte, b: byte, g: seq<byte>)
    requires g == EncodedTail([a, b])
    ensures |g| == 3 && IsText(g) && DecodedTail(g) == [a, b]
  {
    hide EncodeDigit;
    hide DecodeDigit;
    hide Joined;
    var v := (a as int * 0x100 + b as int) * 4;
    TwoBytesInThreeDigits(a, b, v);
    DigitRoundTrip(v / 0x1000);
    DigitRoundTrip(v / 64 % 64);
    DigitRoundTrip(v % 64);
  }

  lemma TwoBytesInThreeDigits(a: byte, b: byte, v: int)
    requires v == (a as int * 0x100 + b as int) * 4
    ensures v / 0x1000 < 64
    ensures Joined(Joined(v / 0x1000, v / 64 % 64), v % 64) == v
    ensures v / 4 / 0x100 % 0x100 == a && v / 4 % 0x100 == b
  {
    assert v / 64 / 64 == v / 0x1000;
  }

  lemma OneByteInTwoDigits(a: byte, v: int)
    requires v == a as int * 16
    ensures v / 64 < 64 && Joined(v / 64, v % 64) == v && v / 16 % 0x100 == a
  {
  }

  lemma OneByteTail(a: byte, g: seq<byte>)
    requires g == EncodedTail([a])
    ensures |g| == 2 && IsText(g) && DecodedTail(g) == [a]
  {
    hide EncodeDigit;
    hide DecodeDigit;
    hide Joined;
    var v := a as int * 16;
    OneByteInTwoDigits(a, v);
    DigitRoundTrip(v / 64);
    DigitRoundTrip(v % 64);
  }

  lemma EncodedUnfolds(s: seq<byte>)
    ensures |s| < 3 ==> Encoded(s) == EncodedTail(s)
    ensures |s| >= 3 ==> Encoded(s) == EncodedGroup(s[0], s[1], s[2]) + Encoded(s[3..])
    ensures |s| >= 3 ==> |EncodedGroup(s[0], s[1], s[2])| == 4
  {
    hide EncodedLength;
    hide EncodeDigit;
  }

  lemma DecodedUnfolds(s: seq<byte>)
    requires |s| % 4 != 1
    ensures |s| < 4 ==> Decoded(s) == DecodedTail(s)
    ensures |s| >= 4 ==> Decoded(s) == DecodedGroup(s[0], s[1], s[2], s[3]) + Decoded(s[4..])
    ensures |s| >= 4 ==> |DecodedGroup(s[0], s[1], s[2], s[3])| == 3
  {
    hide DecodedLength;
    hide DecodeDigit;
  }

  /** Three bytes are the four digits of their 24-bit number in base 64, most significant first. */
  lemma GroupIs(a: byte, b: byte, c: byte, w: int, x: int, y: int, z: int)
    requires 0 <= w < 64 && 0 <= x < 64 && 0 <= y < 64 && 0 <= z < 64
    requires a as int * 0x1_0000 + b as int * 0x100 + c as int == w * 0x4_0000 + x * 0x1000 + y * 64 + z
    ensures Encoded([a, b, c]) == [EncodeDigit(w), EncodeDigit(x), EncodeDigit(y), EncodeDigit(z)]
  {
    var v := a as int * 0x1_0000 + b as int * 0x100 + c as int;
    DivModUnique(v, 64, w * 0x1000 + x * 64 + y, z);
    DivModUnique(v, 0x1000, w * 64 + x, y * 64 + z);
    DivModUnique(v, 0x4_0000, w, x * 0x1000 + y * 64 + z);
    DivModUnique(v / 64, 64, w * 64 + x, y);
    DivModUnique(v / 0x1000, 64, w, x);
    hide EncodeDigit;
    EncodedUnfolds([a, b, c]);
    EncodedOfNothing();
    assert [a, b, c][3..] == [];
    assert EncodedGroup(a, b, c) == [EncodeDigit(w), EncodeDigit(x), EncodeDigit(y), EncodeDigit(z)];
  }

  /** Two bytes are three digits, of which the last ends in two zero bits, and one byte two, the last ending in four. */
  lemma TailIs(a: byte, b: byte, w: int, x: int, y: int)
    requires 0 <= w < 64 && 0 <= x < 64 && 0 <= y < 64
    ensures (a as int * 0x100 + b as int) * 4 == w * 0x1000 + x * 64 + y ==>
      Encoded([a, b]) == [EncodeDigit(w), EncodeDigit(x), EncodeDigit(y)]
    ensures a as int * 16 == w * 64 + x ==> Encoded([a]) == [EncodeDigit(w), EncodeDigit(x)]
  {
    hide EncodeDigit;
    if (a as int * 0x100 + b as int) * 4 == w * 0x1000 + x * 64 + y {
      var v := (a as int * 0x100 + b as int) * 4;
      DivModUnique(v, 64, w * 64 + x, y);
      DivModUnique(v, 0x1000, w, x * 64 + y);
      DivModUnique(v / 64, 64, w, x);
    }
    if a as int * 16 == w * 64 + x {
      DivModUnique(a as int * 16, 64, w, x);
    }
  }

  lemma GroupThenText(g: seq<byte>, rest: seq<byte>)
    requires |g| == 4 && IsText(g) && IsText(rest) && |rest| % 4 != 1
    ensures |g + rest| % 4 != 1 && IsText(g + rest)
    ensures Decoded(g + rest) == DecodedGroup(g[0], g[1], g[2], g[3]) + Decoded(rest)
  {
    hide DecodedGroup;
    hide Decoded;
    hide IsDigit;
    assert (g + rest)[4..] == rest;
    DecodedUnfolds(g + rest);
  }

  /** Decoding undoes encoding. */
  lemma {:induction false} RoundTrip(s: seq<byte>)
    ensures |Encoded(s)| % 4 != 1 && IsText(Encoded(s)) && Decoded(Encoded(s)) == s
    decreases |s|
  {
    hide *;
    EncodedUnfolds(s);
    if |s| < 3 {
      TailRoundTrip(s, EncodedTail(s));
      DecodedUnfolds(Encoded(s));
    } else {
      var g, rest := EncodedGroup(s[0], s[1], s[2]), Encoded(s[3..]);
      GroupRoundTrip(s[0], s[1], s[2], g);
      RoundTrip(s[3..]);
      GroupThenText(g, rest);
      assert s == [s[0], s[1], s[2]] + s[3..];
    }
  }

  /** Each length function undoes the other, and no encoding has the refused length. */
  lemma LengthRoundTrip(n: nat)
    ensures DecodedLength(EncodedLength(n)) == Some(n)
    ensures n % 4 != 1 ==> EncodedLength(DecodedLength(n).value) == n
    ensures DecodedLength(n) == None <==> forall m: nat :: EncodedLength(m) != n
  {
    hide EncodedLength;
    hide DecodedLength;
    LengthsUndo(n);
    if n % 4 == 1 {
      forall m: nat
        ensures EncodedLength(m) != n
      {
        LengthsUndo(m);
      }
    }
  }

  lemma LengthsUndo(n: nat)
    ensures EncodedLength(n) >= 0 && EncodedLength(n) % 4 != 1 && DecodedLength(EncodedLength(n)) == Some(n)
    ensures DecodedLength(n) == None <==> n % 4 == 1
    ensures n % 4 != 1 ==> DecodedLength(n).value >= 0 && EncodedLength(DecodedLength(n).value) == n
  {
    EncodedLengthIs(n / 3, n % 3);
    DecodedLengthIs(n / 3, n % 3);
    if n % 4 != 1 {
      var r := if n % 4 == 0 then 0 else n % 4 - 1;
      DecodedLengthIs(n / 4, r);
      EncodedLengthIs(n / 4, r);
    }
  }

  lemma EncodedIsLonger(n: nat)
    ensures EncodedLength(n) >= n
  {
  }

  lemma DecodedIsShorter(n: nat)
    ensures n % 4 != 1 ==> DecodedLength(n).value <= n
  {
  }

  lemma EncodedLengthIs(q: nat, r: nat)
    requires r < 3
    ensures EncodedLength(3 * q + r) == 4 * q + (if r == 0 then 0 else r + 1)
  {
    DivModUnique(3 * q + r + 2, 3, if r == 0 then q else q + 1, if r == 0 then 2 else r - 1);
  }

  lemma DecodedLengthIs(q: nat, r: nat)
    requires r < 3
    ensures DecodedLength(4 * q + (if r == 0 then 0 else r + 1)) == Some(3 * q + r)
  {
    var n := 4 * q + (if r == 0 then 0 else r + 1);
    DivModUnique(n, 4, q, n - 4 * q);
    DivModUnique(n + 2, 4, if r == 0 then q else q + 1, if r == 0 then 2 else r - 1);
  }

  // ----- prefixes, as the loops build them

  lemma {:induction false} EncodedSplits(s: seq<byte>, k: nat)
    requires k <= |s| && k % 3 == 0
    ensures Encoded(s) == Encoded(s[..k]) + Encoded(s[k..])
    decreases k
  {
    hide *;
    if k == 0 {
      assert s[0..] == s;
      EncodedOfNothing();
    } else {
      EncodedSplits(s[3..], k - 3);
      EncodedUnfolds(s);
      EncodedUnfolds(s[..k]);
      assert s[3..][..k - 3] == s[..k][3..] && s[3..][k - 3..] == s[k..];
    }
  }

  lemma EncodedOfNothing()
    ensures Encoded([]) == []
  {
  }

  lemma EncodedOneMore(s: seq<byte>, k: nat)
    requires k + 3 <= |s| && k % 3 == 0
    ensures Encoded(s[..k + 3]) == Encoded(s[..k]) + EncodedGroup(s[k], s[k + 1], s[k + 2])
    ensures |EncodedGroup(s[k], s[k + 1], s[k + 2])| == 4
  {
    hide *;
    var t := s[..k + 3];
    EncodedSplits(t, k);
    assert t[..k] == s[..k];
    EncodedUnfolds(t[k..]);
    assert t[k..][3..] == [];
    EncodedOfNothing();
  }

  lemma {:induction false} DecodedSplits(s: seq<byte>, k: nat)
    requires k <= |s| && k % 4 == 0 && |s| % 4 != 1
    ensures |s[k..]| % 4 != 1
    ensures Decoded(s) == Decoded(s[..k]) + Decoded(s[k..])
    decreases k
  {
    hide Decoded;
    hide DecodedGroup;
    if k == 0 {
      assert s[0..] == s && s[..0] == [];
      DecodedUnfolds([]);
    } else {
      DecodedSplits(s[4..], k - 4);
      DecodedUnfolds(s);
      DecodedUnfolds(s[..k]);
      assert s[4..][..k - 4] == s[..k][4..] && s[4..][k - 4..] == s[k..];
    }
  }

  lemma DecodedOneMore(s: seq<byte>, k: nat)
    requires k + 4 <= |s| && k % 4 == 0
    ensures Decoded(s[..k + 4]) == Decoded(s[..k]) + DecodedGroup(s[k], s[k + 1], s[k + 2], s[k + 3])
    ensures |DecodedGroup(s[k], s[k + 1], s[k + 2], s[k + 3])| == 3
  {
    hide Decoded;
    hide DecodedGroup;
    var t := s[..k + 4];
    DecodedSplits(t, k);
    assert t[..k] == s[..k];
    DecodedUnfolds(t[k..]);
    assert t[k..][4..] == [];
    DecodedUnfolds([]);
  }

  // ----- in memory

  /** Input and output are apart, or the output ends no later than the input. */
  predicate EncodeApart(input: nat, length: nat, output: nat) {
    input + length <= output || output + EncodedLength(length) <= input + length
  }

  predicate DecodeApart(input: nat, length: nat, output: nat) {
    output <= input || input + length <= output
  }

  lemma RoomForGroups(length: nat, k: nat)
    requires 3 * k <= length
    ensures 4 * k <= EncodedLength(length)
    ensures 3 * k + 3 <= length ==> 4 * k + 4 - (3 * k + 3) <= EncodedLength(length) - length
    ensures length < 3 * k + 3 ==> EncodedLength(length) == 4 * k + EncodedLength(length - 3 * k)
  {
  }

  lemma RoomForDecoded(length: nat, k: nat)
    requires 4 * k <= length && length % 4 != 1
    ensures 3 * k <= DecodedLength(length).value
    ensures length < 4 * k + 4 ==>
      DecodedLength(length - 4 * k).Some? && DecodedLength(length).value == 3 * k + DecodedLength(length - 4 * k).value
    ensures 4 * k + 4 <= length ==> 3 * k + 3 <= DecodedLength(length).value
  {
    hide DecodedLength;
    var q, r := length / 4, length % 4;
    LengthOfDecoded(q, r);
    LengthOfDecoded(q - k, r);
    assert length - 4 * k == 4 * (q - k) + r;
  }

  lemma LengthOfDecoded(q: nat, r: nat)
    requires r < 4 && r != 1
    ensures DecodedLength(4 * q + r) == Some(3 * q + if r == 0 then 0 else r - 1)
  {
  }

  method PutFour(mem: array<byte>, pos: nat, a: byte, b: byte, c: byte)
    requires pos + 4 <= mem.Length
    modifies mem
    ensures mem[..] == Overwritten(old(mem[..]), pos, EncodedGroup(a, b, c))
  {
    hide EncodeDigit;
    var value := a as int * 0x1_0000 + b as int * 0x100 + c as int;
    FourDigits(value);
    assert value / 64 / 64 == value / 0x1000 && value / 0x1000 / 64 == value / 0x4_0000;
    mem[pos + 3] := EncodeDigit(value % 64);
    value := value / 64;
    mem[pos + 2] := EncodeDigit(value % 64);
    value := value / 64;
    mem[pos + 1] := EncodeDigit(value % 64);
    value := value / 64;
    mem[pos] := EncodeDigit(value);
    assert mem[pos..pos + 4] == EncodedGroup(a, b, c);
    hide EncodedGroup;
    IsOverwritten(old(mem[..]), mem[..], pos, mem[pos..pos + 4]);
  }

  lemma TwelveBits(v: int)
    requires 0 <= v < 0x4_0000
    ensures v / 64 / 64 == v / 0x1000 < 64
  {
  }

  method PutTail(mem: array<byte>, pos: nat, tail: seq<byte>) returns (end: nat)
    requires |tail| < 3 && pos + |EncodedTail(tail)| <= mem.Length
    modifies mem
    ensures end == pos + |EncodedTail(tail)|
    ensures mem[..] == Overwritten(old(mem[..]), pos, EncodedTail(tail))
  {
    hide EncodeDigit;
    end := pos;
    if |tail| > 0 {
      var value := tail[0] as int;
      if |tail| == 2 {
        value := value * 0x100 + tail[1] as int;
        value := value * 4;
        TwelveBits(value);
        mem[pos + 2] := EncodeDigit(value % 64);
        value := value / 64;
        end := end + 3;
      } else {
        value := value * 16;
        end := end + 2;
      }
      mem[pos + 1] := EncodeDigit(value % 64);
      value := value / 64;
      mem[pos] := EncodeDigit(value);
    }
    assert mem[pos..end] == EncodedTail(tail);
    hide EncodedTail;
    IsOverwritten(old(mem[..]), mem[..], pos, mem[pos..end]);
  }

  /** One round of encoding, seen on the whole memory. */
  lemma EncodeStep(before: seq<byte>, now: seq<byte>, s: seq<byte>, k: nat, input: nat, length: nat, output: nat)
    requires |before| == |now| && |s| == length && 3 * k + 3 <= length
    requires input + length <= |now| && output + EncodedLength(length) <= |now|
    requires EncodeApart(input, length, output)
    requires |Encoded(s[..3 * k])| == 4 * k && output + 4 * k <= |now|
    requires now == Overwritten(before, output, Encoded(s[..3 * k]))
    requires now[input + 3 * k..input + length] == s[3 * k..]
    ensures output + 4 * k + 4 <= |now|
    ensures |Encoded(s[..3 * (k + 1)])| == 4 * k + 4
    ensures var pos := input + 3 * k;
            var g := EncodedGroup(now[pos], now[pos + 1], now[pos + 2]);
            && |g| == 4
            && Overwritten(now, output + 4 * k, g) == Overwritten(before, output, Encoded(s[..3 * (k + 1)]))
            && Overwritten(now, output + 4 * k, g)[pos + 3..input + length] == s[3 * k + 3..]
  {
    hide EncodedGroup;
    hide Encoded;
    hide Overwritten;
    hide EncodedLength;
    var pos := input + 3 * k;
    var rest := now[pos..input + length];
    assert now[pos] == rest[0] && now[pos + 1] == rest[1] && now[pos + 2] == rest[2];
    assert now[pos] == s[3 * k] && now[pos + 1] == s[3 * k + 1] && now[pos + 2] == s[3 * k + 2];
    var g := EncodedGroup(now[pos], now[pos + 1], now[pos + 2]);
    EncodedOneMore(s, 3 * k);
    RoomForGroups(length, k);
    RoomForGroups(length, k + 1);
    assert 3 * k + 3 == 3 * (k + 1);
    OverwrittenTwice(before, output, Encoded(s[..3 * k]), g);
    OverwrittenElsewhere(now, output + 4 * k, g, pos + 3, input + length);
    SliceOfSlice(now, pos, input + length, 3, length - 3 * k);
    assert rest[3..length - 3 * k] == s[3 * k..][3..];
  }

  /** Whatever the overlap allowed, the output is the encoding of what the input was. */
  method EncodeBase64(mem: array<byte>, input: nat, length: nat, output: nat) returns (end: nat)
    requires input + length <= mem.Length && output + EncodedLength(length) <= mem.Length
    requires EncodeApart(input, length, output)
    modifies mem
    ensures end == output + EncodedLength(length)
    ensures mem[..] == Overwritten(old(mem[..]), output, Encoded(old(mem[input..input + length])))
  {
    hide EncodedGroup;
    hide EncodedTail;
    hide Encoded;
    hide Overwritten;
    hide EncodedLength;
    hide EncodeApart;
    ghost var before, s := mem[..], mem[input..input + length];
    var groups := length / 3;
    var k := 0;
    EncodedOfNothing();
    RoomForGroups(length, 0);
    OverwrittenNothing(before, output);
    while k != groups
      invariant 0 <= k <= groups
      invariant |Encoded(s[..3 * k])| == 4 * k && output + 4 * k <= mem.Length
      invariant mem[..] == Overwritten(before, output, Encoded(s[..3 * k]))
      invariant mem[input + 3 * k..input + length] == s[3 * k..]
      decreases groups - k
    {
      var pos := input + 3 * k;
      EncodeStep(before, mem[..], s, k, input, length, output);
      PutFour(mem, output + 4 * k, mem[pos], mem[pos + 1], mem[pos + 2]);
      assert mem[..][pos + 3..input + length] == mem[pos + 3..input + length];
      k := k + 1;
    }
    var tail := mem[input + 3 * groups..input + length];
    RoomForGroups(length, groups);
    EncodedUnfolds(tail);
    EncodedSplits(s, 3 * groups);
    end := PutTail(mem, output + 4 * groups, tail);
    OverwrittenTwice(before, output, Encoded(s[..3 * groups]), EncodedTail(tail));
  }

  method PutThree(mem: array<byte>, pos: nat, a: byte, b: byte, c: byte, d: byte)
    requires pos + 3 <= mem.Length
    modifies mem
    ensures mem[..] == Overwritten(old(mem[..]), pos, DecodedGroup(a, b, c, d))
  {
    hide DecodeDigit;
    hide Joined;
    var value: nat := DecodeDigit(a);
    value := Joined(value, DecodeDigit(b));
    value := Joined(value, DecodeDigit(c));
    value := Joined(value, DecodeDigit(d));
    TopOfThree(value);
    mem[pos + 2] := value % 0x100;
    value := value / 0x100;
    mem[pos + 1] := value % 0x100;
    value := value / 0x100;
    mem[pos] := value % 0x100;
    assert mem[pos..pos + 3] == DecodedGroup(a, b, c, d);
    hide DecodedGroup;
    IsOverwritten(old(mem[..]), mem[..], pos, mem[pos..pos + 3]);
  }

  lemma TopOfThree(v: int)
    requires 0 <= v
    ensures v / 0x100 / 0x100 == v / 0x1_0000
  {
  }

  method PutDecodedTail(mem: array<byte>, pos: nat, tail: seq<byte>)
    requires |tail| < 4 && |tail| != 1 && pos + |DecodedTail(tail)| <= mem.Length
    modifies mem
    ensures mem[..] == Overwritten(old(mem[..]), pos, DecodedTail(tail))
  {
    hide DecodeDigit;
    hide Joined;
    ghost var end := pos + |DecodedTail(tail)|;
    if |tail| > 0 {
      var value: nat := DecodeDigit(tail[0]);
      value := Joined(value, DecodeDigit(tail[1]));
      if |tail| == 3 {
        value := Joined(value, DecodeDigit(tail[2]));
        value := value / 4;
        mem[pos + 1] := value % 0x100;
        value := value / 0x100;
      } else {
        value := value / 16;
      }
      mem[pos] := value % 0x100;
    }
    assert mem[pos..end] == DecodedTail(tail);
    hide DecodedTail;
    IsOverwritten(old(mem[..]), mem[..], pos, mem[pos..end]);
  }

  lemma DropAt(s: seq<byte>, a: nat, i: nat)
    requires a + i < |s|
    ensures s[a..][i] == s[a + i]
  {
  }

  /** One round of decoding, seen on the whole memory. */
  lemma DecodeStep(before: seq<byte>, now: seq<byte>, s: seq<byte>, k: nat, input: nat, length: nat, output: nat)
    requires |before| == |now| && |s| == length && 4 * k + 4 <= length && length % 4 != 1
    requires input + length <= |now| && output + DecodedLength(length).value <= |now|
    requires DecodeApart(input, length, output)
    requires |Decoded(s[..4 * k])| == 3 * k && output + 3 * k <= |now|
    requires now == Overwritten(before, output, Decoded(s[..4 * k]))
    requires now[input + 4 * k..input + length] == s[4 * k..]
    ensures output + 3 * k + 3 <= |now|
    ensures |Decoded(s[..4 * (k + 1)])| == 3 * k + 3
    ensures var pos := input + 4 * k;
            var g := DecodedGroup(now[pos], now[pos + 1], now[pos + 2], now[pos + 3]);
            && |g| == 3
            && Overwritten(now, output + 3 * k, g) == Overwritten(before, output, Decoded(s[..4 * (k + 1)]))
            && Overwritten(now, output + 3 * k, g)[pos + 4..input + length] == s[4 * k + 4..]
  {
    hide DecodedGroup;
    hide Decoded;
    hide Overwritten;
    hide DecodedLength;
    var pos := input + 4 * k;
    NextDigits(now, s, pos, 4 * k, input + length);
    var g := DecodedGroup(now[pos], now[pos + 1], now[pos + 2], now[pos + 3]);
    DecodedOneMore(s, 4 * k);
    RoomForDecoded(length, k);
    assert 4 * k + 4 == 4 * (k + 1);
    OverwrittenTwice(before, output, Decoded(s[..4 * k]), g);
    OverwrittenElsewhere(now, output + 3 * k, g, pos + 4, input + length);
    RestKept(now, s, pos, 4 * k, input + length);
  }

  /** The next four characters, where they lie in memory. */
  lemma NextDigits(now: seq<byte>, s: seq<byte>, pos: nat, at: nat, end: nat)
    requires at + 4 <= |s| && pos + (|s| - at) == end <= |now| && now[pos..end] == s[at..]
    ensures now[pos] == s[at] && now[pos + 1] == s[at + 1] && now[pos + 2] == s[at + 2] && now[pos + 3] == s[at + 3]
  {
    var rest := now[pos..end];
    assert now[pos] == rest[0] && now[pos + 1] == rest[1] && now[pos + 2] == rest[2] && now[pos + 3] == rest[3];
    DropAt(s, at, 0);
    DropAt(s, at, 1);
    DropAt(s, at, 2);
    DropAt(s, at, 3);
  }

  lemma RestKept(now: seq<byte>, s: seq<byte>, pos: nat, at: nat, end: nat)
    requires at + 4 <= |s| && pos + (|s| - at) == end <= |now| && now[pos..end] == s[at..]
    ensures now[pos + 4..end] == s[at + 4..]
  {
    var rest := now[pos..end];
    SliceOfSlice(now, pos, end, 4, end - pos);
    assert rest[4..end - pos] == s[at..][4..];
  }

  /** The loop over whole groups. */
  method DecodeGroups(mem: array<byte>, input: nat, length: nat, output: nat, groups: nat)
    requires length % 4 != 1 && groups == length / 4
    requires input + length <= mem.Length && output + DecodedLength(length).value <= mem.Length
    requires DecodeApart(input, length, output)
    modifies mem
    ensures var s := old(mem[input..input + length]);
            && |Decoded(s[..4 * groups])| == 3 * groups
            && output + 3 * groups <= mem.Length
            && mem[..] == Overwritten(old(mem[..]), output, Decoded(s[..4 * groups]))
            && mem[input + 4 * groups..input + length] == s[4 * groups..]
  {
    hide DecodedGroup;
    hide DecodedTail;
    hide Decoded;
    hide Overwritten;
    hide DecodedLength;
    hide DecodeApart;
    ghost var before: seq<byte>, s: seq<byte> := mem[..], mem[input..input + length];
    var k := 0;
    DecodedOfNothing();
    RoomForDecoded(length, 0);
    OverwrittenNothing(before, output);
    while k != groups
      invariant 0 <= k <= groups
      invariant |Decoded(s[..4 * k])| == 3 * k && output + 3 * k <= mem.Length
      invariant mem[..] == Overwritten(before, output, Decoded(s[..4 * k]))
      invariant mem[input + 4 * k..input + length] == s[4 * k..]
      decreases groups - k
    {
      var pos := input + 4 * k;
      DecodeStep(before, mem[..], s, k, input, length, output);
      PutThree(mem, output + 3 * k, mem[pos], mem[pos + 1], mem[pos + 2], mem[pos + 3]);
      k := k + 1;
    }
  }

  /** The memory after decoding a text whose length is 1 modulo 4, which no encoding has: the last character is
      decoded together with the byte that follows the text in memory, once the whole groups have been written. */
  function StrayDecoded(was: seq<byte>, input: nat, length: nat, output: nat): (r: seq<byte>)
    requires length % 4 == 1 && input + length < |was| && output + 3 * (length / 4) + 1 <= |was|
    ensures |r| == |was|
  {
    LengthOfDecoded(length / 4, 0);
    var done := Overwritten(was, output, Decoded(was[input..input + length - 1]));
    Overwritten(done, output + 3 * (length / 4), DecodedTail(done[input + length - 1..input + length + 1]))
  }

  /** The whole groups are decoded, and after them lies one byte more: the top of the last character and of the byte after the text, which is
      the first byte decoded if the output starts there and there is one. Nothing else changes. */
  lemma StrayIs(was: seq<byte>, input: nat, length: nat, output: nat, d: seq<byte>, a: byte, b: byte)
    requires length % 4 == 1 && input + length < |was| && output + 3 * (length / 4) + 1 <= |was|
    requires output <= input || input + length <= output
    requires d == Decoded(was[input..input + length - 1]) && |d| == 3 * (length / 4)
    requires a == was[input + length - 1] && b == if output == input + length && d != [] then d[0] else was[input + length]
    ensures StrayDecoded(was, input, length, output) == was[..output] + d + [TopOfTwo(a, b)] + was[output + |d| + 1..]
  {
    hide *;
    var done := Overwritten(was, output, d);
    StrayRead(was, input + length - 1, output, d);
    var tail := done[input + length - 1..input + length + 1];
    TwoDecoded(a, b);
    assert tail == [a, b];
    StrayIn(was, input, length, output, done, tail);
    StrayWritten(was, output, d, DecodedTail(tail));
  }

  lemma StrayIn(was: seq<byte>, input: nat, length: nat, output: nat, done: seq<byte>, tail: seq<byte>)
    requires length % 4 == 1 && input + length < |was| && output + 3 * (length / 4) + 1 <= |was|
    requires |Decoded(was[input..input + length - 1])| == 3 * (length / 4)
    requires done == Overwritten(was, output, Decoded(was[input..input + length - 1]))
    requires tail == done[input + length - 1..input + length + 1] && |DecodedTail(tail)| == 1
    ensures StrayDecoded(was, input, length, output) == Overwritten(done, output + 3 * (length / 4), DecodedTail(tail))
  {
    hide Decoded;
    hide DecodedTail;
    hide DecodedLength;
    hide Overwritten;
  }

  /** The first eight of the bits of two characters, or what the table holds in their place. */
  function TopOfTwo(a: byte, b: byte): byte {
    Joined(DecodeDigit(a), DecodeDigit(b)) / 16 % 0x100
  }

  lemma TwoDecoded(a: byte, b: byte)
    ensures DecodedTail([a, b]) == [TopOfTwo(a, b)]
  {
    hide Joined;
    hide DecodeDigit;
  }

  lemma StrayRead(was: seq<byte>, pos: nat, output: nat, d: seq<byte>)
    requires pos + 1 < |was| && output + |d| <= |was| && (output + |d| <= pos || pos < output)
    ensures var done := Overwritten(was, output, d);
            done[pos] == was[pos] && done[pos + 1] == if output == pos + 1 && d != [] then d[0] else was[pos + 1]
  {
  }

  lemma StrayWritten(was: seq<byte>, output: nat, d: seq<byte>, x: seq<byte>)
    requires |x| == 1 && output + |d| + 1 <= |was|
    ensures Overwritten(Overwritten(was, output, d), output + |d|, x) == was[..output] + d + x + was[output + |d| + 1..]
  {
    OverwrittenTwice(was, output, d, x);
    assert was[..output] + (d + x) == was[..output] + d + x;
  }

  /** Decoding over its own input included. */
  method DecodeBase64(mem: array<byte>, input: nat, length: nat, output: nat) returns (end: nat)
    requires input + length <= mem.Length
    requires length % 4 != 1 ==> output + DecodedLength(length).value <= mem.Length
    requires length % 4 == 1 ==> input + length < mem.Length && output + 3 * (length / 4) + 1 <= mem.Length
    requires DecodeApart(input, length, output)
    modifies mem
    ensures end == input + length
    ensures length % 4 != 1 ==> mem[..] == Overwritten(old(mem[..]), output, Decoded(old(mem[input..input + length])))
    ensures length % 4 == 1 ==> mem[..] == StrayDecoded(old(mem[..]), input, length, output)
  {
    end := input + length;
    if length % 4 == 1 {
      DecodeStray(mem, input, length, output);
    } else {
      DecodeText(mem, input, length, output);
    }
  }

  /** The loop, and a remainder of none, two or three characters. */
  method DecodeText(mem: array<byte>, input: nat, length: nat, output: nat)
    requires length % 4 != 1
    requires input + length <= mem.Length && output + DecodedLength(length).value <= mem.Length
    requires DecodeApart(input, length, output)
    modifies mem
    ensures mem[..] == Overwritten(old(mem[..]), output, Decoded(old(mem[input..input + length])))
  {
    hide DecodedGroup;
    hide DecodedTail;
    hide Decoded;
    hide Overwritten;
    hide DecodedLength;
    ghost var before: seq<byte>, s: seq<byte> := mem[..], mem[input..input + length];
    var groups := length / 4;
    DecodeGroups(mem, input, length, output, groups);
    var tail := mem[input + 4 * groups..input + length];
    RoomForDecoded(length, groups);
    DecodedSplits(s, 4 * groups);
    DecodedUnfolds(tail);
    PutDecodedTail(mem, output + 3 * groups, tail);
    OverwrittenTwice(before, output, Decoded(s[..4 * groups]), DecodedTail(tail));
  }

  /** The loop, and a remainder of one character, which is taken for two. */
  method DecodeStray(mem: array<byte>, input: nat, length: nat, output: nat)
    requires length % 4 == 1 && input + length < mem.Length && output + 3 * (length / 4) + 1 <= mem.Length
    requires DecodeApart(input, length, output)
    modifies mem
    ensures mem[..] == StrayDecoded(old(mem[..]), input, length, output)
  {
    hide DecodedGroup;
    hide DecodedTail;
    hide Decoded;
    hide Overwritten;
    hide DecodedLength;
    ghost var s: seq<byte> := mem[input..input + length - 1];
    var groups := length / 4;
    LengthOfDecoded(groups, 0);
    DecodeGroups(mem, input, length - 1, output, groups);
    assert s[..4 * groups] == s;
    var tail := mem[input + 4 * groups..input + length + 1];
    OneByteLeft(tail);
    PutDecodedTail(mem, output + 3 * groups, tail);
  }

  lemma OneByteLeft(tail: seq<byte>)
    requires |tail| == 2
    ensures |DecodedTail(tail)| == 1
  {
  }

  lemma DecodedOfNothing()
    ensures Decoded([]) == []
  {
  }
}
