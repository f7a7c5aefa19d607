/** Base-128 varints (src/message.cpp:21-83): seven bits a byte, least significant first, the
    high bit set on every byte but the last. */
module Varint {
  import opened Words

  function VarintLength(v: nat): (n: nat)
    ensures n > 0
  {
    if v < 0x80 then 1 else 1 + VarintLength(v / 0x80)
  }

  function VarintBytes(v: nat): (s: seq<byte>)
    ensures |s| > 0
  {
    if v < 0x80 then [v] else [v % 0x80 + 0x80] + VarintBytes(v / 0x80)
  }

  /** The number a run of bytes stands for, before it is cut to the width of its type. */
  function VarintValue(s: seq<byte>): nat {
    if s == [] then 0 else s[0] % 0x80 + 0x80 * VarintValue(s[1..])
  }

  /** The length of the varint that a string starts with: up to the first byte below 0x80, or
      all of the string if there is none. */
  function VarintExtent(s: seq<byte>): (n: nat)
    ensures n <= |s| && (s != [] ==> n > 0)
  {
    if s == [] then 0 else if s[0] < 0x80 then 1 else 1 + VarintExtent(s[1..])
  }

  lemma {:induction false} VarintRoundTrip(v: nat, rest: seq<byte>)
    ensures |VarintBytes(v)| == VarintLength(v)
    ensures VarintExtent(VarintBytes(v) + rest) == VarintLength(v)
    ensures VarintValue(VarintBytes(v)) == v
  {
    var s := VarintBytes(v);
    if v >= 0x80 {
      VarintRoundTrip(v / 0x80, rest);
      assert s[1..] == VarintBytes(v / 0x80);
      assert (s + rest)[1..] == VarintBytes(v / 0x80) + rest;
    }
  }

  /** Byte k carries bits 7k to 7k + 6 of the number, and the high bit unless it is the last. */
  lemma {:induction false} ByteAt(v: nat, k: nat)
    requires k < |VarintBytes(v)|
    ensures VarintBytes(v)[k] == v / TwoTo(7 * k) % 0x80 + if k == |VarintBytes(v)| - 1 then 0 else 0x80
  {
    if k > 0 {
      ByteAt(v / 0x80, k - 1);
      assert TwoTo(7) == 0x80 by {
        assert TwoTo(4) == 16;
      }
      TwoToAdd(7, 7 * (k - 1));
      DivTwice(v, 0x80, TwoTo(7 * (k - 1)));
    } else {
      assert TwoTo(0) == 1;
    }
  }

  /** There are as many bytes as it takes: the last one is not zero, unless the number is. */
  lemma {:induction false} NoByteTooMany(v: nat)
    ensures v < TwoTo(7 * VarintLength(v))
    ensures VarintLength(v) > 1 ==> TwoTo(7 * (VarintLength(v) - 1)) <= v
  {
    assert TwoTo(7) == 0x80 by {
      assert TwoTo(4) == 16;
    }
    hide TwoTo;
    if v >= 0x80 {
      var n := VarintLength(v / 0x80);
      NoByteTooMany(v / 0x80);
      TwoToAdd(7, 7 * n);
      Widens(v, TwoTo(7 * n));
      if n > 1 {
        TwoToAdd(7, 7 * (n - 1));
        Widens(v, TwoTo(7 * (n - 1)));
      }
    }
  }

  lemma Widens(v: nat, t: nat)
    ensures v / 0x80 < t <==> v < 0x80 * t
  {
  }

  /** Of any bytes, seven bits each, the first the lowest. */
  lemma {:induction false} ValueSplits(s: seq<byte>, t: seq<byte>)
    ensures VarintValue(s + t) == VarintValue(s) + TwoTo(7 * |s|) * VarintValue(t)
  {
    if s == [] {
      assert s + t == t && TwoTo(0) == 1;
    } else {
      var n := |s[1..]|;
      SevenMore(n);
      hide TwoTo;
      ValueSplits(s[1..], t);
      assert (s + t)[1..] == s[1..] + t;
      Shifted(s[0] % 0x80, VarintValue(s[1..]), TwoTo(7 * n), VarintValue(t));
    }
  }

  lemma SevenMore(n: nat)
    ensures TwoTo(7 * (n + 1)) == 0x80 * TwoTo(7 * n)
  {
    assert TwoTo(7) == 0x80 by {
      assert TwoTo(4) == 16;
    }
    hide TwoTo;
    TwoToAdd(7, 7 * n);
  }

  lemma Shifted(low: nat, a: nat, weight: nat, b: nat)
    ensures low + 0x80 * (a + weight * b) == low + 0x80 * a + 0x80 * weight * b
  {
  }

  lemma ValueOfByte(b: byte)
    ensures VarintValue([b]) == if b < 0x80 then b as nat else b as nat - 0x80
  {
    assert VarintValue([]) == 0;
  }

  /** A complete varint ends with a byte below 0x80. */
  ghost predicate IsVarint(s: seq<byte>) {
    s != [] && s[|s| - 1] < 0x80 && forall k :: 0 <= k < |s| - 1 ==> s[k] >= 0x80
  }

  lemma {:induction false} VarintExtentOf(s: seq<byte>, rest: seq<byte>)
    requires IsVarint(s)
    ensures VarintExtent(s + rest) == |s|
  {
    if |s| > 1 {
      assert (s + rest)[1..] == s[1..] + rest;
      VarintExtentOf(s[1..], rest);
    }
  }

  lemma {:induction false} VarintBytesIsVarint(v: nat)
    ensures IsVarint(VarintBytes(v))
  {
    if v >= 0x80 {
      VarintBytesIsVarint(v / 0x80);
      var s, t := VarintBytes(v), VarintBytes(v / 0x80);
      assert forall k :: 0 < k < |s| ==> s[k] == t[k - 1];
    }
  }

  // ----- the loops

  method ComputeVarintLength(value: nat) returns (result: nat)
    ensures result == VarintLength(value)
  {
    var v := value;
    result := 1;
    while v >= 0x80
      invariant result + VarintLength(v) - 1 == VarintLength(value)
    {
      result := result + 1;
      v := v / 0x80;
    }
  }

  method PutByte(output: array<byte>, pos: nat, b: byte)
    requires pos < output.Length
    modifies output
    ensures output[..] == Overwritten(old(output[..]), pos, [b])
  {
    OverwrittenOne(output[..], pos, b);
    output[pos] := b;
    assert output[..] == old(output[..])[pos := b];
  }

  method EncodeVarint(output: array<byte>, pos: nat, value: nat) returns (end: nat)
    requires pos + VarintLength(value) <= output.Length
    modifies output
    ensures end == pos + VarintLength(value)
    ensures VarintLength(value) == |VarintBytes(value)|
    ensures output[..] == Overwritten(old(output[..]), pos, VarintBytes(value))
  {
    hide Overwritten;
    VarintRoundTrip(value, []);
    hide VarintLength;
    hide VarintBytes;
    var v := value;
    end := pos;
    ghost var written: seq<byte> := [];
    OverwrittenNothing(output[..], pos);
    assert written + VarintBytes(v) == VarintBytes(value);
    while v >= 0x80
      invariant end == pos + |written|
      invariant written + VarintBytes(v) == VarintBytes(value)
      invariant output[..] == Overwritten(old(output[..]), pos, written)
    {
      var b: byte := v % 0x80 + 0x80;
      VarintUnfolds(v);
      assert |written + VarintBytes(v)| == |written| + 1 + |VarintBytes(v / 0x80)|;
      PutByte(output, end, b);
      OverwrittenTwice(old(output[..]), pos, written, [b]);
      assert written + ([b] + VarintBytes(v / 0x80)) == (written + [b]) + VarintBytes(v / 0x80);
      written := written + [b];
      end := end + 1;
      v := v / 0x80;
    }
    VarintUnfolds(v);
    assert |written + VarintBytes(v)| == |written| + 1;
    PutByte(output, end, v);
    OverwrittenTwice(old(output[..]), pos, written, VarintBytes(v));
    end := end + 1;
  }

  lemma VarintUnfolds(v: nat)
    ensures v >= 0x80 ==> VarintBytes(v) == [v % 0x80 + 0x80] + VarintBytes(v / 0x80)
    ensures v < 0x80 ==> VarintBytes(v) == [v]
  {
  }

  method SkipVarint(input: seq<byte>, start: nat, end: nat) returns (pos: nat)
    requires start <= end <= |input|
    ensures pos == start + VarintExtent(input[start..end])
    ensures pos <= end
  {
    pos := start;
    while pos != end
      invariant start <= pos <= end
      invariant pos + VarintExtent(input[pos..end]) == start + VarintExtent(input[start..end])
      decreases end - pos
    {
      var tmp := input[pos];
      assert input[pos..end][1..] == input[pos + 1..end];
      pos := pos + 1;
      if tmp < 0x80 {
        return;
      }
    }
  }

  /** Decoding runs backwards and shifts left, so the bits beyond the width fall off. */
  method DecodeVarint(input: seq<byte>, start: nat, end: nat, modulus: nat) returns (value: nat)
    requires start <= end <= |input|
    requires modulus == TWO_TO_THE_32 || modulus == TWO_TO_THE_64
    ensures value == VarintValue(input[start..end]) % modulus
  {
    value := 0;
    if end == start {
      return;
    }
    var pos := end;
    while pos != start
      invariant start <= pos <= end
      invariant value == VarintValue(input[pos..end]) % modulus
      decreases pos - start
    {
      pos := pos - 1;
      assert input[pos..end][1..] == input[pos + 1..end];
      ShiftIn(VarintValue(input[pos + 1..end]), input[pos] % 0x80, modulus);
      // the shifted value has its low seven bits clear, so `|=` adds
      value := (value * 0x80) % modulus + input[pos] % 0x80;
    }
  }

  lemma ShiftIn(v: nat, low: nat, modulus: nat)
    requires modulus == TWO_TO_THE_32 || modulus == TWO_TO_THE_64
    requires low < 0x80
    ensures ((v % modulus) * 0x80) % modulus + low == (low + 0x80 * v) % modulus
  {
    if modulus == TWO_TO_THE_32 {
      ShiftInBy(v, low, 0x200_0000);
    } else {
      ShiftInBy(v, low, 0x200_0000_0000_0000);
    }
  }

  lemma ShiftInBy(v: nat, low: nat, m: nat)
    requires m > 0 && low < 0x80
    ensures ((v % (0x80 * m)) * 0x80) % (0x80 * m) + low == (low + 0x80 * v) % (0x80 * m)
  {
    var modulus := 0x80 * m;
    var a, r := v / m, v % m;
    assert v == a * m + r;
    assert 0x80 * v == a * modulus + 0x80 * r;
    assert 0x80 * r + low < modulus;
    DivModUnique(low + 0x80 * v, modulus, a, 0x80 * r + low);
    var b, s := v / modulus, v % modulus;
    assert v == b * modulus + s;
    var c := a - b * 0x80;
    assert s == c * m + r by {
      assert b * modulus == (b * 0x80) * m;
      assert (a - b * 0x80) * m == a * m - (b * 0x80) * m;
    }
    assert s * 0x80 == c * modulus + 0x80 * r by {
      assert s * 0x80 == (c * m) * 0x80 + r * 0x80;
      assert (c * m) * 0x80 == c * (m * 0x80);
    }
    DivModUnique(s * 0x80, modulus, c, 0x80 * r);
  }
}
