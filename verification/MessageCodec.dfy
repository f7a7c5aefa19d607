/** The wire formats of src/message.cpp. A message body is a run of tagged fields; `Scan` reads
    them one at a time, and a field's value is the last one given for its tag. The decoders of
    the library, which try their tags in a fixed order on every round, are proved to agree. */
module MessageCodec {
  import opened Words
  import opened Varint

  datatype Payload = Number(value: nat) | Text(bytes: seq<byte>)
  datatype Token = Token(tag: seq<byte>, payload: Payload)

  // ----- one field at a time

  /** The extent of the length or number after a tag. */
  function TagExtent(s: seq<byte>): (n: nat)
    ensures n <= |s| && (s != [] ==> n > 0)
  {
    VarintExtent(s)
  }

  function ValueEnd(s: seq<byte>): (n: nat)
    ensures TagExtent(s) <= n <= |s|
  {
    TagExtent(s) + VarintExtent(s[TagExtent(s)..])
  }

  function ValueOf(s: seq<byte>): nat {
    VarintValue(s[TagExtent(s)..ValueEnd(s)])
  }

  function TextLength(s: seq<byte>): nat {
    ValueOf(s) % TWO_TO_THE_64
  }

  /** The bytes taken by the first field; one that is cut short or of an unknown wire type takes the rest. */
  function FieldExtent(s: seq<byte>): (n: nat)
    requires s != []
    ensures 0 < n <= |s|
  {
    if s[0] % 8 == 0 then ValueEnd(s)
    else if s[0] % 8 == 2 && TextLength(s) <= |s| - ValueEnd(s) then ValueEnd(s) + TextLength(s)
    else |s|
  }

  /** What the first field says, if it is whole. */
  function FieldToken(s: seq<byte>): (t: seq<Token>)
    requires s != []
    ensures |t| <= 1
  {
    var tag := s[..TagExtent(s)];
    if s[0] % 8 == 0 then [Token(tag, Number(ValueOf(s)))]
    else if s[0] % 8 == 2 && TextLength(s) <= |s| - ValueEnd(s)
    then [Token(tag, Text(s[ValueEnd(s)..ValueEnd(s) + TextLength(s)]))]
    else []
  }

  function Scan(s: seq<byte>): seq<Token>
    decreases |s|
  {
    if s == [] then [] else FieldToken(s) + Scan(s[FieldExtent(s)..])
  }

  /** The last payload given for a one-byte tag. */
  function Last(tokens: seq<Token>, tag: byte): Option<Payload> {
    if tokens == [] then None
    else if tokens[|tokens| - 1].tag == [tag] then Some(tokens[|tokens| - 1].payload)
    else Last(tokens[..|tokens| - 1], tag)
  }

  lemma {:induction false} LastOfConcat(a: seq<Token>, b: seq<Token>, tag: byte)
    ensures Last(a + b, tag) == if Last(b, tag).Some? then Last(b, tag) else Last(a, tag)
  {
    if b == [] {
      assert a + b == a;
    } else {
      assert (a + b)[..|a + b| - 1] == a + b[..|b| - 1];
      LastOfConcat(a, b[..|b| - 1], tag);
    }
  }

  // ----- fields that can be followed by anything

  /** A complete field: its varints end, and its text is all there. */
  ghost predicate IsField(s: seq<byte>) {
    && s != []
    && FieldExtent(s) == |s|
    && IsVarint(s[..TagExtent(s)])
    && IsVarint(s[TagExtent(s)..ValueEnd(s)])
    && (s[0] % 8 == 0 || (s[0] % 8 == 2 && ValueEnd(s) + TextLength(s) == |s|))
  }

  ghost predicate IsFieldRun(s: seq<byte>)
    decreases |s|
  {
    s == [] || (IsField(s[..FieldExtent(s)]) && IsFieldRun(s[FieldExtent(s)..]))
  }

  /** A field by its parts: tag, number or length, and what follows. */
  lemma Layout(tag: seq<byte>, value: seq<byte>, tail: seq<byte>, s: seq<byte>)
    requires IsVarint(tag) && IsVarint(value) && s == tag + value + tail
    ensures s != [] && s[0] == tag[0] && TagExtent(s) == |tag| && ValueEnd(s) == |tag| + |value|
    ensures s[..TagExtent(s)] == tag && ValueOf(s) == VarintValue(value)
    ensures s[ValueEnd(s)..] == tail
  {
    assert s == tag + (value + tail);
    VarintExtentOf(tag, value + tail);
    assert s[|tag|..] == value + tail;
    VarintExtentOf(value, tail);
    assert s[|tag|..|tag| + |value|] == value;
  }

  lemma FieldThen(f: seq<byte>, rest: seq<byte>)
    requires IsField(f)
    ensures f + rest != []
    ensures FieldExtent(f + rest) == |f| && FieldToken(f + rest) == FieldToken(f) && |FieldToken(f)| == 1
    ensures FieldToken(f)[0].tag == f[..TagExtent(f)]
  {
    var n, m := TagExtent(f), ValueEnd(f);
    var tag, value, tail := f[..n], f[n..m], f[m..];
    assert f[..m] == tag + value && f == f[..m] + tail;
    assert f + rest == tag + value + (tail + rest);
    Layout(tag, value, tail, f);
    Layout(tag, value, tail + rest, f + rest);
    hide ValueOf;
    hide ValueEnd;
    hide TagExtent;
    if f[0] % 8 == 2 {
      var len := TextLength(f);
      assert |tail| == len;
      TextPart(f, rest, m, len);
    }
  }

  lemma TextPart(f: seq<byte>, rest: seq<byte>, m: nat, len: nat)
    requires m + len == |f|
    ensures (f + rest)[m..m + len] == f[m..m + len]
  {
  }

  lemma FieldReads(f: seq<byte>, rest: seq<byte>)
    requires IsField(f)
    ensures Scan(f + rest) == FieldToken(f) + Scan(rest)
  {
    hide FieldExtent;
    hide FieldToken;
    hide IsField;
    FieldThen(f, rest);
    assert (f + rest)[|f|..] == rest;
  }

  /** Fields before a point are read the same whatever comes after it. */
  lemma {:induction false} ScanSplits(a: seq<byte>, b: seq<byte>)
    requires IsFieldRun(a)
    ensures Scan(a + b) == Scan(a) + Scan(b)
    decreases |a|
  {
    hide Scan;
    hide FieldToken;
    hide IsField;
    if a == [] {
      assert a + b == b;
      ScanNothing(a);
    } else {
      var f, rest := a[..FieldExtent(a)], a[FieldExtent(a)..];
      assert a == f + rest && a + b == f + (rest + b);
      FieldReads(f, rest);
      FieldReads(f, rest + b);
      ScanSplits(rest, b);
    }
  }

  lemma ScanNothing(s: seq<byte>)
    requires s == []
    ensures Scan(s) == []
  {
  }

  /** A complete field of an unknown tag, put in at any field boundary, changes no known field. */
  lemma UnknownFieldIgnored(a: seq<byte>, f: seq<byte>, b: seq<byte>, tag: byte)
    requires IsFieldRun(a) && IsField(f) && f[..TagExtent(f)] != [tag]
    ensures Last(Scan(a + f + b), tag) == Last(Scan(a + b), tag)
  {
    hide Scan;
    hide FieldToken;
    hide FieldExtent;
    hide TagExtent;
    hide IsField;
    hide IsFieldRun;
    FieldThen(f, b);
    FieldReads(f, b);
    assert a + f + b == a + (f + b);
    ScanSplits(a, f + b);
    ScanSplits(a, b);
    LastOfConcat(Scan(a), Scan(f + b), tag);
    LastOfConcat(Scan(a), Scan(b), tag);
    LastOfConcat(FieldToken(f), Scan(b), tag);
    assert FieldToken(f)[..0] == [];
  }

  // ----- fields that are not whole

  /** A field of any other wire type than number and text is not read, nor is anything after it. */
  lemma UnknownTypeEnds(s: seq<byte>)
    requires s != [] && s[0] % 8 != 0 && s[0] % 8 != 2
    ensures Scan(s) == []
  {
    hide ValueEnd;
    hide TextLength;
    ScanNothing(s[FieldExtent(s)..]);
  }

  lemma TextStands(tag: byte, n: nat, tail: seq<byte>, s: seq<byte>)
    requires tag < 0x80 && s == [tag] + VarintBytes(n) + tail
    ensures s != [] && s[0] == tag && s[..TagExtent(s)] == [tag] && TextLength(s) == n % 0x1_0000_0000_0000_0000
    ensures ValueEnd(s) + |tail| == |s| && s[ValueEnd(s)..] == tail
  {
    var v := VarintBytes(n);
    VarintRoundTrip(n, []);
    VarintBytesIsVarint(n);
    Layout([tag], v, tail, s);
  }

  /** A text is as long as the 64 bits of its length say; one that is cut short is not read, nor is anything after it. */
  lemma TextIsRead(tag: byte, n: nat, tail: seq<byte>, s: seq<byte>)
    requires tag < 0x80 && tag % 8 == 2 && s == [tag] + VarintBytes(n) + tail
    ensures var length := n % 0x1_0000_0000_0000_0000;
            Scan(s) == if length <= |tail| then [Token([tag], Text(tail[..length]))] + Scan(tail[length..]) else []
  {
    var length := n % 0x1_0000_0000_0000_0000;
    TextStands(tag, n, tail, s);
    TextTaken(s, length, tail);
    if length <= |tail| {
      ScanUnfolds(s);
    } else {
      NothingAfter(s);
    }
    hide *;
  }

  lemma TextTaken(s: seq<byte>, length: nat, tail: seq<byte>)
    requires s != [] && s[0] % 8 == 2 && TextLength(s) == length && ValueEnd(s) + |tail| == |s| && s[ValueEnd(s)..] == tail
    ensures length <= |tail| ==>
      FieldToken(s) == [Token(s[..TagExtent(s)], Text(tail[..length]))] && s[FieldExtent(s)..] == tail[length..]
    ensures length > |tail| ==> FieldToken(s) == [] && FieldExtent(s) == |s|
  {
    hide ValueEnd;
    hide TextLength;
    hide TagExtent;
    var end := ValueEnd(s);
    if length <= |tail| {
      assert s[end..end + length] == s[end..][..length];
      assert s[end + length..] == s[end..][length..];
    }
  }

  lemma CutNumber(tag: byte, s: seq<byte>, t: seq<byte>)
    requires tag < 0x80 && t == [tag] + s && forall k :: 0 <= k < |s| ==> s[k] >= 0x80
    ensures TagExtent(t) == 1 && ValueEnd(t) == |t| && t[..1] == [tag] && ValueOf(t) == VarintValue(s)
  {
    NeverEnds(s);
    assert t[1..] == s && t[1..|t|] == s;
  }

  /** A number that is cut short is read as what there is of it. */
  lemma CutNumberIsRead(tag: byte, s: seq<byte>, t: seq<byte>)
    requires tag < 0x80 && tag % 8 == 0 && t == [tag] + s && forall k :: 0 <= k < |s| ==> s[k] >= 0x80
    ensures Scan(t) == [Token([tag], Number(VarintValue(s)))]
  {
    CutNumber(tag, s, t);
    hide ValueEnd;
    hide ValueOf;
    hide TagExtent;
    hide VarintValue;
    NothingAfter(t);
  }

  lemma NothingAfter(s: seq<byte>)
    requires s != [] && FieldExtent(s) == |s|
    ensures Scan(s) == FieldToken(s)
  {
    hide FieldExtent;
    hide FieldToken;
    ScanNothing(s[|s|..]);
  }

  lemma {:induction false} NeverEnds(s: seq<byte>)
    requires forall k :: 0 <= k < |s| ==> s[k] >= 0x80
    ensures VarintExtent(s) == |s|
  {
    if s != [] {
      NeverEnds(s[1..]);
    }
  }

  // ----- fields as they are written

  function NumberField(tag: byte, value: nat): seq<byte> {
    [tag] + VarintBytes(value)
  }

  function TextField(tag: byte, bytes: seq<byte>): seq<byte> {
    [tag] + VarintBytes(|bytes|) + bytes
  }

  lemma NumberFieldIsField(tag: byte, value: nat)
    requires tag < 0x80 && tag % 8 == 0
    ensures IsField(NumberField(tag, value))
    ensures FieldToken(NumberField(tag, value)) == [Token([tag], Number(value))]
  {
    var v := VarintBytes(value);
    var s := NumberField(tag, value);
    VarintRoundTrip(value, []);
    VarintBytesIsVarint(value);
    assert s == [tag] + v + [];
    Layout([tag], v, [], s);
    assert s[1..] == v;
  }

  lemma TextFieldIsField(tag: byte, bytes: seq<byte>)
    requires tag < 0x80 && tag % 8 == 2 && |bytes| < TWO_TO_THE_64
    ensures IsField(TextField(tag, bytes))
    ensures FieldToken(TextField(tag, bytes)) == [Token([tag], Text(bytes))]
  {
    var v := VarintBytes(|bytes|);
    var s := TextField(tag, bytes);
    VarintRoundTrip(|bytes|, []);
    VarintBytesIsVarint(|bytes|);
    Layout([tag], v, bytes, s);
    assert s[1..1 + |v|] == v;
    assert s[ValueEnd(s)..] == bytes;
    assert s[ValueEnd(s)..ValueEnd(s) + |bytes|] == bytes;
  }

  // ----- what the library's readers hold

  /** A reader's entry: nothing, a 32-bit number, or a stretch of the input. */
  datatype Field = Missing | Count(value: uint32) | Chunk(start: nat, length: nat)

  ghost predicate Shows(input: seq<byte>, f: Field, p: Option<Payload>) {
    match p
    case None => f == Missing
    case Some(Number(v)) => f == Count(Wrap32(v))
    case Some(Text(bytes)) => f.Chunk? && f.start + f.length <= |input| && input[f.start..f.start + f.length] == bytes
  }

  predicate KnownTags(tags: seq<byte>) {
    && (forall k :: 0 <= k < |tags| ==> tags[k] < 0x80 && (tags[k] % 8 == 0 || tags[k] % 8 == 2))
    && (forall j, k :: 0 <= j < k < |tags| ==> tags[j] != tags[k])
  }

  ghost predicate AllShow(input: seq<byte>, values: seq<Field>, tokens: seq<Token>, tags: seq<byte>) {
    |values| == |tags| && forall k :: 0 <= k < |tags| ==> Shows(input, values[k], Last(tokens, tags[k]))
  }

  lemma TaggedHere(input: seq<byte>, start: nat, end: nat, tag: byte)
    requires start < end <= |input| && input[start] == tag < 0x80
    ensures var s := input[start..end];
            && TagExtent(s) == 1 && s[..TagExtent(s)] == [tag]
            && ValueEnd(s) == 1 + VarintExtent(input[start + 1..end])
            && ValueOf(s) == VarintValue(input[start + 1..start + ValueEnd(s)])
  {
    var s := input[start..end];
    assert s[0] == tag;
    SliceOfSlice(input, start, end, 1, end - start);
    SliceOfSlice(input, start, end, 1, ValueEnd(s));
    assert s[1..] == s[1..end - start];
  }

  /** A field of the given tag, if one stands here. */
  method DecodeField(input: seq<byte>, start: nat, end: nat, tag: byte, before: Field) returns (pos: nat, value: Field)
    requires start <= end <= |input|
    requires tag < 0x80 && (tag % 8 == 0 || tag % 8 == 2)
    ensures start <= pos <= end
    ensures start < end && input[start] == tag ==>
      && pos == start + FieldExtent(input[start..end])
      && (FieldToken(input[start..end]) == [] ==> value == before)
      && (FieldToken(input[start..end]) != [] ==>
            && FieldToken(input[start..end])[0].tag == [tag]
            && Shows(input, value, Some(FieldToken(input[start..end])[0].payload)))
    ensures !(start < end && input[start] == tag) ==> pos == start && value == before
  {
    pos, value := start, before;
    if pos != end && input[pos] == tag {
      hide TagExtent;
      hide ValueEnd;
      hide ValueOf;
      ghost var s := input[start..end];
      TaggedHere(input, start, end, tag);
      pos := pos + 1;
      var valueStart := pos;
      pos := SkipVarint(input, pos, end);
      if tag % 8 == 0 {
        var v := DecodeVarint(input, valueStart, pos, TWO_TO_THE_32);
        value := Count(v);
      } else {
        var len := DecodeVarint(input, valueStart, pos, TWO_TO_THE_64);
        if len > end - pos {
          return end, before;
        }
        value := Chunk(pos, len);
        SliceOfSlice(input, start, end, ValueEnd(s), ValueEnd(s) + len);
        pos := pos + len;
      }
    }
  }

  method SkipUnknown(input: seq<byte>, start: nat, end: nat) returns (pos: nat)
    requires start < end <= |input|
    ensures pos == start + FieldExtent(input[start..end])
  {
    pos := start;
    ghost var s := input[start..end];
    var tag := input[pos];
    if tag % 8 == 0 {
      pos := SkipVarint(input, pos, end);
      assert s[TagExtent(s)..] == input[pos..end];
      pos := SkipVarint(input, pos, end);
    } else if tag % 8 == 2 {
      pos := SkipVarint(input, pos, end);
      assert s[TagExtent(s)..] == input[pos..end];
      var lenStart := pos;
      pos := SkipVarint(input, pos, end);
      assert s[TagExtent(s)..ValueEnd(s)] == input[lenStart..pos] by { SliceOfSlice(input, start, end, TagExtent(s), ValueEnd(s)); }
      var len := DecodeVarint(input, lenStart, pos, TWO_TO_THE_64);
      if len > end - pos {
        return end;
      }
      pos := pos + len;
    } else {
      return end;
    }
  }

  lemma AllShowAfter(input: seq<byte>, values: seq<Field>, tokens: seq<Token>, tags: seq<byte>, k: nat, t: Token, value: Field)
    requires AllShow(input, values, tokens, tags) && KnownTags(tags)
    requires k < |tags| && t.tag == [tags[k]] && Shows(input, value, Some(t.payload))
    ensures AllShow(input, values[k := value], tokens + [t], tags)
  {
    forall j | 0 <= j < |tags|
      ensures Shows(input, values[k := value][j], Last(tokens + [t], tags[j]))
    {
      assert (tokens + [t])[..|tokens|] == tokens;
    }
  }

  lemma AllShowUnknown(input: seq<byte>, values: seq<Field>, tokens: seq<Token>, tags: seq<byte>, more: seq<Token>)
    requires AllShow(input, values, tokens, tags)
    requires |more| <= 1 && forall k :: 0 <= k < |tags| && more != [] ==> more[0].tag != [tags[k]]
    ensures AllShow(input, values, tokens + more, tags)
  {
    if more == [] {
      assert tokens + more == tokens;
    } else {
      forall j | 0 <= j < |tags|
        ensures Last(tokens + more, tags[j]) == Last(tokens, tags[j])
      {
        assert (tokens + more)[..|tokens|] == tokens;
      }
    }
  }

  lemma ScanStep(input: seq<byte>, pos: nat, end: nat, tokens: seq<Token>)
    requires pos < end <= |input|
    ensures FieldExtent(input[pos..end]) <= end - pos
    ensures tokens + Scan(input[pos..end])
         == (tokens + FieldToken(input[pos..end])) + Scan(input[pos + FieldExtent(input[pos..end])..end])
  {
    hide FieldExtent;
    hide FieldToken;
    var s := input[pos..end];
    ScanUnfolds(s);
    hide Scan;
    assert s[FieldExtent(s)..] == input[pos + FieldExtent(s)..end];
    assert tokens + (FieldToken(s) + Scan(s[FieldExtent(s)..])) == (tokens + FieldToken(s)) + Scan(s[FieldExtent(s)..]);
  }

  lemma ScanUnfolds(s: seq<byte>)
    requires s != []
    ensures Scan(s) == FieldToken(s) + Scan(s[FieldExtent(s)..])
  {
    hide FieldExtent;
    hide FieldToken;
  }

  /** The decoding loop: on every round each known tag is tried once, in order, and what none
      of them takes is skipped. */
  method DecodeFields(input: seq<byte>, start: nat, end: nat, tags: seq<byte>) returns (values: seq<Field>)
    requires start <= end <= |input| && KnownTags(tags)
    ensures AllShow(input, values, Scan(input[start..end]), tags)
  {
    hide Scan;
    hide FieldToken;
    hide FieldExtent;
    values := seq(|tags|, _ => Missing);
    var pos := start;
    ghost var tokens: seq<Token> := [];
    while pos != end
      invariant start <= pos <= end
      invariant tokens + Scan(input[pos..end]) == Scan(input[start..end])
      invariant AllShow(input, values, tokens, tags)
      decreases end - pos
    {
      var unknown := pos;
      for k := 0 to |tags|
        invariant unknown <= pos <= end
        invariant tokens + Scan(input[pos..end]) == Scan(input[start..end])
        invariant AllShow(input, values, tokens, tags)
        invariant pos == unknown ==> forall j :: 0 <= j < k ==> input[pos] != tags[j]
      {
        var next, value := DecodeField(input, pos, end, tags[k], values[k]);
        if pos < end && input[pos] == tags[k] {
          ghost var t := FieldToken(input[pos..end]);
          ScanStep(input, pos, end, tokens);
          if t == [] {
            assert values[k := value] == values && tokens + t == tokens;
          } else {
            assert t == [t[0]];
            AllShowAfter(input, values, tokens, tags, k, t[0], value);
          }
          tokens := tokens + t;
        }
        values := values[k := value];
        pos := next;
      }
      if pos == unknown {
        ghost var t := FieldToken(input[pos..end]);
        ScanStep(input, pos, end, tokens);
        UnknownTag(input[pos..end], tags);
        AllShowUnknown(input, values, tokens, tags, t);
        tokens := tokens + t;
        pos := SkipUnknown(input, pos, end);
      }
    }
    assert Scan(input[end..end]) == [] by { ScanNothing(input[end..end]); }
    assert tokens + [] == tokens;
  }

  lemma UnknownTag(s: seq<byte>, tags: seq<byte>)
    requires s != [] && forall k :: 0 <= k < |tags| ==> s[0] != tags[k]
    ensures forall k :: 0 <= k < |tags| && FieldToken(s) != [] ==> FieldToken(s)[0].tag != [tags[k]]
  {
    if FieldToken(s) != [] {
      assert FieldToken(s)[0].tag[0] == s[0];
    }
  }
}
