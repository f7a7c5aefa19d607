/** Persistence in bytes (src/pickle.cpp, include/self_olm/pickle.hh). The overloads for the types of the library
    are one pair of functions here, driven by the shape of a type: words, flags and fixed byte strings, and
    bounded lists of records of these. */
module Pickle {
  import opened Words
  import opened BoundedList

  datatype Shape = WordShape | FlagShape | BytesShape(length: nat)

  /** Unset: left as it was, for want of input. */
  datatype Value = Unset | Word(word: uint32) | Flag(flag: bool) | Bytes(bytes: seq<byte>)

  type Record = seq<Value>

  datatype SectionShape = FieldsOf(shapes: seq<Shape>) | ListOf(capacity: nat, shapes: seq<Shape>)
  datatype Section = Fields(record: Record) | Items(items: seq<Record>)

  predicate HasShape(v: Value, shape: Shape) {
    match shape
    case WordShape => v.Word?
    case FlagShape => v.Flag?
    case BytesShape(n) => v.Bytes? && |v.bytes| == n
  }

  predicate RecordFits(r: Record, shapes: seq<Shape>) {
    |r| == |shapes| && forall k :: 0 <= k < |r| ==> HasShape(r[k], shapes[k])
  }

  /** No record of these shapes is empty on the wire. */
  predicate Solid(shapes: seq<Shape>) {
    shapes != [] && shapes[0] != BytesShape(0)
  }

  predicate SectionFits(s: Section, shape: SectionShape) {
    match shape
    case FieldsOf(shapes) => s.Fields? && RecordFits(s.record, shapes)
    case ListOf(capacity, shapes) =>
      && s.Items? && |s.items| <= capacity && |s.items| < TWO_TO_THE_32 && capacity > 0 && Solid(shapes)
      && forall k :: 0 <= k < |s.items| ==> RecordFits(s.items[k], shapes)
  }

  predicate ObjectFits(o: seq<Section>, shapes: seq<SectionShape>) {
    |o| == |shapes| && forall k :: 0 <= k < |o| ==> SectionFits(o[k], shapes[k])
  }

  // ----- writing

  function PickledValue(v: Value): seq<byte> {
    match v
    case Unset => []
    case Word(w) => BigEndian32(w)
    case Flag(f) => [if f then 1 else 0]
    case Bytes(b) => b
  }

  function PickledRecord(r: Record): seq<byte> {
    if r == [] then [] else PickledValue(r[0]) + PickledRecord(r[1..])
  }

  function PickledItems(items: seq<Record>): seq<byte> {
    if items == [] then [] else PickledRecord(items[0]) + PickledItems(items[1..])
  }

  function PickledSection(s: Section): seq<byte> {
    match s
    case Fields(r) => PickledRecord(r)
    case Items(items) => BigEndian32(Wrap32(|items|)) + PickledItems(items)
  }

  function Pickled(o: seq<Section>): seq<byte> {
    if o == [] then [] else PickledSection(o[0]) + Pickled(o[1..])
  }

  // ----- the lengths, counted beforehand

  function ValueLength(v: Value): nat {
    match v
    case Unset => 0
    case Word(_) => 4
    case Flag(_) => 1
    case Bytes(b) => |b|
  }

  function RecordLength(r: Record): nat {
    if r == [] then 0 else ValueLength(r[0]) + RecordLength(r[1..])
  }

  function ItemsLength(items: seq<Record>): nat {
    if items == [] then 0 else RecordLength(items[0]) + ItemsLength(items[1..])
  }

  function SectionLength(s: Section): nat {
    match s
    case Fields(r) => RecordLength(r)
    case Items(items) => 4 + ItemsLength(items)
  }

  function PickledLength(o: seq<Section>): nat {
    if o == [] then 0 else SectionLength(o[0]) + PickledLength(o[1..])
  }

  lemma {:induction false} RecordLengthIsExact(r: Record)
    ensures |PickledRecord(r)| == RecordLength(r)
  {
    if r != [] {
      RecordLengthIsExact(r[1..]);
    }
  }

  lemma {:induction false} ItemsLengthIsExact(items: seq<Record>)
    ensures |PickledItems(items)| == ItemsLength(items)
  {
    if items != [] {
      RecordLengthIsExact(items[0]);
      ItemsLengthIsExact(items[1..]);
    }
  }

  /** The room reserved is the room taken. */
  lemma {:induction false} LengthIsExact(o: seq<Section>)
    ensures |Pickled(o)| == PickledLength(o)
  {
    hide BigEndian32;
    if o != [] {
      match o[0] {
        case Fields(r) => RecordLengthIsExact(r);
        case Items(items) =>
          BigEndian32RoundTrip(Wrap32(|items|));
          ItemsLengthIsExact(items);
      }
      LengthIsExact(o[1..]);
    }
  }

  // ----- reading: the value, and how far the reader has moved

  function UnpickledValue(shape: Shape, s: seq<byte>): (r: (Value, nat))
    ensures r.1 <= |s|
  {
    match shape
    case WordShape => if |s| < 4 then (Word(0), |s|) else (Word(FromBigEndian32(s[..4])), 4)
    case FlagShape => if |s| == 0 then (Unset, 0) else (Flag(s[0] != 0), 1)
    case BytesShape(n) => if |s| < n then (Unset, |s|) else (Bytes(s[..n]), n)
  }

  function UnpickledRecord(shapes: seq<Shape>, s: seq<byte>): (r: (Record, nat))
    ensures r.1 <= |s|
  {
    if shapes == [] then ([], 0) else
      var (v, n) := UnpickledValue(shapes[0], s);
      var (rest, m) := UnpickledRecord(shapes[1..], s[n..]);
      ([v] + rest, n + m)
  }

  /** Items are put in at the end of the list, for as long as there is input. */
  function UnpickledItems(capacity: nat, shapes: seq<Shape>, s: seq<byte>, size: nat, list: seq<Record>): (r: (seq<Record>, nat))
    requires 0 < capacity && |list| <= capacity
    ensures r.1 <= |s| && |r.0| <= capacity
    decreases size
  {
    if size == 0 || s == [] then (list, 0) else
      var (item, n) := UnpickledRecord(shapes, s);
      var (out, m) := UnpickledItems(capacity, shapes, s[n..], size - 1, Inserted(list, capacity, |list|, item));
      (out, n + m)
  }

  function UnpickledSection(shape: SectionShape, s: seq<byte>): (r: (Section, nat))
    requires shape.ListOf? ==> 0 < shape.capacity
    ensures r.1 <= |s|
  {
    match shape
    case FieldsOf(shapes) =>
      var (r, n) := UnpickledRecord(shapes, s);
      (Fields(r), n)
    case ListOf(capacity, shapes) =>
      var (size, n) := UnpickledValue(WordShape, s);
      var (items, m) := UnpickledItems(capacity, shapes, s[n..], size.word, []);
      (Items(items), n + m)
  }

  predicate Proper(shapes: seq<SectionShape>) {
    forall k :: 0 <= k < |shapes| ==> shapes[k].ListOf? ==> 0 < shapes[k].capacity
  }

  function Unpickled(shapes: seq<SectionShape>, s: seq<byte>): (r: (seq<Section>, nat))
    requires Proper(shapes)
    ensures r.1 <= |s|
  {
    if shapes == [] then ([], 0) else
      var (x, n) := UnpickledSection(shapes[0], s);
      var (rest, m) := Unpickled(shapes[1..], s[n..]);
      ([x] + rest, n + m)
  }

  // ----- the values, byte by byte

  /** A word is read most significant byte first, and as zero, taking all there is, when four bytes are not left. */
  lemma WordIs(s: seq<byte>)
    ensures UnpickledValue(WordShape, s)
         == if |s| < 4 then (Word(0), |s|)
            else (Word(s[0] as int * 0x100_0000 + s[1] as int * 0x1_0000 + s[2] as int * 0x100 + s[3] as int), 4)
  {
  }

  /** Any byte but zero is a flag that is set; a flag that is not there is left as it was. */
  lemma FlagIs(s: seq<byte>)
    ensures UnpickledValue(FlagShape, s).1 == if s == [] then 0 else 1
    ensures UnpickledValue(FlagShape, s).0 == Flag(true) <==> s != [] && s[0] != 0
    ensures UnpickledValue(FlagShape, s).0 == Flag(false) <==> s != [] && s[0] == 0
    ensures UnpickledValue(FlagShape, s).0 == Unset <==> s == []
    ensures PickledValue(Flag(true)) == [1] && PickledValue(Flag(false)) == [0]
  {
  }

  /** Bytes are taken as they are, or not at all: what there is of them is passed over. */
  lemma BytesAre(n: nat, s: seq<byte>)
    ensures UnpickledValue(BytesShape(n), s) == if |s| < n then (Unset, |s|) else (Bytes(s[..n]), n)
    ensures PickledValue(Bytes(s)) == s
  {
  }

  // ----- reading back what was written

  lemma ValueRoundTrip(v: Value, shape: Shape, rest: seq<byte>)
    requires HasShape(v, shape)
    ensures UnpickledValue(shape, PickledValue(v) + rest) == (v, |PickledValue(v)|)
  {
    hide BigEndian32;
    hide FromBigEndian32;
    if v.Word? {
      BigEndian32RoundTrip(v.word);
    }
    assert (PickledValue(v) + rest)[..|PickledValue(v)|] == PickledValue(v);
  }

  lemma {:induction false} RecordRoundTrip(r: Record, shapes: seq<Shape>, rest: seq<byte>)
    requires RecordFits(r, shapes)
    ensures UnpickledRecord(shapes, PickledRecord(r) + rest) == (r, |PickledRecord(r)|)
  {
    hide PickledValue;
    hide UnpickledValue;
    if r != [] {
      var first, more := PickledValue(r[0]), PickledRecord(r[1..]);
      assert PickledRecord(r) + rest == first + (more + rest);
      ValueRoundTrip(r[0], shapes[0], more + rest);
      assert (first + (more + rest))[|first|..] == more + rest;
      RecordRoundTrip(r[1..], shapes[1..], rest);
      assert r == [r[0]] + r[1..];
    }
  }

  lemma SolidIsNonempty(r: Record, shapes: seq<Shape>)
    requires RecordFits(r, shapes) && Solid(shapes)
    ensures PickledRecord(r) != []
  {
    hide BigEndian32;
    if r[0].Word? {
      BigEndian32RoundTrip(r[0].word);
    }
    assert HasShape(r[0], shapes[0]);
    assert |PickledValue(r[0])| > 0;
  }

  lemma {:induction false} ItemsRoundTrip(items: seq<Record>, capacity: nat, shapes: seq<Shape>, list: seq<Record>, rest: seq<byte>)
    requires 0 < capacity && |list| + |items| <= capacity && Solid(shapes)
    requires forall k :: 0 <= k < |items| ==> RecordFits(items[k], shapes)
    ensures UnpickledItems(capacity, shapes, PickledItems(items) + rest, |items|, list) == (list + items, |PickledItems(items)|)
    decreases |items|
  {
    hide PickledRecord;
    hide UnpickledRecord;
    hide Inserted;
    hide RecordFits;
    hide Solid;
    if items == [] {
      assert list + items == list;
    } else {
      var first, more := PickledRecord(items[0]), PickledItems(items[1..]);
      SolidIsNonempty(items[0], shapes);
      RecordRoundTrip(items[0], shapes, more + rest);
      InsertedAtEnd(list, capacity, items[0]);
      ItemsRoundTrip(items[1..], capacity, shapes, list + [items[0]], rest);
      ItemsStep(capacity, shapes, first, more + rest, |items|, list, items[0]);
      assert PickledItems(items) + rest == first + (more + rest);
      assert list + [items[0]] + items[1..] == list + items;
    }
  }

  lemma InsertedAtEnd(list: seq<Record>, capacity: nat, item: Record)
    requires |list| < capacity
    ensures Inserted(list, capacity, |list|, item) == list + [item]
  {
  }

  lemma ItemsStep(capacity: nat, shapes: seq<Shape>, first: seq<byte>, after: seq<byte>, size: nat, list: seq<Record>, item: Record)
    requires 0 < capacity && |list| <= capacity && size > 0 && first != []
    requires UnpickledRecord(shapes, first + after) == (item, |first|)
    ensures var (out, m) := UnpickledItems(capacity, shapes, after, size - 1, Inserted(list, capacity, |list|, item));
            UnpickledItems(capacity, shapes, first + after, size, list) == (out, |first| + m)
  {
    hide UnpickledRecord;
    hide Inserted;
    assert (first + after)[|first|..] == after;
  }

  lemma SectionRoundTrip(x: Section, shape: SectionShape, rest: seq<byte>)
    requires SectionFits(x, shape)
    ensures UnpickledSection(shape, PickledSection(x) + rest) == (x, |PickledSection(x)|)
  {
    hide PickledRecord;
    hide UnpickledRecord;
    hide PickledItems;
    hide UnpickledItems;
    hide BigEndian32;
    hide UnpickledValue;
    match x {
      case Fields(r) => RecordRoundTrip(r, shape.shapes, rest);
      case Items(items) =>
        var size, body := BigEndian32(Wrap32(|items|)), PickledItems(items);
        assert PickledSection(x) + rest == size + (body + rest);
        ValueRoundTrip(Word(Wrap32(|items|)), WordShape, body + rest);
        assert (size + (body + rest))[|size|..] == body + rest;
        ItemsRoundTrip(items, shape.capacity, shape.shapes, [], rest);
        assert [] + items == items;
    }
  }

  /** Whatever follows, an object is read back as it was, every list in order, and exactly its bytes are consumed. */
  lemma {:induction false} RoundTrip(o: seq<Section>, shapes: seq<SectionShape>, rest: seq<byte>)
    requires ObjectFits(o, shapes)
    ensures Proper(shapes)
    ensures Unpickled(shapes, Pickled(o) + rest) == (o, |Pickled(o)|)
  {
    hide PickledSection;
    hide UnpickledSection;
    FitsIsProper(o, shapes);
    if o != [] {
      var first, more := PickledSection(o[0]), Pickled(o[1..]);
      assert Pickled(o) + rest == first + (more + rest);
      TailFits(o, shapes);
      SectionRoundTrip(o[0], shapes[0], more + rest);
      assert (first + (more + rest))[|first|..] == more + rest;
      RoundTrip(o[1..], shapes[1..], rest);
      hide SectionFits;
      assert o == [o[0]] + o[1..];
    }
  }

  lemma FitsIsProper(o: seq<Section>, shapes: seq<SectionShape>)
    requires ObjectFits(o, shapes)
    ensures Proper(shapes)
  {
    forall k | 0 <= k < |shapes|
      ensures shapes[k].ListOf? ==> 0 < shapes[k].capacity
    {
      assert SectionFits(o[k], shapes[k]);
    }
  }

  lemma TailFits(o: seq<Section>, shapes: seq<SectionShape>)
    requires ObjectFits(o, shapes) && o != []
    ensures SectionFits(o[0], shapes[0]) && ObjectFits(o[1..], shapes[1..])
  {
  }

  // ----- running out of input

  /** Nothing in the object was left as it was. */
  /** Whatever the bytes, every section is of its kind, and no list exceeds its capacity. */
  lemma {:induction false} ListsFit(shapes: seq<SectionShape>, s: seq<byte>, k: nat)
    requires Proper(shapes) && k < |shapes|
    ensures var o := Unpickled(shapes, s).0;
            && |o| == |shapes|
            && if shapes[k].ListOf? then o[k].Items? && |o[k].items| <= shapes[k].capacity else o[k].Fields?
  {
    hide UnpickledRecord;
    hide UnpickledItems;
    var (x, n) := UnpickledSection(shapes[0], s);
    if |shapes| > 1 {
      ListsFit(shapes[1..], s[n..], if k == 0 then 0 else k - 1);
    } else {
      assert shapes[1..] == [];
    }
  }

  predicate Complete(o: seq<Section>, shapes: seq<SectionShape>) {
    |o| == |shapes| && forall k :: 0 <= k < |o| ==> SectionComplete(o[k], shapes[k])
  }

  predicate SectionComplete(x: Section, shape: SectionShape) {
    match shape
    case FieldsOf(shapes) => x.Fields? && RecordFits(x.record, shapes)
    case ListOf(_, shapes) => x.Items? && AllFit(x.items, shapes)
  }

  predicate AllFit(items: seq<Record>, shapes: seq<Shape>) {
    forall k :: 0 <= k < |items| ==> RecordFits(items[k], shapes)
  }

  lemma {:induction false} RecordShortOfLimit(shapes: seq<Shape>, s: seq<byte>)
    requires UnpickledRecord(shapes, s).1 < |s|
    ensures RecordFits(UnpickledRecord(shapes, s).0, shapes)
  {
    hide FromBigEndian32;
    if shapes != [] {
      var (v, n) := UnpickledValue(shapes[0], s);
      RecordShortOfLimit(shapes[1..], s[n..]);
    }
  }

  lemma {:induction false} ItemsShortOfLimit(capacity: nat, shapes: seq<Shape>, s: seq<byte>, size: nat, list: seq<Record>)
    requires 0 < capacity && |list| <= capacity && AllFit(list, shapes)
    requires UnpickledItems(capacity, shapes, s, size, list).1 < |s|
    ensures AllFit(UnpickledItems(capacity, shapes, s, size, list).0, shapes)
    decreases size
  {
    hide UnpickledRecord;
    hide RecordFits;
    if size > 0 && s != [] {
      var (item, n) := UnpickledRecord(shapes, s);
      RecordShortOfLimit(shapes, s);
      ItemsShortOfLimit(capacity, shapes, s[n..], size - 1, Inserted(list, capacity, |list|, item));
    }
  }

  /** A reader that stops short of its limit has read every field in full. */
  lemma {:induction false} ShortOfLimitIsComplete(shapes: seq<SectionShape>, s: seq<byte>)
    requires Proper(shapes)
    requires Unpickled(shapes, s).1 < |s|
    ensures Complete(Unpickled(shapes, s).0, shapes)
  {
    hide UnpickledRecord;
    hide UnpickledItems;
    hide UnpickledValue;
    if shapes != [] {
      var (x, n) := UnpickledSection(shapes[0], s);
      match shapes[0] {
        case FieldsOf(fields) => RecordShortOfLimit(fields, s);
        case ListOf(capacity, fields) =>
          WordIsWord(s);
          var (size, m) := UnpickledValue(WordShape, s);
          ItemsShortOfLimit(capacity, fields, s[m..], size.word, []);
      }
      ShortOfLimitIsComplete(shapes[1..], s[n..]);
    }
  }

  lemma WordIsWord(s: seq<byte>)
    ensures UnpickledValue(WordShape, s).0.Word?
  {
  }

  function ShapeLength(shape: Shape): nat {
    match shape
    case WordShape => 4
    case FlagShape => 1
    case BytesShape(n) => n
  }

  function FixedLength(shapes: seq<Shape>): nat {
    if shapes == [] then 0 else ShapeLength(shapes[0]) + FixedLength(shapes[1..])
  }

  /** A run of fields takes what it needs, or all there is. */
  lemma {:induction false} RecordTakes(shapes: seq<Shape>, s: seq<byte>)
    ensures UnpickledRecord(shapes, s).1 == if |s| <= FixedLength(shapes) then |s| else FixedLength(shapes)
    ensures |s| >= FixedLength(shapes) ==> RecordFits(UnpickledRecord(shapes, s).0, shapes)
  {
    hide FromBigEndian32;
    if shapes != [] {
      var (v, n) := UnpickledValue(shapes[0], s);
      assert n == if |s| <= ShapeLength(shapes[0]) then |s| else ShapeLength(shapes[0]);
      RecordTakes(shapes[1..], s[n..]);
    }
  }

  lemma {:induction false} LastIsUnset(shapes: seq<Shape>, s: seq<byte>)
    requires shapes != [] && shapes[|shapes| - 1] != WordShape && ShapeLength(shapes[|shapes| - 1]) > 0
    requires |s| < FixedLength(shapes)
    ensures var r := UnpickledRecord(shapes, s).0; r != [] && r[|r| - 1] == Unset
  {
    hide FromBigEndian32;
    if |shapes| > 1 {
      var (v, n) := UnpickledValue(shapes[0], s);
      LastCounts(shapes[1..]);
      LastIsUnset(shapes[1..], s[n..]);
    } else {
      assert FixedLength(shapes[1..]) == 0;
    }
  }

  lemma {:induction false} LastCounts(shapes: seq<Shape>)
    requires shapes != [] && ShapeLength(shapes[|shapes| - 1]) > 0
    ensures FixedLength(shapes) > 0
  {
    if |shapes| > 1 {
      LastCounts(shapes[1..]);
    }
  }

  // ----- writing again what was read

  /** The bytes are as the library would have written them: flags are 0 or 1, and no list declares more
      items than it holds. */
  predicate Canonical(shapes: seq<SectionShape>, s: seq<byte>)
    requires Proper(shapes)
  {
    shapes == [] || (CanonicalSection(shapes[0], s) && Canonical(shapes[1..], s[UnpickledSection(shapes[0], s).1..]))
  }

  predicate CanonicalSection(shape: SectionShape, s: seq<byte>) {
    match shape
    case FieldsOf(shapes) => CanonicalRecord(shapes, s)
    case ListOf(capacity, shapes) =>
      var (size, n) := UnpickledValue(WordShape, s);
      size.word <= capacity && CanonicalItems(shapes, s[n..], size.word)
  }

  predicate CanonicalItems(shapes: seq<Shape>, s: seq<byte>, size: nat)
    decreases size
  {
    size == 0 || s == [] || (CanonicalRecord(shapes, s) && CanonicalItems(shapes, s[UnpickledRecord(shapes, s).1..], size - 1))
  }

  predicate CanonicalRecord(shapes: seq<Shape>, s: seq<byte>) {
    shapes == [] || (CanonicalValue(shapes[0], s) && CanonicalRecord(shapes[1..], s[UnpickledValue(shapes[0], s).1..]))
  }

  predicate CanonicalValue(shape: Shape, s: seq<byte>) {
    shape.FlagShape? && s != [] ==> s[0] <= 1
  }

  lemma ValueWrittenAgain(shape: Shape, s: seq<byte>)
    requires |s| >= ShapeLength(shape)
    ensures UnpickledValue(shape, s).1 == ShapeLength(shape) == |PickledValue(UnpickledValue(shape, s).0)|
    ensures PickledValue(UnpickledValue(shape, s).0) == s[..ShapeLength(shape)] <==> CanonicalValue(shape, s)
  {
    hide BigEndian32;
    hide FromBigEndian32;
    if shape.WordShape? {
      var w := FromBigEndian32(s[..4]);
      BigEndian32RoundTrip(w);
      FromBigEndian32Injective(s[..4], BigEndian32(w));
    }
  }

  /** Two parts of one length each. */
  lemma SameParts(a: seq<byte>, b: seq<byte>, c: seq<byte>, d: seq<byte>)
    requires |a| == |c|
    ensures a + b == c + d <==> a == c && b == d
  {
    if a + b == c + d {
      assert a == (a + b)[..|a|] && b == (a + b)[|a|..];
      assert c == (c + d)[..|c|] && d == (c + d)[|c|..];
    }
  }

  lemma PrefixSplits(s: seq<byte>, a: nat, b: nat)
    requires a + b <= |s|
    ensures s[..a + b] == s[..a] + s[a..][..b]
  {
  }

  lemma {:induction false} RecordWrittenAgain(shapes: seq<Shape>, s: seq<byte>)
    requires |s| >= FixedLength(shapes)
    ensures UnpickledRecord(shapes, s).1 == FixedLength(shapes) == |PickledRecord(UnpickledRecord(shapes, s).0)|
    ensures PickledRecord(UnpickledRecord(shapes, s).0) == s[..FixedLength(shapes)] <==> CanonicalRecord(shapes, s)
  {
    hide UnpickledValue;
    hide PickledValue;
    hide CanonicalValue;
    if shapes != [] {
      ValueWrittenAgain(shapes[0], s);
      var (v, n) := UnpickledValue(shapes[0], s);
      RecordWrittenAgain(shapes[1..], s[n..]);
      var (r, m) := UnpickledRecord(shapes[1..], s[n..]);
      assert ([v] + r)[1..] == r;
      PrefixSplits(s, n, m);
      SameParts(PickledValue(v), PickledRecord(r), s[..n], s[n..][..m]);
    }
  }

  /** A list short of its limit has read as many items as were declared, or as many as it can hold. */
  lemma {:induction false} ItemsAreCounted(capacity: nat, shapes: seq<Shape>, s: seq<byte>, size: nat, list: seq<Record>)
    requires 0 < capacity && |list| <= capacity
    requires UnpickledItems(capacity, shapes, s, size, list).1 < |s|
    ensures |UnpickledItems(capacity, shapes, s, size, list).0| == if |list| + size <= capacity then |list| + size else capacity
    decreases size
  {
    hide UnpickledRecord;
    if size > 0 && s != [] {
      var (item, n) := UnpickledRecord(shapes, s);
      ItemsAreCounted(capacity, shapes, s[n..], size - 1, Inserted(list, capacity, |list|, item));
    }
  }

  lemma {:induction false} ItemsWrittenAgain(capacity: nat, shapes: seq<Shape>, s: seq<byte>, size: nat, list: seq<Record>, out: seq<Record>, n: nat)
    requires 0 < capacity && |list| + size <= capacity
    requires (out, n) == UnpickledItems(capacity, shapes, s, size, list) && n < |s|
    ensures |list| <= |out| && out[..|list|] == list
    ensures |PickledItems(out[|list|..])| == n
    ensures PickledItems(out[|list|..]) == s[..n] <==> CanonicalItems(shapes, s, size)
    decreases size
  {
    hide UnpickledRecord;
    hide PickledRecord;
    hide CanonicalRecord;
    hide Inserted;
    if size == 0 {
      assert out[|list|..] == [] && s[..n] == [];
    } else {
      var (item, a) := UnpickledRecord(shapes, s);
      var more, b := list + [item], n - a;
      InsertedAtEnd(list, capacity, item);
      RecordTakes(shapes, s);
      RecordWrittenAgain(shapes, s);
      ItemsWrittenAgain(capacity, shapes, s[a..], size - 1, more, out, b);
      assert out[..|list|] == more[..|list|] == list;
      assert out[|list|] == more[|list|] == item;
      var rest := out[|list|..];
      assert rest[0] == item && rest[1..] == out[|more|..];
      PrefixSplits(s, a, b);
      SameParts(PickledRecord(item), PickledItems(rest[1..]), s[..a], s[a..][..b]);
    }
  }

  /** The part of a section that was read can begin what is written only if it was canonical. */
  lemma SectionWrittenAgain(shape: SectionShape, s: seq<byte>, rest: seq<byte>, after: seq<byte>)
    requires shape.ListOf? ==> 0 < shape.capacity
    requires UnpickledSection(shape, s).1 < |s|
    ensures var (x, n) := UnpickledSection(shape, s);
            PickledSection(x) + rest == s[..n] + after <==> CanonicalSection(shape, s) && rest == after
  {
    hide UnpickledRecord;
    hide PickledRecord;
    hide CanonicalRecord;
    match shape {
      case FieldsOf(shapes) =>
        var (r, n) := UnpickledRecord(shapes, s);
        RecordTakes(shapes, s);
        RecordWrittenAgain(shapes, s);
        SameParts(PickledRecord(r), rest, s[..n], after);
      case ListOf(capacity, shapes) =>
        ListWrittenAgain(capacity, shapes, s, rest, after);
    }
  }

  lemma ListWrittenAgain(capacity: nat, shapes: seq<Shape>, s: seq<byte>, rest: seq<byte>, after: seq<byte>)
    requires 0 < capacity && UnpickledSection(ListOf(capacity, shapes), s).1 < |s|
    ensures var (x, n) := UnpickledSection(ListOf(capacity, shapes), s);
            PickledSection(x) + rest == s[..n] + after <==> CanonicalSection(ListOf(capacity, shapes), s) && rest == after
  {
    hide UnpickledItems;
    hide PickledItems;
    hide CanonicalItems;
    hide BigEndian32;
    hide FromBigEndian32;
    var size := FromBigEndian32(s[..4]);
    var (items, m) := UnpickledItems(capacity, shapes, s[4..], size, []);
    ItemsAreCounted(capacity, shapes, s[4..], size, []);
    BigEndian32RoundTrip(|items|);
    BigEndian32RoundTrip(size);
    FromBigEndian32Injective(s[..4], BigEndian32(size));
    PrefixSplits(s, 4, m);
    SameParts(BigEndian32(|items|), PickledItems(items) + rest, s[..4], s[4..][..m] + after);
    assert BigEndian32(|items|) + PickledItems(items) + rest == BigEndian32(|items|) + (PickledItems(items) + rest);
    assert s[..4] + s[4..][..m] + after == s[..4] + (s[4..][..m] + after);
    if size <= capacity {
      ItemsWrittenAgain(capacity, shapes, s[4..], size, [], items, m);
      assert items[0..] == items;
      SameParts(PickledItems(items), rest, s[4..][..m], after);
    }
  }

  /** What was read is written again to the same bytes if and only if they were canonical. */
  lemma {:induction false} WrittenAgain(shapes: seq<SectionShape>, s: seq<byte>)
    requires Proper(shapes) && Unpickled(shapes, s).1 < |s|
    ensures var (o, n) := Unpickled(shapes, s); Pickled(o) == s[..n] <==> Canonical(shapes, s)
  {
    hide UnpickledSection;
    hide PickledSection;
    hide CanonicalSection;
    if shapes != [] {
      var (x, n) := UnpickledSection(shapes[0], s);
      WrittenAgain(shapes[1..], s[n..]);
      var (rest, m) := Unpickled(shapes[1..], s[n..]);
      assert ([x] + rest)[1..] == rest;
      PrefixSplits(s, n, m);
      SectionWrittenAgain(shapes[0], s, Pickled(rest), s[n..][..m]);
    }
  }

  // ----- in memory

  /** The low byte last, from the back. */
  method PutWord(mem: array<byte>, pos: nat, w: uint32) returns (end: nat)
    requires pos + 4 <= mem.Length
    modifies mem
    ensures end == pos + 4 && mem[..] == Overwritten(old(mem[..]), pos, BigEndian32(w))
  {
    hide BigEndian32;
    FourBytes(w);
    var value, i := w, 4;
    while i > 0
      invariant 0 <= i <= 4 && |BigEndian32(w)| == 4
      invariant value == HighBytes(w, i)
      invariant forall k :: i <= k < 4 ==> mem[pos + k] == BigEndian32(w)[k]
      invariant forall k :: 0 <= k < mem.Length && !(pos + i <= k < pos + 4) ==> mem[k] == old(mem[k])
    {
      i := i - 1;
      LowByte(w, i);
      mem[pos + i] := value % 0x100;
      value := value / 0x100;
    }
    assert mem[pos..pos + 4] == BigEndian32(w);
    assert mem[..] == mem[..pos] + mem[pos..pos + 4] + mem[pos + 4..];
    end := pos + 4;
  }

  /** The number made of the first i bytes of a word. */
  function HighBytes(w: uint32, i: nat): uint32 {
    if i >= 4 then w else if i == 3 then w / 0x100 else if i == 2 then w / 0x1_0000 else if i == 1 then w / 0x100_0000 else 0
  }

  lemma LowByte(w: uint32, i: nat)
    requires i < 4
    ensures |BigEndian32(w)| == 4 && HighBytes(w, i + 1) % 0x100 == BigEndian32(w)[i]
    ensures HighBytes(w, i + 1) / 0x100 == HighBytes(w, i)
  {
    FourBytes(w);
  }

  method PutValue(mem: array<byte>, pos: nat, v: Value) returns (end: nat)
    requires pos + |PickledValue(v)| <= mem.Length
    modifies mem
    ensures end == pos + |PickledValue(v)| && mem[..] == Overwritten(old(mem[..]), pos, PickledValue(v))
  {
    hide BigEndian32;
    hide Overwritten;
    match v {
      case Unset =>
        OverwrittenNothing(mem[..], pos);
        end := pos;
      case Word(w) =>
        BigEndian32RoundTrip(w);
        end := PutWord(mem, pos, w);
      case Flag(f) =>
        OverwrittenOne(mem[..], pos, if f then 1 else 0);
        mem[pos] := if f then 1 else 0;
        end := pos + 1;
      case Bytes(b) =>
        PutBytes(mem, pos, b);
        end := pos + |b|;
    }
  }

  method PutRecord(mem: array<byte>, pos: nat, r: Record) returns (end: nat)
    requires pos + |PickledRecord(r)| <= mem.Length
    modifies mem
    ensures end == pos + |PickledRecord(r)| && mem[..] == Overwritten(old(mem[..]), pos, PickledRecord(r))
    decreases |r|
  {
    hide PickledValue;
    hide Overwritten;
    if |r| == 0 {
      OverwrittenNothing(mem[..], pos);
      return pos;
    }
    var next := PutValue(mem, pos, r[0]);
    end := PutRecord(mem, next, r[1..]);
    OverwrittenTwice(old(mem[..]), pos, PickledValue(r[0]), PickledRecord(r[1..]));
  }

  lemma {:induction false} PickledItemsAppend(items: seq<Record>, item: Record)
    ensures PickledItems(items + [item]) == PickledItems(items) + PickledRecord(item)
  {
    hide PickledRecord;
    if items == [] {
      assert [item][1..] == [];
    } else {
      assert (items + [item])[1..] == items[1..] + [item];
      PickledItemsAppend(items[1..], item);
    }
  }

  lemma {:induction false} PickledItemsPrefix(items: seq<Record>, k: nat)
    requires k <= |items|
    ensures |PickledItems(items[..k])| <= |PickledItems(items)|
  {
    hide PickledRecord;
    if k > 0 {
      assert items[..k][1..] == items[1..][..k - 1];
      PickledItemsPrefix(items[1..], k - 1);
    }
  }

  method PutItems(mem: array<byte>, pos: nat, items: seq<Record>) returns (end: nat)
    requires pos + |PickledItems(items)| <= mem.Length
    modifies mem
    ensures end == pos + |PickledItems(items)| && mem[..] == Overwritten(old(mem[..]), pos, PickledItems(items))
  {
    hide PickledRecord;
    hide PickledItems;
    hide Overwritten;
    ghost var before: seq<byte> := mem[..];
    end := pos;
    NoItems();
    OverwrittenNothing(before, pos);
    for i := 0 to |items|
      invariant end == pos + |PickledItems(items[..i])| <= mem.Length
      invariant mem[..] == Overwritten(before, pos, PickledItems(items[..i]))
    {
      PickledItemsAppend(items[..i], items[i]);
      assert items[..i] + [items[i]] == items[..i + 1];
      PickledItemsPrefix(items, i + 1);
      end := PutRecord(mem, end, items[i]);
      OverwrittenTwice(before, pos, PickledItems(items[..i]), PickledRecord(items[i]));
    }
    assert items[..|items|] == items;
  }

  lemma NoItems()
    ensures PickledItems([]) == []
  {
  }

  method PutSection(mem: array<byte>, pos: nat, x: Section) returns (end: nat)
    requires pos + |PickledSection(x)| <= mem.Length
    modifies mem
    ensures end == pos + |PickledSection(x)| && mem[..] == Overwritten(old(mem[..]), pos, PickledSection(x))
  {
    hide PickledRecord;
    hide PickledItems;
    hide BigEndian32;
    hide Overwritten;
    match x {
      case Fields(r) =>
        end := PutRecord(mem, pos, r);
      case Items(items) =>
        BigEndian32RoundTrip(Wrap32(|items|));
        var next := PutWord(mem, pos, Wrap32(|items|));
        end := PutItems(mem, next, items);
        OverwrittenTwice(old(mem[..]), pos, BigEndian32(Wrap32(|items|)), PickledItems(items));
    }
  }

  method PutObject(mem: array<byte>, pos: nat, o: seq<Section>) returns (end: nat)
    requires pos + |Pickled(o)| <= mem.Length
    modifies mem
    ensures end == pos + |Pickled(o)| && mem[..] == Overwritten(old(mem[..]), pos, Pickled(o))
    decreases |o|
  {
    hide PickledSection;
    hide Overwritten;
    if |o| == 0 {
      OverwrittenNothing(mem[..], pos);
      return pos;
    }
    var next := PutSection(mem, pos, o[0]);
    end := PutObject(mem, next, o[1..]);
    OverwrittenTwice(old(mem[..]), pos, PickledSection(o[0]), Pickled(o[1..]));
  }

  method GetWord(mem: array<byte>, pos: nat, end: nat) returns (w: uint32, next: nat)
    requires pos <= end <= mem.Length
    ensures pos <= next <= end && (Word(w), next - pos) == UnpickledValue(WordShape, mem[pos..end])
  {
    hide FromBigEndian32;
    if end < pos + 4 {
      return 0, end;
    }
    w := GetBigEndian32(mem[pos..pos + 4]);
    next := pos + 4;
    assert mem[pos..end][..4] == mem[pos..pos + 4];
  }

  method GetValue(mem: array<byte>, pos: nat, end: nat, shape: Shape) returns (v: Value, next: nat)
    requires pos <= end <= mem.Length
    ensures pos <= next <= end && (v, next - pos) == UnpickledValue(shape, mem[pos..end])
  {
    hide FromBigEndian32;
    match shape {
      case WordShape =>
        var w;
        w, next := GetWord(mem, pos, end);
        v := Word(w);
      case FlagShape =>
        if pos == end {
          return Unset, end;
        }
        v, next := Flag(mem[pos] != 0), pos + 1;
      case BytesShape(n) =>
        if end < pos + n {
          return Unset, end;
        }
        v, next := Bytes(mem[pos..pos + n]), pos + n;
        assert mem[pos..end][..n] == mem[pos..pos + n];
    }
  }

  method GetRecord(mem: array<byte>, pos: nat, end: nat, shapes: seq<Shape>) returns (r: Record, next: nat)
    requires pos <= end <= mem.Length
    ensures pos <= next <= end && (r, next - pos) == UnpickledRecord(shapes, mem[pos..end])
    decreases |shapes|
  {
    hide UnpickledValue;
    if |shapes| == 0 {
      return [], pos;
    }
    var v, after := GetValue(mem, pos, end, shapes[0]);
    assert mem[pos..end][after - pos..] == mem[after..end];
    r, next := GetRecord(mem, after, end, shapes[1..]);
    r := [v] + r;
  }

  /** Size first, then the items, inserted at the end of the list one by one. */
  method GetItems(mem: array<byte>, pos: nat, end: nat, capacity: nat, shapes: seq<Shape>) returns (items: seq<Record>, next: nat)
    requires pos <= end <= mem.Length && 0 < capacity
    ensures pos <= next <= end && (Items(items), next - pos) == UnpickledSection(ListOf(capacity, shapes), mem[pos..end])
  {
    hide UnpickledValue;
    hide UnpickledRecord;
    hide UnpickledItems;
    hide Inserted;
    var list := new List<Record>(capacity);
    var size: int, start: nat := 0, 0;
    size, start := GetWord(mem, pos, end);
    next := start;
    ghost var all := UnpickledItems(capacity, shapes, mem[start..end], size, []);
    assert mem[pos..end][start - pos..] == mem[start..end];
    while size > 0 && next != end
      invariant start <= next <= end && 0 <= size
      invariant fresh(list) && fresh(list.data) && list.Valid() && list.data.Length == capacity
      invariant |list.Contents()| <= capacity
      invariant var r := UnpickledItems(capacity, shapes, mem[next..end], size, list.Contents());
                all == (r.0, next - start + r.1)
      decreases size
    {
      ghost var here, before := next, list.Contents();
      var item;
      item, next := GetRecord(mem, next, end, shapes);
      assert mem[here..end][next - here..] == mem[next..end];
      ItemsUnfold(capacity, shapes, mem[here..end], size, before);
      var _ := list.Insert(list.end, item);
      size := size - 1;
    }
    ItemsUnfold(capacity, shapes, mem[next..end], size, list.Contents());
    items := list.data[..list.end];
  }

  lemma ItemsUnfold(capacity: nat, shapes: seq<Shape>, s: seq<byte>, size: nat, list: seq<Record>)
    requires 0 < capacity && |list| <= capacity
    ensures size == 0 || s == [] ==> UnpickledItems(capacity, shapes, s, size, list) == (list, 0)
    ensures size > 0 && s != [] ==>
      var (item, n) := UnpickledRecord(shapes, s);
      var (out, m) := UnpickledItems(capacity, shapes, s[n..], size - 1, Inserted(list, capacity, |list|, item));
      UnpickledItems(capacity, shapes, s, size, list) == (out, n + m)
  {
    hide UnpickledRecord;
    hide Inserted;
  }

  method GetObject(mem: array<byte>, pos: nat, end: nat, shapes: seq<SectionShape>) returns (o: seq<Section>, next: nat)
    requires pos <= end <= mem.Length && Proper(shapes)
    ensures pos <= next <= end && (o, next - pos) == Unpickled(shapes, mem[pos..end])
    decreases |shapes|
  {
    hide UnpickledSection;
    if |shapes| == 0 {
      return [], pos;
    }
    var x, after := GetSection(mem, pos, end, shapes[0]);
    assert mem[pos..end][after - pos..] == mem[after..end];
    o, next := GetObject(mem, after, end, shapes[1..]);
    o := [x] + o;
  }

  method GetSection(mem: array<byte>, pos: nat, end: nat, shape: SectionShape) returns (x: Section, next: nat)
    requires pos <= end <= mem.Length && (shape.ListOf? ==> 0 < shape.capacity)
    ensures pos <= next <= end && (x, next - pos) == UnpickledSection(shape, mem[pos..end])
  {
    match shape {
      case FieldsOf(shapes) =>
        var r;
        r, next := GetRecord(mem, pos, end, shapes);
        x := Fields(r);
      case ListOf(capacity, shapes) =>
        var items;
        items, next := GetItems(mem, pos, end, capacity, shapes);
        x := Items(items);
    }
  }
}
