/** The three message formats of src/message.cpp: Olm messages, pre-key messages, group messages. */
module MessageFormats {
  import opened Words
  import opened Varint
  import opened MessageCodec

  const RATCHET_KEY_TAG: byte := 0x0A
  const COUNTER_TAG: byte := 0x10
  const CIPHERTEXT_TAG: byte := 0x22

  const ONE_TIME_KEY_ID_TAG: byte := 0x0A
  const BASE_KEY_TAG: byte := 0x12
  const IDENTITY_KEY_TAG: byte := 0x1A
  const MESSAGE_TAG: byte := 0x22

  const GROUP_MESSAGE_INDEX_TAG: byte := 0x08
  const GROUP_CIPHERTEXT_TAG: byte := 0x12

  const MESSAGE_TAGS := [RATCHET_KEY_TAG, COUNTER_TAG, CIPHERTEXT_TAG]
  const PRE_KEY_TAGS := [ONE_TIME_KEY_ID_TAG, BASE_KEY_TAG, IDENTITY_KEY_TAG, MESSAGE_TAG]
  const GROUP_TAGS := [GROUP_MESSAGE_INDEX_TAG, GROUP_CIPHERTEXT_TAG]

  // ----- the formats

  function EncodedMessage(version: byte, key: seq<byte>, counter: uint32, ciphertext: seq<byte>): seq<byte> {
    [version] + TextField(RATCHET_KEY_TAG, key) + NumberField(COUNTER_TAG, counter) + TextField(CIPHERTEXT_TAG, ciphertext)
  }

  function EncodedPreKeyMessage(version: byte, oneTimeKey: seq<byte>, baseKey: seq<byte>, identityKey: seq<byte>,
                                message: seq<byte>): seq<byte> {
    [version] + TextField(ONE_TIME_KEY_ID_TAG, oneTimeKey) + TextField(BASE_KEY_TAG, baseKey)
    + TextField(IDENTITY_KEY_TAG, identityKey) + TextField(MESSAGE_TAG, message)
  }

  function EncodedGroupMessage(version: byte, index: uint32, ciphertext: seq<byte>): seq<byte> {
    [version] + NumberField(GROUP_MESSAGE_INDEX_TAG, index) + TextField(GROUP_CIPHERTEXT_TAG, ciphertext)
  }

  // ----- the formats, byte by byte

  lemma TextAdded(s: seq<byte>, tag: byte, bytes: seq<byte>)
    ensures s + TextField(tag, bytes) == s + [tag] + VarintBytes(|bytes|) + bytes
  {
    hide VarintBytes;
    Added(s, [tag], VarintBytes(|bytes|), bytes);
  }

  lemma Added(s: seq<byte>, a: seq<byte>, b: seq<byte>, c: seq<byte>)
    ensures s + (a + b + c) == s + a + b + c
  {
  }

  lemma NumberAdded(s: seq<byte>, tag: byte, value: nat)
    ensures s + NumberField(tag, value) == s + [tag] + VarintBytes(value)
  {
    hide VarintBytes;
    assert s + ([tag] + VarintBytes(value)) == s + [tag] + VarintBytes(value);
  }

  /** Version, ratchet key under 0x0A, counter under 0x10, ciphertext under 0x22. */
  lemma MessageLayout(version: byte, key: seq<byte>, counter: uint32, ciphertext: seq<byte>)
    ensures EncodedMessage(version, key, counter, ciphertext)
         == [version] + [0x0A] + VarintBytes(|key|) + key + [0x10] + VarintBytes(counter) + [0x22] + VarintBytes(|ciphertext|) + ciphertext
  {
    hide VarintBytes;
    hide TextField;
    hide NumberField;
    TextAdded([version], 0x0A, key);
    NumberAdded([version] + TextField(0x0A, key), 0x10, counter);
    TextAdded([version] + TextField(0x0A, key) + NumberField(0x10, counter), 0x22, ciphertext);
  }

  /** Version, one-time key under 0x0A, base key under 0x12, identity key under 0x1A, message under 0x22. */
  lemma PreKeyMessageLayout(version: byte, oneTimeKey: seq<byte>, baseKey: seq<byte>, identityKey: seq<byte>, message: seq<byte>)
    ensures EncodedPreKeyMessage(version, oneTimeKey, baseKey, identityKey, message)
         == [version] + [0x0A] + VarintBytes(|oneTimeKey|) + oneTimeKey + [0x12] + VarintBytes(|baseKey|) + baseKey
            + [0x1A] + VarintBytes(|identityKey|) + identityKey + [0x22] + VarintBytes(|message|) + message
  {
    hide VarintBytes;
    hide TextField;
    var one, two := [version] + TextField(0x0A, oneTimeKey), [version] + TextField(0x0A, oneTimeKey) + TextField(0x12, baseKey);
    TextAdded([version], 0x0A, oneTimeKey);
    TextAdded(one, 0x12, baseKey);
    TextAdded(two, 0x1A, identityKey);
    TextAdded(two + TextField(0x1A, identityKey), 0x22, message);
  }

  /** Version, index under 0x08, ciphertext under 0x12. */
  lemma GroupMessageLayout(version: byte, index: uint32, ciphertext: seq<byte>)
    ensures EncodedGroupMessage(version, index, ciphertext)
         == [version] + [0x08] + VarintBytes(index) + [0x12] + VarintBytes(|ciphertext|) + ciphertext
  {
    hide VarintBytes;
    hide TextField;
    hide NumberField;
    NumberAdded([version], 0x08, index);
    TextAdded([version] + NumberField(0x08, index), 0x12, ciphertext);
  }

  // ----- lengths

  function TextLengthOnWire(length: nat): nat {
    VarintLength(length) + length
  }

  function MessageLength(counter: uint32, keyLength: nat, ciphertextLength: nat, macLength: nat): nat {
    1 + (1 + TextLengthOnWire(keyLength)) + (1 + VarintLength(counter)) + (1 + TextLengthOnWire(ciphertextLength)) + macLength
  }

  function PreKeyMessageLength(oneTimeKeyLength: nat, identityKeyLength: nat, baseKeyLength: nat, messageLength: nat): nat {
    1 + (1 + TextLengthOnWire(oneTimeKeyLength)) + (1 + TextLengthOnWire(identityKeyLength))
    + (1 + TextLengthOnWire(baseKeyLength)) + (1 + TextLengthOnWire(messageLength))
  }

  function GroupMessageLength(index: uint32, ciphertextLength: nat, macLength: nat, signatureLength: nat): nat {
    1 + (1 + VarintLength(index)) + (1 + TextLengthOnWire(ciphertextLength)) + macLength + signatureLength
  }

  lemma FieldLengths(tag: byte, value: nat, bytes: seq<byte>)
    ensures |NumberField(tag, value)| == 1 + VarintLength(value)
    ensures |TextField(tag, bytes)| == 1 + TextLengthOnWire(|bytes|)
  {
    VarintRoundTrip(value, []);
    VarintRoundTrip(|bytes|, []);
  }

  /** The length functions count the bytes that the formats occupy. */
  lemma LengthsAreExact(version: byte, a: seq<byte>, b: seq<byte>, c: seq<byte>, d: seq<byte>, n: uint32, mac: seq<byte>, signature: seq<byte>)
    ensures |EncodedMessage(version, a, n, b) + mac| == MessageLength(n, |a|, |b|, |mac|)
    ensures |EncodedPreKeyMessage(version, a, b, c, d)| == PreKeyMessageLength(|a|, |c|, |b|, |d|)
    ensures |EncodedGroupMessage(version, n, a) + mac + signature| == GroupMessageLength(n, |a|, |mac|, |signature|)
  {
    hide NumberField;
    hide TextField;
    FieldLengths(0, n, a);
    FieldLengths(RATCHET_KEY_TAG, n, a);
    FieldLengths(COUNTER_TAG, n, a);
    FieldLengths(CIPHERTEXT_TAG, n, b);
    FieldLengths(BASE_KEY_TAG, n, b);
    FieldLengths(IDENTITY_KEY_TAG, n, c);
    FieldLengths(MESSAGE_TAG, n, d);
    FieldLengths(GROUP_MESSAGE_INDEX_TAG, n, a);
    FieldLengths(GROUP_CIPHERTEXT_TAG, n, a);
  }

  // ----- readers

  datatype MessageReader = MessageReader(version: Option<byte>, ratchetKey: Field, counter: Field, ciphertext: Field)
  datatype PreKeyMessageReader = PreKeyMessageReader(version: Option<byte>, oneTimeKey: Field, baseKey: Field, identityKey: Field, message: Field)
  datatype GroupMessageReader = GroupMessageReader(version: Option<byte>, index: Field, ciphertext: Field)

  /** What a decoder must return: nothing for an input no longer than its trailer, otherwise the
      first byte as version and the last value given for every tag. */
  ghost predicate Reads(input: seq<byte>, trailer: nat, tags: seq<byte>, version: Option<byte>, values: seq<Field>) {
    if |input| <= trailer then version == None && |values| == |tags| && forall k :: 0 <= k < |tags| ==> values[k] == Missing
    else version == Some(input[0]) && AllShow(input, values, Scan(input[1..|input| - trailer]), tags)
  }

  method DecodeBody(input: seq<byte>, trailer: nat, tags: seq<byte>) returns (version: Option<byte>, values: seq<Field>)
    requires KnownTags(tags)
    ensures |values| == |tags| && Reads(input, trailer, tags, version, values)
  {
    if |input| < trailer || |input| == trailer {
      return None, seq(|tags|, _ => Missing);
    }
    version := Some(input[0]);
    values := DecodeFields(input, 1, |input| - trailer, tags);
  }

  method DecodeMessage(input: seq<byte>, macLength: nat) returns (r: MessageReader)
    ensures Reads(input, macLength, MESSAGE_TAGS, r.version, [r.ratchetKey, r.counter, r.ciphertext])
  {
    hide Reads;
    var version, values := DecodeBody(input, macLength, MESSAGE_TAGS);
    assert values == [values[0], values[1], values[2]];
    r := MessageReader(version, values[0], values[1], values[2]);
  }

  method DecodePreKeyMessage(input: seq<byte>) returns (r: PreKeyMessageReader)
    ensures Reads(input, 0, PRE_KEY_TAGS, r.version, [r.oneTimeKey, r.baseKey, r.identityKey, r.message])
  {
    hide Reads;
    var version, values := DecodeBody(input, 0, PRE_KEY_TAGS);
    assert values == [values[0], values[1], values[2], values[3]];
    r := PreKeyMessageReader(version, values[0], values[1], values[2], values[3]);
  }

  method DecodeGroupMessage(input: seq<byte>, macLength: nat, signatureLength: nat) returns (r: GroupMessageReader)
    ensures Reads(input, macLength + signatureLength, GROUP_TAGS, r.version, [r.index, r.ciphertext])
  {
    hide Reads;
    var version, values := DecodeBody(input, macLength + signatureLength, GROUP_TAGS);
    assert values == [values[0], values[1]];
    r := GroupMessageReader(version, values[0], values[1]);
  }

  // ----- decoding undoes encoding

  lemma TextThen(tag: byte, bytes: seq<byte>, rest: seq<byte>)
    requires tag < 0x80 && tag % 8 == 2 && |bytes| < TWO_TO_THE_64
    ensures Scan(TextField(tag, bytes) + rest) == [Token([tag], Text(bytes))] + Scan(rest)
  {
    hide TextField;
    hide Scan;
    TextFieldIsField(tag, bytes);
    FieldReads(TextField(tag, bytes), rest);
  }

  lemma NumberThen(tag: byte, value: nat, rest: seq<byte>)
    requires tag < 0x80 && tag % 8 == 0
    ensures Scan(NumberField(tag, value) + rest) == [Token([tag], Number(value))] + Scan(rest)
  {
    hide NumberField;
    hide Scan;
    NumberFieldIsField(tag, value);
    FieldReads(NumberField(tag, value), rest);
  }

  lemma LastOf(first: Token, rest: seq<Token>, tag: byte)
    ensures Last([first] + rest, tag)
         == if Last(rest, tag).Some? then Last(rest, tag) else if first.tag == [tag] then Some(first.payload) else None
  {
    LastOfConcat([first], rest, tag);
    assert [first][..0] == [];
  }

  lemma MessageBody(key: seq<byte>, counter: uint32, ciphertext: seq<byte>)
    requires |key| < TWO_TO_THE_64 && |ciphertext| < TWO_TO_THE_64
    ensures Scan(TextField(RATCHET_KEY_TAG, key) + NumberField(COUNTER_TAG, counter) + TextField(CIPHERTEXT_TAG, ciphertext))
         == [Token([RATCHET_KEY_TAG], Text(key)), Token([COUNTER_TAG], Number(counter)), Token([CIPHERTEXT_TAG], Text(ciphertext))]
  {
    hide TextField;
    hide NumberField;
    hide Scan;
    var a, b, c := TextField(RATCHET_KEY_TAG, key), NumberField(COUNTER_TAG, counter), TextField(CIPHERTEXT_TAG, ciphertext);
    assert a + b + c == a + (b + (c + []));
    TextThen(RATCHET_KEY_TAG, key, b + (c + []));
    NumberThen(COUNTER_TAG, counter, c + []);
    TextThen(CIPHERTEXT_TAG, ciphertext, []);
    ScanNothing([]);
  }

  /** What the fields of an Olm message hold. */
  lemma MessageFields(version: byte, key: seq<byte>, counter: uint32, ciphertext: seq<byte>, mac: seq<byte>, input: seq<byte>)
    requires |key| < TWO_TO_THE_64 && |ciphertext| < TWO_TO_THE_64
    requires input == EncodedMessage(version, key, counter, ciphertext) + mac
    ensures |input| > |mac| && input[0] == version
    ensures var fields := Scan(input[1..|input| - |mac|]);
            && Last(fields, RATCHET_KEY_TAG) == Some(Text(key))
            && Last(fields, COUNTER_TAG) == Some(Number(counter))
            && Last(fields, CIPHERTEXT_TAG) == Some(Text(ciphertext))
  {
    hide TextField;
    hide NumberField;
    hide Scan;
    var body := TextField(RATCHET_KEY_TAG, key) + NumberField(COUNTER_TAG, counter) + TextField(CIPHERTEXT_TAG, ciphertext);
    assert input == [version] + body + mac;
    assert input[1..|input| - |mac|] == body;
    MessageBody(key, counter, ciphertext);
    var a, b, c := Token([RATCHET_KEY_TAG], Text(key)), Token([COUNTER_TAG], Number(counter)), Token([CIPHERTEXT_TAG], Text(ciphertext));
    assert [a, b, c] == [a] + ([b] + ([c] + []));
    forall tag: byte
      ensures Last([a, b, c], tag) == if c.tag == [tag] then Some(c.payload) else if b.tag == [tag] then Some(b.payload)
                                      else if a.tag == [tag] then Some(a.payload) else None
    {
      LastOf(a, [b] + ([c] + []), tag);
      LastOf(b, [c] + [], tag);
      LastOf(c, [], tag);
    }
  }

  /** Reading an Olm message back gives its version, key, counter and ciphertext, at all lengths. */
  lemma MessageRoundTrip(version: byte, key: seq<byte>, counter: uint32, ciphertext: seq<byte>, mac: seq<byte>,
                         input: seq<byte>, r: MessageReader)
    requires |key| < TWO_TO_THE_64 && |ciphertext| < TWO_TO_THE_64
    requires input == EncodedMessage(version, key, counter, ciphertext) + mac
    requires Reads(input, |mac|, MESSAGE_TAGS, r.version, [r.ratchetKey, r.counter, r.ciphertext])
    ensures r.version == Some(version) && r.counter == Count(counter)
    ensures Shows(input, r.ratchetKey, Some(Text(key))) && Shows(input, r.ciphertext, Some(Text(ciphertext)))
  {
    hide EncodedMessage;
    hide Scan;
    hide Last;
    MessageFields(version, key, counter, ciphertext, mac, input);
    var fields, values := Scan(input[1..|input| - |mac|]), [r.ratchetKey, r.counter, r.ciphertext];
    assert Shows(input, values[0], Last(fields, MESSAGE_TAGS[0]));
    assert Shows(input, values[1], Last(fields, MESSAGE_TAGS[1]));
    assert Shows(input, values[2], Last(fields, MESSAGE_TAGS[2]));
  }

  lemma GroupBody(index: uint32, ciphertext: seq<byte>)
    requires |ciphertext| < TWO_TO_THE_64
    ensures Scan(NumberField(GROUP_MESSAGE_INDEX_TAG, index) + TextField(GROUP_CIPHERTEXT_TAG, ciphertext))
         == [Token([GROUP_MESSAGE_INDEX_TAG], Number(index)), Token([GROUP_CIPHERTEXT_TAG], Text(ciphertext))]
  {
    hide TextField;
    hide NumberField;
    hide Scan;
    var a, b := NumberField(GROUP_MESSAGE_INDEX_TAG, index), TextField(GROUP_CIPHERTEXT_TAG, ciphertext);
    assert a + b == a + (b + []);
    NumberThen(GROUP_MESSAGE_INDEX_TAG, index, b + []);
    TextThen(GROUP_CIPHERTEXT_TAG, ciphertext, []);
    ScanNothing([]);
  }

  lemma GroupMessageRoundTrip(version: byte, index: uint32, ciphertext: seq<byte>, trailer: seq<byte>,
                              input: seq<byte>, r: GroupMessageReader)
    requires |ciphertext| < TWO_TO_THE_64
    requires input == EncodedGroupMessage(version, index, ciphertext) + trailer
    requires Reads(input, |trailer|, GROUP_TAGS, r.version, [r.index, r.ciphertext])
    ensures r.version == Some(version) && r.index == Count(index)
    ensures Shows(input, r.ciphertext, Some(Text(ciphertext)))
  {
    hide TextField;
    hide NumberField;
    hide Scan;
    var body := NumberField(GROUP_MESSAGE_INDEX_TAG, index) + TextField(GROUP_CIPHERTEXT_TAG, ciphertext);
    assert input == [version] + body + trailer;
    assert input[1..|input| - |trailer|] == body;
    GroupBody(index, ciphertext);
    var a, b := Token([GROUP_MESSAGE_INDEX_TAG], Number(index)), Token([GROUP_CIPHERTEXT_TAG], Text(ciphertext));
    assert [a, b] == [a] + ([b] + []);
    forall tag: byte
      ensures Last([a, b], tag) == if b.tag == [tag] then Some(b.payload) else if a.tag == [tag] then Some(a.payload) else None
    {
      LastOf(a, [b] + [], tag);
      LastOf(b, [], tag);
    }
    var values := [r.index, r.ciphertext];
    assert Shows(input, values[0], Last([a, b], GROUP_TAGS[0]));
    assert Shows(input, values[1], Last([a, b], GROUP_TAGS[1]));
  }

  lemma PreKeyBody(oneTimeKey: seq<byte>, baseKey: seq<byte>, identityKey: seq<byte>, message: seq<byte>)
    requires |oneTimeKey| < TWO_TO_THE_64 && |baseKey| < TWO_TO_THE_64 && |identityKey| < TWO_TO_THE_64 && |message| < TWO_TO_THE_64
    ensures Scan(TextField(ONE_TIME_KEY_ID_TAG, oneTimeKey) + TextField(BASE_KEY_TAG, baseKey)
                 + TextField(IDENTITY_KEY_TAG, identityKey) + TextField(MESSAGE_TAG, message))
         == [Token([ONE_TIME_KEY_ID_TAG], Text(oneTimeKey)), Token([BASE_KEY_TAG], Text(baseKey)),
             Token([IDENTITY_KEY_TAG], Text(identityKey)), Token([MESSAGE_TAG], Text(message))]
  {
    hide TextField;
    hide Scan;
    var a, b := TextField(ONE_TIME_KEY_ID_TAG, oneTimeKey), TextField(BASE_KEY_TAG, baseKey);
    var c, d := TextField(IDENTITY_KEY_TAG, identityKey), TextField(MESSAGE_TAG, message);
    assert a + b + c + d == a + (b + (c + (d + [])));
    TextThen(ONE_TIME_KEY_ID_TAG, oneTimeKey, b + (c + (d + [])));
    TextThen(BASE_KEY_TAG, baseKey, c + (d + []));
    TextThen(IDENTITY_KEY_TAG, identityKey, d + []);
    TextThen(MESSAGE_TAG, message, []);
    ScanNothing([]);
  }

  lemma PreKeyMessageRoundTrip(version: byte, oneTimeKey: seq<byte>, baseKey: seq<byte>, identityKey: seq<byte>, message: seq<byte>,
                               input: seq<byte>, r: PreKeyMessageReader)
    requires |oneTimeKey| < TWO_TO_THE_64 && |baseKey| < TWO_TO_THE_64 && |identityKey| < TWO_TO_THE_64 && |message| < TWO_TO_THE_64
    requires input == EncodedPreKeyMessage(version, oneTimeKey, baseKey, identityKey, message)
    requires Reads(input, 0, PRE_KEY_TAGS, r.version, [r.oneTimeKey, r.baseKey, r.identityKey, r.message])
    ensures r.version == Some(version)
    ensures Shows(input, r.oneTimeKey, Some(Text(oneTimeKey))) && Shows(input, r.baseKey, Some(Text(baseKey)))
    ensures Shows(input, r.identityKey, Some(Text(identityKey))) && Shows(input, r.message, Some(Text(message)))
  {
    hide TextField;
    hide Scan;
    var body := TextField(ONE_TIME_KEY_ID_TAG, oneTimeKey) + TextField(BASE_KEY_TAG, baseKey)
                + TextField(IDENTITY_KEY_TAG, identityKey) + TextField(MESSAGE_TAG, message);
    assert input == [version] + body;
    assert input[1..|input| - 0] == body;
    PreKeyBody(oneTimeKey, baseKey, identityKey, message);
    var a, b := Token([ONE_TIME_KEY_ID_TAG], Text(oneTimeKey)), Token([BASE_KEY_TAG], Text(baseKey));
    var c, d := Token([IDENTITY_KEY_TAG], Text(identityKey)), Token([MESSAGE_TAG], Text(message));
    assert [a, b, c, d] == [a] + ([b] + ([c] + ([d] + [])));
    forall tag: byte
      ensures Last([a, b, c, d], tag)
           == if d.tag == [tag] then Some(d.payload) else if c.tag == [tag] then Some(c.payload)
              else if b.tag == [tag] then Some(b.payload) else if a.tag == [tag] then Some(a.payload) else None
    {
      LastOf(a, [b] + ([c] + ([d] + [])), tag);
      LastOf(b, [c] + ([d] + []), tag);
      LastOf(c, [d] + [], tag);
      LastOf(d, [], tag);
    }
    var values := [r.oneTimeKey, r.baseKey, r.identityKey, r.message];
    assert Shows(input, values[0], Last([a, b, c, d], PRE_KEY_TAGS[0]));
    assert Shows(input, values[1], Last([a, b, c, d], PRE_KEY_TAGS[1]));
    assert Shows(input, values[2], Last([a, b, c, d], PRE_KEY_TAGS[2]));
    assert Shows(input, values[3], Last([a, b, c, d], PRE_KEY_TAGS[3]));
  }

  // ----- writers: headers are written around gaps that the caller fills in

  method EncodeNumber(output: array<byte>, pos: nat, tag: byte, value: uint32) returns (end: nat)
    requires pos + 1 + VarintLength(value) <= output.Length
    modifies output
    ensures end == pos + |NumberField(tag, value)| == pos + 1 + VarintLength(value)
    ensures output[..] == Overwritten(old(output[..]), pos, NumberField(tag, value))
  {
    hide Overwritten;
    PutByte(output, pos, tag);
    end := EncodeVarint(output, pos + 1, value);
    OverwrittenTwice(old(output[..]), pos, [tag], VarintBytes(value));
  }

  /** Writes the tag and the length, and leaves room for the text at `value`. */
  method EncodeText(output: array<byte>, pos: nat, tag: byte, length: nat) returns (value: nat, end: nat)
    requires pos + 1 + TextLengthOnWire(length) <= output.Length
    modifies output
    ensures value == pos + 1 + |VarintBytes(length)| && |VarintBytes(length)| == VarintLength(length) && end == value + length
    ensures output[..] == Overwritten(old(output[..]), pos, [tag] + VarintBytes(length))
  {
    hide Overwritten;
    PutByte(output, pos, tag);
    value := EncodeVarint(output, pos + 1, length);
    end := value + length;
    OverwrittenTwice(old(output[..]), pos, [tag], VarintBytes(length));
  }

  /** The bytes from base to end are an Olm message whose gaps hold whatever they hold. */
  ghost predicate HoldsMessage(s: seq<byte>, base: nat, version: byte, counter: uint32, key: nat, keyLength: nat, ciphertext: nat, end: nat) {
    && base <= key && key + keyLength <= ciphertext <= end <= |s|
    && s[base..key] == [version, RATCHET_KEY_TAG] + VarintBytes(keyLength)
    && s[key + keyLength..ciphertext] == NumberField(COUNTER_TAG, counter) + [CIPHERTEXT_TAG] + VarintBytes(end - ciphertext)
  }

  lemma FilledInMessage(s: seq<byte>, base: nat, version: byte, counter: uint32, key: nat, keyLength: nat, ciphertext: nat, end: nat)
    requires HoldsMessage(s, base, version, counter, key, keyLength, ciphertext, end)
    ensures s[base..end] == EncodedMessage(version, s[key..key + keyLength], counter, s[ciphertext..end])
  {
    hide NumberField;
    hide VarintBytes;
    Cut(s, base, key, end);
    Cut(s, key, key + keyLength, end);
    Cut(s, key + keyLength, ciphertext, end);
  }

  method EncodeMessage(output: array<byte>, base: nat, version: byte, counter: uint32, keyLength: nat, ciphertextLength: nat)
    returns (key: nat, ciphertext: nat, end: nat)
    requires base + MessageLength(counter, keyLength, ciphertextLength, 0) <= output.Length
    modifies output
    ensures end == base + MessageLength(counter, keyLength, ciphertextLength, 0) && end == ciphertext + ciphertextLength
    ensures HoldsMessage(output[..], base, version, counter, key, keyLength, ciphertext, end)
    ensures output[..][0..base] == old(output[..])[0..base]
    ensures output[..][end..output.Length] == old(output[..])[end..output.Length]
  {
    hide VarintBytes;
    hide VarintLength;
    hide NumberField;
    hide TextField;
    hide Overwritten;
    var pos := base;
    PutByte(output, pos, version);
    pos := pos + 1;
    var afterKey;
    key, afterKey := EncodeText(output, pos, RATCHET_KEY_TAG, keyLength);
    ghost var head := [RATCHET_KEY_TAG] + VarintBytes(keyLength);
    ghost var s2 := output[..];
    OverwrittenTwice(old(output[..]), base, [version], head);
    assert [version] + head == [version, RATCHET_KEY_TAG] + VarintBytes(keyLength);
    OverwrittenAt(old(output[..]), base, [version] + head);
    pos := EncodeNumber(output, afterKey, COUNTER_TAG, counter);
    ciphertext, end := EncodeText(output, pos, CIPHERTEXT_TAG, ciphertextLength);
    ghost var tail := NumberField(COUNTER_TAG, counter) + ([CIPHERTEXT_TAG] + VarintBytes(ciphertextLength));
    OverwrittenTwice(s2, afterKey, NumberField(COUNTER_TAG, counter), [CIPHERTEXT_TAG] + VarintBytes(ciphertextLength));
    assert tail == NumberField(COUNTER_TAG, counter) + [CIPHERTEXT_TAG] + VarintBytes(ciphertextLength);
    OverwrittenAt(s2, afterKey, tail);
    OverwrittenElsewhere(s2, afterKey, tail, base, key);
    OverwrittenElsewhere(s2, afterKey, tail, 0, base);
    OverwrittenElsewhere(s2, afterKey, tail, end, output.Length);
    OverwrittenElsewhere(old(output[..]), base, [version] + head, 0, base);
    OverwrittenElsewhere(old(output[..]), base, [version] + head, end, output.Length);
  }

  /** From pos on there is the header of a text that lies between value and end. */
  ghost predicate HoldsText(s: seq<byte>, pos: nat, tag: byte, value: nat, end: nat) {
    pos <= value <= end <= |s| && s[pos..value] == [tag] + VarintBytes(end - value)
  }

  lemma FilledInText(s: seq<byte>, pos: nat, tag: byte, value: nat, end: nat)
    requires HoldsText(s, pos, tag, value, end)
    ensures s[pos..end] == TextField(tag, s[value..end])
  {
    hide VarintBytes;
    Cut(s, pos, value, end);
  }

  /** The bytes from base to end are a pre-key message, whatever its four texts hold. */
  ghost predicate HoldsPreKeyMessage(s: seq<byte>, base: nat, version: byte, oneTimeKey: nat, a: nat, baseKey: nat, b: nat,
                                     identityKey: nat, c: nat, message: nat, end: nat) {
    && base < |s| && s[base] == version
    && HoldsText(s, base + 1, ONE_TIME_KEY_ID_TAG, oneTimeKey, a)
    && HoldsText(s, a, BASE_KEY_TAG, baseKey, b)
    && HoldsText(s, b, IDENTITY_KEY_TAG, identityKey, c)
    && HoldsText(s, c, MESSAGE_TAG, message, end)
  }

  lemma FilledInPreKeyMessage(s: seq<byte>, base: nat, version: byte, oneTimeKey: nat, a: nat, baseKey: nat, b: nat,
                              identityKey: nat, c: nat, message: nat, end: nat)
    requires HoldsPreKeyMessage(s, base, version, oneTimeKey, a, baseKey, b, identityKey, c, message, end)
    ensures oneTimeKey <= a && baseKey <= b && identityKey <= c && message <= end && base <= end <= |s|
    ensures a <= |s| && b <= |s| && c <= |s|
    ensures s[base..end] == EncodedPreKeyMessage(version, s[oneTimeKey..a], s[baseKey..b], s[identityKey..c], s[message..end])
  {
    hide TextField;
    hide VarintBytes;
    FilledInText(s, base + 1, ONE_TIME_KEY_ID_TAG, oneTimeKey, a);
    FilledInText(s, a, BASE_KEY_TAG, baseKey, b);
    FilledInText(s, b, IDENTITY_KEY_TAG, identityKey, c);
    FilledInText(s, c, MESSAGE_TAG, message, end);
    FiveParts(s, base, base + 1, a, b, c, end);
    assert s[base..base + 1] == [version];
  }

  lemma FiveParts(s: seq<byte>, p: nat, q: nat, a: nat, b: nat, c: nat, d: nat)
    requires p <= q <= a <= b <= c <= d <= |s|
    ensures s[p..d] == s[p..q] + s[q..a] + s[a..b] + s[b..c] + s[c..d]
  {
    Cut(s, p, q, a);
    Cut(s, p, a, b);
    Cut(s, p, b, c);
    Cut(s, p, c, d);
  }

  /** One text of a message being written: everything before its header, and after its end, is as it was. */
  method AppendText(output: array<byte>, pos: nat, tag: byte, length: nat) returns (value: nat, end: nat)
    requires pos + 1 + TextLengthOnWire(length) <= output.Length
    modifies output
    ensures end == value + length == pos + 1 + TextLengthOnWire(length)
    ensures HoldsText(output[..], pos, tag, value, end) && pos < value
    ensures output[..][0..pos] == old(output[..])[0..pos]
    ensures output[..][end..output.Length] == old(output[..])[end..output.Length]
  {
    hide VarintBytes;
    hide VarintLength;
    hide Overwritten;
    ghost var before: seq<byte>, header := output[..], [tag] + VarintBytes(length);
    value, end := EncodeText(output, pos, tag, length);
    OverwrittenAt(before, pos, header);
    OverwrittenElsewhere(before, pos, header, 0, pos);
    OverwrittenElsewhere(before, pos, header, end, output.Length);
  }

  lemma EarlierKept(s: seq<byte>, t: seq<byte>, pos: nat, a: nat, b: nat)
    requires |s| == |t| && a <= b <= pos <= |s| && s[0..pos] == t[0..pos]
    ensures s[a..b] == t[a..b]
  {
    SliceOfSlice(s, 0, pos, a, b);
    SliceOfSlice(t, 0, pos, a, b);
  }

  lemma LaterKept(s: seq<byte>, t: seq<byte>, from: nat, end: nat)
    requires |s| == |t| && from <= end <= |s| && s[from..|s|] == t[from..|s|]
    ensures s[end..|s|] == t[end..|s|]
  {
    SliceOfSlice(s, from, |s|, end - from, |s| - from);
    SliceOfSlice(t, from, |s|, end - from, |s| - from);
  }

  method EncodePreKeyMessage(output: array<byte>, base: nat, version: byte, identityKeyLength: nat, baseKeyLength: nat,
                             oneTimeKeyLength: nat, messageLength: nat)
    returns (oneTimeKey: nat, baseKey: nat, identityKey: nat, message: nat, end: nat)
    requires base + PreKeyMessageLength(oneTimeKeyLength, identityKeyLength, baseKeyLength, messageLength) <= output.Length
    modifies output
    ensures end == base + PreKeyMessageLength(oneTimeKeyLength, identityKeyLength, baseKeyLength, messageLength)
    ensures end == message + messageLength
    ensures HoldsPreKeyMessage(output[..], base, version, oneTimeKey, oneTimeKey + oneTimeKeyLength, baseKey, baseKey + baseKeyLength,
                               identityKey, identityKey + identityKeyLength, message, end)
    ensures output[..][0..base] == old(output[..])[0..base]
    ensures output[..][end..output.Length] == old(output[..])[end..output.Length]
  {
    hide HoldsText;
    hide TextLengthOnWire;
    ghost var s0: seq<byte> := output[..];
    output[base] := version;
    ghost var s1: seq<byte> := output[..];
    assert s1[0..base] == s0[0..base] && s1[base + 1..|s1|] == s0[base + 1..|s0|];
    var a, b, c;
    oneTimeKey, a := AppendText(output, base + 1, ONE_TIME_KEY_ID_TAG, oneTimeKeyLength);
    ghost var s2: seq<byte> := output[..];
    baseKey, b := AppendText(output, a, BASE_KEY_TAG, baseKeyLength);
    ghost var s3: seq<byte> := output[..];
    identityKey, c := AppendText(output, b, IDENTITY_KEY_TAG, identityKeyLength);
    ghost var s4: seq<byte> := output[..];
    message, end := AppendText(output, c, MESSAGE_TAG, messageLength);
    ghost var s5: seq<byte> := output[..];
    FirstTextKept(s2, s3, s4, s5, base + 1, ONE_TIME_KEY_ID_TAG, oneTimeKey, a, b, c);
    TextKept(s3, s4, a, BASE_KEY_TAG, baseKey, b, b);
    TextKept(s4, s5, a, BASE_KEY_TAG, baseKey, b, c);
    TextKept(s4, s5, b, IDENTITY_KEY_TAG, identityKey, c, c);
    AroundKept(s0, s1, s2, s3, s4, s5, base, version, a, b, c, end);
  }

  lemma FirstTextKept(s2: seq<byte>, s3: seq<byte>, s4: seq<byte>, s5: seq<byte>, pos: nat, tag: byte, value: nat, a: nat, b: nat, c: nat)
    requires |s2| == |s3| == |s4| == |s5| && a <= b <= c <= |s2| && HoldsText(s2, pos, tag, value, a)
    requires s3[0..a] == s2[0..a] && s4[0..b] == s3[0..b] && s5[0..c] == s4[0..c]
    ensures HoldsText(s5, pos, tag, value, a)
  {
    hide HoldsText;
    TextKept(s2, s3, pos, tag, value, a, a);
    TextKept(s3, s4, pos, tag, value, a, b);
    TextKept(s4, s5, pos, tag, value, a, c);
  }

  lemma AroundKept(s0: seq<byte>, s1: seq<byte>, s2: seq<byte>, s3: seq<byte>, s4: seq<byte>, s5: seq<byte>, base: nat, version: byte,
                   a: nat, b: nat, c: nat, end: nat)
    requires |s0| == |s1| == |s2| == |s3| == |s4| == |s5| && base < a <= b <= c <= end <= |s0| && s1[base] == version
    requires s1[0..base] == s0[0..base] && s1[base + 1..|s1|] == s0[base + 1..|s0|]
    requires s2[0..base + 1] == s1[0..base + 1] && s2[a..|s2|] == s1[a..|s1|]
    requires s3[0..a] == s2[0..a] && s3[b..|s3|] == s2[b..|s2|]
    requires s4[0..b] == s3[0..b] && s4[c..|s4|] == s3[c..|s3|]
    requires s5[0..c] == s4[0..c] && s5[end..|s5|] == s4[end..|s4|]
    ensures s5[base] == version && s5[0..base] == s0[0..base] && s5[end..|s5|] == s0[end..|s0|]
  {
    FrontKept(s1, s2, base + 1, base, version);
    FrontKept(s2, s3, a, base, version);
    FrontKept(s3, s4, b, base, version);
    FrontKept(s4, s5, c, base, version);
    LaterKept(s4, s3, c, end);
    LaterKept(s3, s2, b, end);
    LaterKept(s2, s1, a, end);
    LaterKept(s1, s0, base + 1, end);
  }

  lemma TextKept(s: seq<byte>, t: seq<byte>, pos: nat, tag: byte, value: nat, end: nat, kept: nat)
    requires HoldsText(s, pos, tag, value, end) && |t| == |s| && end <= kept <= |s| && t[0..kept] == s[0..kept]
    ensures HoldsText(t, pos, tag, value, end)
  {
    hide VarintBytes;
    EarlierKept(t, s, kept, pos, value);
  }

  lemma FrontKept(s: seq<byte>, t: seq<byte>, kept: nat, base: nat, version: byte)
    requires |t| == |s| && base < kept <= |s| && t[0..kept] == s[0..kept] && s[base] == version
    ensures t[base] == version && t[0..base] == s[0..base]
  {
    EarlierKept(t, s, kept, 0, base);
    assert t[0..kept][base] == s[0..kept][base];
  }

  ghost predicate HoldsGroupMessage(s: seq<byte>, base: nat, version: byte, index: uint32, ciphertext: nat, end: nat) {
    && base <= ciphertext <= end <= |s|
    && s[base..ciphertext] == [version] + NumberField(GROUP_MESSAGE_INDEX_TAG, index) + [GROUP_CIPHERTEXT_TAG] + VarintBytes(end - ciphertext)
  }

  lemma FilledInGroupMessage(s: seq<byte>, base: nat, version: byte, index: uint32, ciphertext: nat, end: nat)
    requires HoldsGroupMessage(s, base, version, index, ciphertext, end)
    ensures s[base..end] == EncodedGroupMessage(version, index, s[ciphertext..end])
  {
    hide NumberField;
    hide VarintBytes;
    assert s[base..end] == s[base..ciphertext] + s[ciphertext..end];
  }

  method EncodeGroupMessage(output: array<byte>, base: nat, version: byte, index: uint32, ciphertextLength: nat)
    returns (ciphertext: nat, end: nat)
    requires base + GroupMessageLength(index, ciphertextLength, 0, 0) <= output.Length
    modifies output
    ensures end == base + GroupMessageLength(index, ciphertextLength, 0, 0) && end == ciphertext + ciphertextLength
    ensures HoldsGroupMessage(output[..], base, version, index, ciphertext, end)
    ensures output[..][0..base] == old(output[..])[0..base]
    ensures output[..][end..output.Length] == old(output[..])[end..output.Length]
  {
    hide VarintBytes;
    hide VarintLength;
    hide NumberField;
    hide TextField;
    hide Overwritten;
    PutByte(output, base, version);
    var pos := EncodeNumber(output, base + 1, GROUP_MESSAGE_INDEX_TAG, index);
    ghost var head := [version] + NumberField(GROUP_MESSAGE_INDEX_TAG, index);
    OverwrittenTwice(old(output[..]), base, [version], NumberField(GROUP_MESSAGE_INDEX_TAG, index));
    ciphertext, end := EncodeText(output, pos, GROUP_CIPHERTEXT_TAG, ciphertextLength);
    ghost var all := head + ([GROUP_CIPHERTEXT_TAG] + VarintBytes(ciphertextLength));
    OverwrittenTwice(old(output[..]), base, head, [GROUP_CIPHERTEXT_TAG] + VarintBytes(ciphertextLength));
    assert all == head + [GROUP_CIPHERTEXT_TAG] + VarintBytes(ciphertextLength);
    OverwrittenAt(old(output[..]), base, all);
    OverwrittenElsewhere(old(output[..]), base, all, 0, base);
    OverwrittenElsewhere(old(output[..]), base, all, end, output.Length);
  }
}
