/** What is persisted, and in which order: sessions, accounts and group sessions (src/session.cpp, src/ratchet.cpp,
    src/account.cpp, src/inbound_group_session.c, src/outbound_group_session.c, src/olm.cpp). */
module Persistence {
  import opened Words
  import opened Base64
  import opened Cipher
  import opened Pickle
  import opened PickleEncoding
  import Megolm
  import RatchetBytes
  import GroupSession

  type Key32 = RatchetBytes.Key32
  type Key64 = k: seq<byte> | |k| == 64 witness seq(64, _ => 0)

  datatype EdPair = EdPair(public: Key32, private: Key64)

  datatype StoredSession = StoredSession(
    receivedMessage: bool, aliceIdentityKey: Key32, aliceBaseKey: Key32, bobOneTimeKey: Key32, ratchet: RatchetBytes.Ratchet)
  {
    predicate Fits() {
      ratchet.Fits()
    }
  }

  datatype StoredOneTimeKey = StoredOneTimeKey(id: uint32, published: bool, key: RatchetBytes.CurvePair)

  datatype StoredAccount = StoredAccount(identity: EdPair, curve: RatchetBytes.CurvePair, oneTimeKeys: seq<StoredOneTimeKey>, nextId: uint32)
  {
    predicate Fits() {
      |oneTimeKeys| <= 100000
    }
  }

  datatype StoredOutbound = StoredOutbound(ratchet: Megolm.State, key: EdPair)

  // ----- layouts

  const SENDER_SHAPES := [BytesShape(32), BytesShape(32), BytesShape(32), WordShape]
  const INDEXED_SHAPES := [BytesShape(32), BytesShape(32), WordShape]
  const ONE_TIME_KEY_SHAPES := [WordShape, FlagShape, BytesShape(32), BytesShape(32)]

  const SESSION_SHAPES := [
    FieldsOf([FlagShape, BytesShape(32), BytesShape(32), BytesShape(32), BytesShape(32)]),
    ListOf(1, SENDER_SHAPES), ListOf(5, INDEXED_SHAPES), ListOf(40, INDEXED_SHAPES)]

  /** Pickles of another branch end in a chain index. */
  const LOGGED_SESSION_SHAPES := SESSION_SHAPES + [FieldsOf([WordShape])]

  const ACCOUNT_SHAPES := [
    FieldsOf([BytesShape(32), BytesShape(64), BytesShape(32), BytesShape(32)]),
    ListOf(100000, ONE_TIME_KEY_SHAPES), FieldsOf([WordShape])]

  const OUTBOUND_SHAPES := [FieldsOf([BytesShape(128), WordShape, BytesShape(32), BytesShape(64)])]
  const INBOUND_SHAPES := [FieldsOf([BytesShape(128), WordShape, BytesShape(128), WordShape, BytesShape(32), FlagShape])]
  /** Before the mark of verification was kept. */
  const OLD_INBOUND_SHAPES := [FieldsOf([BytesShape(128), WordShape, BytesShape(128), WordShape, BytesShape(32)])]

  function SenderRecord(c: RatchetBytes.Sender): Record {
    [Bytes(c.ratchetKey.public), Bytes(c.ratchetKey.private), Bytes(c.key), Word(c.index)]
  }

  function IndexedRecord(c: RatchetBytes.Indexed): Record {
    [Bytes(c.ratchetKey), Bytes(c.key), Word(c.index)]
  }

  function OneTimeKeyRecord(k: StoredOneTimeKey): Record {
    [Word(k.id), Flag(k.published), Bytes(k.key.public), Bytes(k.key.private)]
  }

  function SessionObject(s: StoredSession): seq<Section> {
    [Fields([Flag(s.receivedMessage), Bytes(s.aliceIdentityKey), Bytes(s.aliceBaseKey), Bytes(s.bobOneTimeKey), Bytes(s.ratchet.rootKey)]),
     Items(seq(|s.ratchet.senders|, i requires 0 <= i < |s.ratchet.senders| => SenderRecord(s.ratchet.senders[i]))),
     Items(seq(|s.ratchet.receivers|, i requires 0 <= i < |s.ratchet.receivers| => IndexedRecord(s.ratchet.receivers[i]))),
     Items(seq(|s.ratchet.skipped|, i requires 0 <= i < |s.ratchet.skipped| => IndexedRecord(s.ratchet.skipped[i])))]
  }

  function AccountObject(a: StoredAccount): seq<Section> {
    [Fields([Bytes(a.identity.public), Bytes(a.identity.private), Bytes(a.curve.public), Bytes(a.curve.private)]),
     Items(seq(|a.oneTimeKeys|, i requires 0 <= i < |a.oneTimeKeys| => OneTimeKeyRecord(a.oneTimeKeys[i]))),
     Fields([Word(a.nextId)])]
  }

  function OutboundObject(s: StoredOutbound): seq<Section> {
    [Fields([Bytes(GroupSession.RatchetBytes(s.ratchet.data)), Word(s.ratchet.counter), Bytes(s.key.public), Bytes(s.key.private)])]
  }

  function InboundObject(s: GroupSession.Inbound): seq<Section> {
    [Fields([Bytes(GroupSession.RatchetBytes(s.initial.data)), Word(s.initial.counter),
             Bytes(GroupSession.RatchetBytes(s.latest.data)), Word(s.latest.counter), Bytes(s.key), Flag(s.verified)])]
  }

  // ----- layouts, byte by byte

  function SenderRun(chains: seq<RatchetBytes.Sender>): seq<byte> {
    if chains == [] then [] else
      var c := chains[0];
      [] + c.ratchetKey.public + c.ratchetKey.private + c.key + BigEndian32(c.index) + SenderRun(chains[1..])
  }

  function IndexedRun(chains: seq<RatchetBytes.Indexed>): seq<byte> {
    if chains == [] then [] else
      var c := chains[0];
      [] + c.ratchetKey + c.key + BigEndian32(c.index) + IndexedRun(chains[1..])
  }

  function OneTimeKeyRun(keys: seq<StoredOneTimeKey>): seq<byte> {
    if keys == [] then [] else
      var k := keys[0];
      BigEndian32(k.id) + [if k.published then 1 else 0] + k.key.public + k.key.private + OneTimeKeyRun(keys[1..])
  }

  lemma SenderPickled(c: RatchetBytes.Sender)
    ensures PickledRecord(SenderRecord(c)) == [] + c.ratchetKey.public + c.ratchetKey.private + c.key + BigEndian32(c.index)
  {
    hide BigEndian32;
    FourValues(Bytes(c.ratchetKey.public), Bytes(c.ratchetKey.private), Bytes(c.key), Word(c.index));
  }

  lemma {:induction false} SendersPickled(chains: seq<RatchetBytes.Sender>, items: seq<Record>)
    requires |items| == |chains| && forall i :: 0 <= i < |chains| ==> items[i] == SenderRecord(chains[i])
    ensures PickledItems(items) == SenderRun(chains)
  {
    hide BigEndian32;
    if chains != [] {
      SendersPickled(chains[1..], items[1..]);
      SenderPickled(chains[0]);
      hide SenderRecord;
      hide PickledRecord;
    }
  }

  lemma {:induction false} IndexedPickled(chains: seq<RatchetBytes.Indexed>, items: seq<Record>)
    requires |items| == |chains| && forall i :: 0 <= i < |chains| ==> items[i] == IndexedRecord(chains[i])
    ensures PickledItems(items) == IndexedRun(chains)
  {
    hide BigEndian32;
    if chains != [] {
      IndexedPickled(chains[1..], items[1..]);
      var c := chains[0];
      ThreeValues(Bytes(c.ratchetKey), Bytes(c.key), Word(c.index));
    }
  }

  lemma {:induction false} OneTimeKeysPickled(keys: seq<StoredOneTimeKey>, items: seq<Record>)
    requires |items| == |keys| && forall i :: 0 <= i < |keys| ==> items[i] == OneTimeKeyRecord(keys[i])
    ensures PickledItems(items) == OneTimeKeyRun(keys)
  {
    hide BigEndian32;
    if keys != [] {
      OneTimeKeysPickled(keys[1..], items[1..]);
      var k := keys[0];
      FourValues(Word(k.id), Flag(k.published), Bytes(k.key.public), Bytes(k.key.private));
    }
  }

  lemma ThreeValues(a: Pickle.Value, b: Pickle.Value, c: Pickle.Value)
    ensures PickledRecord([a, b, c]) == PickledValue(a) + PickledValue(b) + PickledValue(c)
  {
    hide PickledValue;
    assert [a, b, c][1..] == [b, c] && [b, c][1..] == [c] && [c][1..] == [];
    assert PickledRecord([c]) == PickledValue(c) + [];
    assert PickledRecord([b, c]) == PickledValue(b) + PickledRecord([c]);
  }

  lemma FourValues(a: Pickle.Value, b: Pickle.Value, c: Pickle.Value, d: Pickle.Value)
    ensures PickledRecord([a, b, c, d]) == PickledValue(a) + PickledValue(b) + PickledValue(c) + PickledValue(d)
  {
    hide PickledValue;
    ThreeValues(b, c, d);
    assert [a, b, c, d][1..] == [b, c, d];
  }

  function Counted(n: nat, run: seq<byte>): seq<byte> {
    BigEndian32(n % 0x1_0000_0000) + run
  }

  lemma SessionSections(s: StoredSession, mark: seq<byte>)
    requires mark == [if s.receivedMessage then 1 else 0]
    ensures var o, r := SessionObject(s), s.ratchet;
            && PickledSection(o[0]) == mark + s.aliceIdentityKey + s.aliceBaseKey + s.bobOneTimeKey + r.rootKey
            && PickledSection(o[1]) == Counted(|r.senders|, SenderRun(r.senders))
            && PickledSection(o[2]) == Counted(|r.receivers|, IndexedRun(r.receivers))
            && PickledSection(o[3]) == Counted(|r.skipped|, IndexedRun(r.skipped))
  {
    hide BigEndian32;
    hide SenderRun;
    hide IndexedRun;
    hide PickledItems;
    var o := SessionObject(s);
    SendersPickled(s.ratchet.senders, o[1].items);
    IndexedPickled(s.ratchet.receivers, o[2].items);
    IndexedPickled(s.ratchet.skipped, o[3].items);
    FiveValues(Flag(s.receivedMessage), Bytes(s.aliceIdentityKey), Bytes(s.aliceBaseKey), Bytes(s.bobOneTimeKey), Bytes(s.ratchet.rootKey));
    hide PickledRecord;
  }

  /** A pickled session: version 1, the mark of having received, the three identifying keys, the root key, and the sender chains, receiver
      chains and skipped keys, each run after its count. */
  lemma SessionLayout(s: StoredSession, mark: seq<byte>)
    requires mark == [if s.receivedMessage then 1 else 0]
    ensures RawPickle(1, SessionObject(s))
         == [0, 0, 0, 1] + (mark + s.aliceIdentityKey + s.aliceBaseKey + s.bobOneTimeKey + s.ratchet.rootKey
                            + Counted(|s.ratchet.senders|, SenderRun(s.ratchet.senders))
                            + Counted(|s.ratchet.receivers|, IndexedRun(s.ratchet.receivers))
                            + Counted(|s.ratchet.skipped|, IndexedRun(s.ratchet.skipped)))
  {
    assert BigEndian32(1) == [0, 0, 0, 1];
    SessionSections(s, mark);
    var o := SessionObject(s);
    FourSections(o[0], o[1], o[2], o[3]);
    assert o == [o[0], o[1], o[2], o[3]];
    hide *;
  }

  lemma FiveValues(a: Pickle.Value, b: Pickle.Value, c: Pickle.Value, d: Pickle.Value, e: Pickle.Value)
    ensures PickledRecord([a, b, c, d, e]) == PickledValue(a) + PickledValue(b) + PickledValue(c) + PickledValue(d) + PickledValue(e)
  {
    hide PickledValue;
    FourValues(b, c, d, e);
    assert [a, b, c, d, e][1..] == [b, c, d, e];
  }

  lemma ThreeSections(a: Section, b: Section, c: Section)
    ensures Pickled([a, b, c]) == PickledSection(a) + PickledSection(b) + PickledSection(c)
  {
    hide PickledSection;
    assert [a, b, c][1..] == [b, c] && [b, c][1..] == [c] && [c][1..] == [];
    assert Pickled([c]) == PickledSection(c) + [];
    assert Pickled([b, c]) == PickledSection(b) + Pickled([c]);
  }

  lemma FourSections(a: Section, b: Section, c: Section, d: Section)
    ensures Pickled([a, b, c, d]) == PickledSection(a) + PickledSection(b) + PickledSection(c) + PickledSection(d)
  {
    hide PickledSection;
    ThreeSections(b, c, d);
    assert [a, b, c, d][1..] == [b, c, d];
  }

  lemma OneValue(w: uint32)
    ensures PickledRecord([Word(w)]) == BigEndian32(w)
  {
    hide BigEndian32;
    assert [Word(w)][1..] == [];
    assert BigEndian32(w) + [] == BigEndian32(w);
  }

  lemma AccountSections(a: StoredAccount)
    ensures var o := AccountObject(a);
            var first: seq<byte> := a.identity.public;
            && PickledSection(o[0]) == first + a.identity.private + a.curve.public + a.curve.private
            && PickledSection(o[1]) == Counted(|a.oneTimeKeys|, OneTimeKeyRun(a.oneTimeKeys))
            && PickledSection(o[2]) == BigEndian32(a.nextId)
  {
    hide BigEndian32;
    hide OneTimeKeyRun;
    hide PickledItems;
    OneTimeKeysPickled(a.oneTimeKeys, AccountObject(a)[1].items);
    FourValues(Bytes(a.identity.public), Bytes(a.identity.private), Bytes(a.curve.public), Bytes(a.curve.private));
    OneValue(a.nextId);
    hide PickledRecord;
  }

  /** A pickled account: version 2, the two identity key pairs, the one-time keys after their count, and the last id. */
  lemma AccountLayout(a: StoredAccount, first: seq<byte>)
    requires first == a.identity.public
    ensures RawPickle(2, AccountObject(a))
         == [0, 0, 0, 2] + (first + a.identity.private + a.curve.public + a.curve.private
                            + Counted(|a.oneTimeKeys|, OneTimeKeyRun(a.oneTimeKeys)) + BigEndian32(a.nextId))
  {
    assert BigEndian32(2) == [0, 0, 0, 2];
    AccountSections(a);
    var o := AccountObject(a);
    ThreeSections(o[0], o[1], o[2]);
    assert o == [o[0], o[1], o[2]];
    hide *;
  }

  lemma GroupValues(s: GroupSession.Inbound)
    ensures PickledRecord(InboundObject(s)[0].record)
         == GroupSession.RatchetBytes(s.initial.data) + BigEndian32(s.initial.counter) + GroupSession.RatchetBytes(s.latest.data)
            + BigEndian32(s.latest.counter) + s.key + [if s.verified then 1 else 0]
  {
    hide BigEndian32;
    hide GroupSession.RatchetBytes;
    var r := InboundObject(s)[0].record;
    FiveValues(r[1], r[2], r[3], r[4], r[5]);
    assert r[1..] == [r[1], r[2], r[3], r[4], r[5]];
  }

  /** A pickled inbound group session: initial and latest ratchet, the four parts and then the counter each, the signing key, and the mark. */
  lemma InboundLayout(s: GroupSession.Inbound)
    ensures RawPickle(2, InboundObject(s))
         == [0, 0, 0, 2] + (GroupSession.RatchetBytes(s.initial.data) + BigEndian32(s.initial.counter)
                            + GroupSession.RatchetBytes(s.latest.data) + BigEndian32(s.latest.counter) + s.key + [if s.verified then 1 else 0])
  {
    assert BigEndian32(2) == [0, 0, 0, 2];
    GroupValues(s);
    var o := InboundObject(s);
    SectionAlone(o[0]);
    assert o == [o[0]];
    hide GroupSession.RatchetBytes;
    hide BigEndian32;
    hide PickledRecord;
  }

  lemma SectionAlone(a: Section)
    ensures Pickled([a]) == PickledSection(a)
  {
    hide PickledSection;
    assert [a][1..] == [];
    assert PickledSection(a) + [] == PickledSection(a);
  }

  /** A pickled outbound group session: the ratchet, and the signing key pair. */
  lemma OutboundLayout(s: StoredOutbound)
    ensures RawPickle(1, OutboundObject(s))
         == [0, 0, 0, 1] + (GroupSession.RatchetBytes(s.ratchet.data) + BigEndian32(s.ratchet.counter) + s.key.public + s.key.private)
  {
    assert BigEndian32(1) == [0, 0, 0, 1];
    hide BigEndian32;
    hide GroupSession.RatchetBytes;
    var o := OutboundObject(s);
    FourValues(o[0].record[0], o[0].record[1], o[0].record[2], o[0].record[3]);
    assert o[0].record == [o[0].record[0], o[0].record[1], o[0].record[2], o[0].record[3]];
    hide PickledRecord;
    SectionAlone(o[0]);
    assert o == [o[0]];
  }

  // ----- objects stand for what they were made from

  lemma SessionObjectDetermines(a: StoredSession, b: StoredSession)
    requires SessionObject(a) == SessionObject(b)
    ensures a == b
  {
    var x, y := SessionObject(a), SessionObject(b);
    assert x[0].record == y[0].record && x[1].items == y[1].items && x[2].items == y[2].items && x[3].items == y[3].items;
    assert forall i :: 0 <= i < 5 ==> x[0].record[i] == y[0].record[i];
    forall i | 0 <= i < |a.ratchet.senders|
      ensures a.ratchet.senders[i] == b.ratchet.senders[i]
    {
      var r, q := x[1].items[i], y[1].items[i];
      assert r[0] == q[0] && r[1] == q[1] && r[2] == q[2] && r[3] == q[3];
    }
    forall i | 0 <= i < |a.ratchet.receivers|
      ensures a.ratchet.receivers[i] == b.ratchet.receivers[i]
    {
      IndexedRecordDetermines(a.ratchet.receivers[i], b.ratchet.receivers[i], x[2].items[i], y[2].items[i]);
    }
    forall i | 0 <= i < |a.ratchet.skipped|
      ensures a.ratchet.skipped[i] == b.ratchet.skipped[i]
    {
      IndexedRecordDetermines(a.ratchet.skipped[i], b.ratchet.skipped[i], x[3].items[i], y[3].items[i]);
    }
  }

  lemma IndexedRecordDetermines(a: RatchetBytes.Indexed, b: RatchetBytes.Indexed, r: Record, q: Record)
    requires r == IndexedRecord(a) && q == IndexedRecord(b) && r == q
    ensures a == b
  {
    assert r[0] == q[0] && r[1] == q[1] && r[2] == q[2];
  }

  lemma AccountObjectDetermines(a: StoredAccount, b: StoredAccount)
    requires AccountObject(a) == AccountObject(b)
    ensures a == b
  {
    var x, y := AccountObject(a), AccountObject(b);
    assert x[0].record == y[0].record && x[1].items == y[1].items && x[2].record == y[2].record;
    assert forall i :: 0 <= i < 4 ==> x[0].record[i] == y[0].record[i];
    assert x[2].record[0] == y[2].record[0];
    forall i | 0 <= i < |a.oneTimeKeys|
      ensures a.oneTimeKeys[i] == b.oneTimeKeys[i]
    {
      var r, q := x[1].items[i], y[1].items[i];
      assert r[0] == q[0] && r[1] == q[1] && r[2] == q[2] && r[3] == q[3];
    }
  }

  lemma RatchetBytesDetermine(a: Megolm.Parts, b: Megolm.Parts)
    requires GroupSession.RatchetBytes(a) == GroupSession.RatchetBytes(b)
    ensures a == b
  {
    GroupSession.PartsRoundTrip(a);
    GroupSession.PartsRoundTrip(b);
  }

  lemma GroupObjectsDetermine(a: GroupSession.Inbound, b: GroupSession.Inbound, c: StoredOutbound, d: StoredOutbound)
    ensures InboundObject(a) == InboundObject(b) ==> a == b
    ensures OutboundObject(c) == OutboundObject(d) ==> c == d
  {
    hide GroupSession.RatchetBytes;
    if InboundObject(a) == InboundObject(b) {
      var x, y := InboundObject(a)[0].record, InboundObject(b)[0].record;
      assert forall i :: 0 <= i < 6 ==> x[i] == y[i];
      assert x[0].bytes == y[0].bytes && x[2].bytes == y[2].bytes;
      RatchetBytesDetermine(a.initial.data, b.initial.data);
      RatchetBytesDetermine(a.latest.data, b.latest.data);
    }
    if OutboundObject(c) == OutboundObject(d) {
      var x, y := OutboundObject(c)[0].record, OutboundObject(d)[0].record;
      assert forall i :: 0 <= i < 4 ==> x[i] == y[i];
      assert x[0].bytes == y[0].bytes;
      RatchetBytesDetermine(c.ratchet.data, d.ratchet.data);
    }
  }

  lemma SessionObjectFits(s: StoredSession)
    requires s.Fits()
    ensures ObjectFits(SessionObject(s), SESSION_SHAPES)
  {
    var o := SessionObject(s);
    assert RecordFits(o[0].record, SESSION_SHAPES[0].shapes);
    assert forall i :: 0 <= i < |s.ratchet.senders| ==> RecordFits(SenderRecord(s.ratchet.senders[i]), SENDER_SHAPES);
    IndexedFit(s.ratchet.receivers);
    IndexedFit(s.ratchet.skipped);
  }

  lemma IndexedFit(chains: seq<RatchetBytes.Indexed>)
    ensures forall i :: 0 <= i < |chains| ==> RecordFits(IndexedRecord(chains[i]), INDEXED_SHAPES)
  {
  }

  lemma AccountObjectFits(a: StoredAccount)
    requires a.Fits()
    ensures ObjectFits(AccountObject(a), ACCOUNT_SHAPES)
  {
    var o := AccountObject(a);
    assert RecordFits(o[0].record, ACCOUNT_SHAPES[0].shapes);
    assert RecordFits(o[2].record, ACCOUNT_SHAPES[2].shapes);
    assert forall i :: 0 <= i < |a.oneTimeKeys| ==> RecordFits(OneTimeKeyRecord(a.oneTimeKeys[i]), ONE_TIME_KEY_SHAPES);
  }

  lemma GroupObjectsFit(s: GroupSession.Inbound, o: StoredOutbound)
    ensures ObjectFits(InboundObject(s), INBOUND_SHAPES) && ObjectFits(OutboundObject(o), OUTBOUND_SHAPES)
  {
    hide GroupSession.RatchetBytes;
    assert RecordFits(InboundObject(s)[0].record, INBOUND_SHAPES[0].shapes);
    assert RecordFits(OutboundObject(o)[0].record, OUTBOUND_SHAPES[0].shapes);
  }

  // ----- reading

  datatype Kind = SessionPickle | AccountPickle | OutboundPickle | InboundPickle

  datatype Error = PickleNotInBase64 | WrongKey | UnknownPickleVersion | BadLegacyAccountPickle | CorruptedPickle

  datatype Loaded = Loaded(version: uint32, contents: seq<Section>) | Failed(error: Error) | BeyondPickle

  /** The layout of a version, if it can be read. */
  function Layout(kind: Kind, version: uint32): Option<seq<SectionShape>> {
    match kind
    case SessionPickle =>
      if version == 1 then Some(SESSION_SHAPES) else if version == 0x8000_0001 then Some(LOGGED_SESSION_SHAPES) else None
    case AccountPickle => if version == 2 then Some(ACCOUNT_SHAPES) else None
    case OutboundPickle => if version == 1 then Some(OUTBOUND_SHAPES) else None
    case InboundPickle =>
      if version == 2 then Some(INBOUND_SHAPES) else if version == 1 then Some(OLD_INBOUND_SHAPES) else None
  }

  /** How far beyond the raw bytes the reader may go: sessions and accounts give it one byte more, so that
      running out of input shows; group sessions do not. */
  function Margin(kind: Kind): nat {
    if kind.SessionPickle? || kind.AccountPickle? then 1 else 0
  }

  lemma LayoutsAreProper(kind: Kind, version: uint32)
    ensures Layout(kind, version).Some? ==> Proper(Layout(kind, version).value)
  {
  }

  /** What the bytes up to the reader's limit stand for. */
  function Read(kind: Kind, s: seq<byte>): Loaded {
    var (v, n) := UnpickledValue(WordShape, s);
    var layout := Layout(kind, v.word);
    if layout == None then
      Failed(if kind.AccountPickle? && v.word == 1 then BadLegacyAccountPickle else UnknownPickleVersion)
    else
      LayoutsAreProper(kind, v.word);
      var (o, m) := Unpickled(layout.value, s[n..]);
      if n + m + Margin(kind) == |s| then Loaded(v.word, o) else Failed(CorruptedPickle)
  }

  /** Which versions are read of each kind, how others are refused, and that a session or account leaves one byte,
      and a group session none, between its last field and the limit. */
  lemma ReadIs(kind: Kind, s: seq<byte>)
    ensures var version := if |s| < 4 then 0 else FromBigEndian32(s[..4]);
            var known := match kind
              case SessionPickle => version == 1 || version == 0x8000_0001
              case AccountPickle => version == 2
              case OutboundPickle => version == 1
              case InboundPickle => version == 1 || version == 2;
            var r := Read(kind, s);
            && (r == Failed(BadLegacyAccountPickle) <==> kind.AccountPickle? && version == 1)
            && (r == Failed(UnknownPickleVersion) <==> !known && !(kind.AccountPickle? && version == 1))
            && (known ==> |s| >= 4 && Layout(kind, version).Some? && Proper(Layout(kind, version).value)
                          && var (o, n) := Unpickled(Layout(kind, version).value, s[4..]);
                             r == if 4 + n + (if kind.SessionPickle? || kind.AccountPickle? then 1 else 0) == |s| then Loaded(version, o)
                                  else Failed(CorruptedPickle))
  {
    hide Unpickled;
    hide FromBigEndian32;
    LayoutsAreProper(kind, if |s| < 4 then 0 else FromBigEndian32(s[..4]));
  }

  /** Of however many declared, a session takes at most 1 sender chain, 5 receiver chains and 40 skipped keys, and an account 100000 keys. */
  lemma ReadIsBounded(s: seq<byte>)
    ensures var r := Read(SessionPickle, s);
            r.Loaded? ==>
              && |r.contents| >= 4 && r.contents[1].Items? && r.contents[2].Items? && r.contents[3].Items?
              && |r.contents[1].items| <= 1 && |r.contents[2].items| <= 5 && |r.contents[3].items| <= 40
    ensures var r := Read(AccountPickle, s);
            r.Loaded? ==> |r.contents| == 3 && r.contents[1].Items? && |r.contents[1].items| <= 100000
  {
    hide Unpickled;
    hide UnpickledValue;
    WordIsWord(s);
    var (v, n) := UnpickledValue(WordShape, s);
    var body := s[n..];
    LayoutsAreProper(SessionPickle, v.word);
    if Layout(SessionPickle, v.word).Some? {
      var shapes := Layout(SessionPickle, v.word).value;
      ListsFit(shapes, body, 1);
      ListsFit(shapes, body, 2);
      ListsFit(shapes, body, 3);
    }
    ListsFit(ACCOUNT_SHAPES, body, 1);
  }

  function RawPickle(version: uint32, o: seq<Section>): seq<byte> {
    BigEndian32(version) + Pickled(o)
  }

  /** An object written in a readable layout is read back as it was. */
  lemma ReadsBack(kind: Kind, version: uint32, o: seq<Section>, stray: seq<byte>)
    requires Layout(kind, version).Some? && ObjectFits(o, Layout(kind, version).value)
    requires |stray| == Margin(kind)
    ensures Read(kind, RawPickle(version, o) + stray) == Loaded(version, o)
  {
    hide BigEndian32;
    hide UnpickledValue;
    hide Layout;
    hide ObjectFits;
    hide Unpickled;
    hide Pickled;
    var head, body := BigEndian32(version), Pickled(o);
    var s := RawPickle(version, o) + stray;
    assert s == head + (body + stray);
    ValueRoundTrip(Word(version), WordShape, body + stray);
    assert s[|head|..] == body + stray;
    Pickle.RoundTrip(o, Layout(kind, version).value, stray);
  }

  /** Sessions, accounts and group sessions come back with every field and every list in order, and exactly the raw bytes
      are consumed. */
  lemma StoredObjectsReadBack(s: StoredSession, a: StoredAccount, c: StoredOutbound, g: GroupSession.Inbound, stray: byte)
    requires s.Fits() && a.Fits()
    ensures Read(SessionPickle, RawPickle(1, SessionObject(s)) + [stray]) == Loaded(1, SessionObject(s))
    ensures Read(AccountPickle, RawPickle(2, AccountObject(a)) + [stray]) == Loaded(2, AccountObject(a))
    ensures Read(OutboundPickle, RawPickle(1, OutboundObject(c))) == Loaded(1, OutboundObject(c))
    ensures Read(InboundPickle, RawPickle(2, InboundObject(g))) == Loaded(2, InboundObject(g))
  {
    hide Read;
    hide RawPickle;
    hide ObjectFits;
    hide SessionObject;
    hide AccountObject;
    hide OutboundObject;
    hide InboundObject;
    SessionObjectFits(s);
    AccountObjectFits(a);
    GroupObjectsFit(g, c);
    ReadsBack(SessionPickle, 1, SessionObject(s), [stray]);
    ReadsBack(AccountPickle, 2, AccountObject(a), [stray]);
    ReadsBack(OutboundPickle, 1, OutboundObject(c), []);
    ReadsBack(InboundPickle, 2, InboundObject(g), []);
    assert RawPickle(1, OutboundObject(c)) + [] == RawPickle(1, OutboundObject(c));
    assert RawPickle(2, InboundObject(g)) + [] == RawPickle(2, InboundObject(g));
  }

  /** The other branch's session pickles are read too, and their chain index is dropped. */
  lemma LoggedSessionReadsBack(s: StoredSession, chainIndex: uint32, stray: byte)
    requires s.Fits()
    ensures var o := SessionObject(s) + [Fields([Word(chainIndex)])];
            Read(SessionPickle, RawPickle(0x8000_0001, o) + [stray]) == Loaded(0x8000_0001, o)
  {
    hide Read;
    hide RawPickle;
    hide SessionObject;
    SessionObjectFits(s);
    var o := SessionObject(s) + [Fields([Word(chainIndex)])];
    assert RecordFits([Word(chainIndex)], [WordShape]);
    ReadsBack(SessionPickle, 0x8000_0001, o, [stray]);
  }

  // ----- pickles that are too short

  /** A session or account is accepted only when every field of it was there. */
  lemma AcceptedIsComplete(kind: Kind, s: seq<byte>)
    requires (kind.SessionPickle? || kind.AccountPickle?) && Read(kind, s).Loaded?
    ensures var r := Read(kind, s); Complete(r.contents, Layout(kind, r.version).value)
  {
    hide Layout;
    hide Unpickled;
    hide Complete;
    hide UnpickledValue;
    WordIsWord(s);
    var (v, n) := UnpickledValue(WordShape, s);
    LayoutsAreProper(kind, v.word);
    ShortOfLimitIsComplete(Layout(kind, v.word).value, s[n..]);
  }

  // ----- pickled again

  /** The one version that the library writes of each kind. */
  function WrittenVersion(kind: Kind): uint32 {
    if kind.AccountPickle? || kind.InboundPickle? then 2 else 1
  }

  /** What the library holds of an object of a version it reads: the chain index of the other branch's sessions is
      dropped, and inbound group sessions from before the mark of verification count as verified. */
  function Kept(kind: Kind, version: uint32, o: seq<Section>): seq<Section> {
    if kind.SessionPickle? && version == 0x8000_0001 && o != [] then o[..|o| - 1]
    else if kind.InboundPickle? && version == 1 && |o| == 1 && o[0].Fields? then [Fields(o[0].record + [Flag(true)])]
    else o
  }

  /** What is written of it. */
  function Rewritten(kind: Kind, r: Loaded): seq<byte>
    requires r.Loaded?
  {
    RawPickle(WrittenVersion(kind), Kept(kind, r.version, r.contents))
  }

  /** The fields of an object that was read into: those for which there was input, and otherwise the earlier ones. */
  function Restored(before: Record, read: Record): (r: Record)
    ensures |r| == |before|
  {
    seq(|before|, i requires 0 <= i < |before| => if i < |read| && read[i] != Unset then read[i] else before[i])
  }

  /** What is written of a group session, whose readers also accept pickles that end early. */
  function RewrittenOver(kind: Kind, r: Loaded, before: Record): seq<byte>
    requires r.Loaded?
  {
    var o := Kept(kind, r.version, r.contents);
    RawPickle(WrittenVersion(kind), if |o| == 1 && o[0].Fields? then [Fields(Restored(before, o[0].record))] else o)
  }

  lemma WrittenUnderItsVersion(kind: Kind, s: seq<byte>)
    requires (kind.SessionPickle? || kind.AccountPickle?) && Read(kind, s).Loaded?
    ensures var r := Read(kind, s);
            && |s| > 4 && r.version == FromBigEndian32(s[..4])
            && Layout(kind, r.version).Some? && Proper(Layout(kind, r.version).value)
            && (RawPickle(r.version, r.contents) == s[..|s| - 1] <==> Canonical(Layout(kind, r.version).value, s[4..]))
  {
    hide Unpickled;
    hide Pickled;
    hide Canonical;
    hide BigEndian32;
    hide FromBigEndian32;
    var (v, n) := UnpickledValue(WordShape, s);
    LayoutsAreProper(kind, v.word);
    var layout := Layout(kind, v.word).value;
    hide Layout;
    var (o, m) := Unpickled(layout, s[n..]);
    WrittenAgain(layout, s[n..]);
    ValueWrittenAgain(WordShape, s);
    PrefixSplits(s, 4, m);
    SameParts(BigEndian32(v.word), Pickled(o), s[..4], s[4..][..m]);
  }

  /** Written bytes start with the version written. */
  lemma OtherVersionDiffers(version: uint32, o: seq<Section>, s: seq<byte>)
    requires |s| >= 4 && FromBigEndian32(s[..4]) != version
    ensures RawPickle(version, o) != s
  {
    hide Pickled;
    hide FromBigEndian32;
    hide BigEndian32;
    BigEndian32RoundTrip(version);
    assert RawPickle(version, o)[..4] == BigEndian32(version);
  }

  /** Pickled again, an accepted session or account is the very bytes it was read from if and only if they are of
      the version written, its flags are 0 or 1, and none of its lists declares more items than it can hold. */
  lemma AcceptedIsWrittenAgain(kind: Kind, s: seq<byte>)
    requires (kind.SessionPickle? || kind.AccountPickle?) && Read(kind, s).Loaded?
    ensures var r := Read(kind, s);
            && |s| > 4 && Layout(kind, r.version).Some? && Proper(Layout(kind, r.version).value)
            && (Rewritten(kind, r) == s[..|s| - 1]
                <==> r.version == (if kind.SessionPickle? then 1 else 2) && Canonical(Layout(kind, r.version).value, s[4..]))
  {
    hide Read;
    hide RawPickle;
    hide Layout;
    hide Canonical;
    WrittenUnderItsVersion(kind, s);
    var r := Read(kind, s);
    if r.version != WrittenVersion(kind) {
      assert s[..|s| - 1][..4] == s[..4];
      OtherVersionDiffers(WrittenVersion(kind), Kept(kind, r.version, r.contents), s[..|s| - 1]);
    }
  }

  /** A session pickled by the other branch is kept, short of its chain index, and pickled as one of this branch. */
  lemma LoggedSessionIsConverted(s: StoredSession, chainIndex: uint32, stray: byte)
    requires s.Fits()
    ensures var raw := RawPickle(0x8000_0001, SessionObject(s) + [Fields([Word(chainIndex)])]);
            && Read(SessionPickle, raw + [stray]).Loaded?
            && Rewritten(SessionPickle, Read(SessionPickle, raw + [stray])) == RawPickle(1, SessionObject(s)) != raw
  {
    hide Read;
    hide SessionObject;
    hide Pickled;
    hide BigEndian32;
    hide FromBigEndian32;
    var o := SessionObject(s) + [Fields([Word(chainIndex)])];
    LoggedSessionReadsBack(s, chainIndex, stray);
    assert o[..|o| - 1] == SessionObject(s);
    BigEndian32RoundTrip(0x8000_0001);
    assert RawPickle(0x8000_0001, o)[..4] == BigEndian32(0x8000_0001);
    OtherVersionDiffers(1, SessionObject(s), RawPickle(0x8000_0001, o));
  }

  function FieldsLength(shapes: seq<SectionShape>): nat
    requires |shapes| == 1 && shapes[0].FieldsOf?
  {
    FixedLength(shapes[0].shapes)
  }

  /** Not so for group sessions: their readers take any prefix of a pickle that still holds the version, and
      what they return is complete if and only if nothing was cut off. */
  lemma GroupPrefixIsAccepted(kind: Kind, version: uint32, body: seq<byte>)
    requires (kind == InboundPickle && (version == 1 || version == 2)) || (kind == OutboundPickle && version == 1)
    ensures var layout := Layout(kind, version).value;
            var r := Read(kind, BigEndian32(version) + body);
            && |layout| == 1 && layout[0].FieldsOf?
            && (r.Loaded? <==> |body| <= FieldsLength(layout))
            && (r.Loaded? ==> (Complete(r.contents, layout) <==> |body| == FieldsLength(layout)))
  {
    hide BigEndian32;
    hide UnpickledValue;
    hide UnpickledRecord;
    var layout := Layout(kind, version).value;
    var shapes := layout[0].shapes;
    var s := BigEndian32(version) + body;
    ValueRoundTrip(Word(version), WordShape, body);
    assert s[|BigEndian32(version)|..] == body;
    OneSection(shapes, body);
    RecordTakes(shapes, body);
    if |body| < FixedLength(shapes) {
      assert shapes[|shapes| - 1] == FlagShape || shapes[|shapes| - 1] == BytesShape(32) || shapes[|shapes| - 1] == BytesShape(64);
      LastIsUnset(shapes, body);
      var r := UnpickledRecord(shapes, body).0;
      UnsetFitsNothing(r, shapes);
    }
  }

  lemma {:induction false} FitsTakesAll(r: Record, shapes: seq<Shape>)
    requires RecordFits(r, shapes)
    ensures |PickledRecord(r)| == FixedLength(shapes)
  {
    hide BigEndian32;
    if r != [] {
      if r[0].Word? {
        BigEndian32RoundTrip(r[0].word);
      }
      assert HasShape(r[0], shapes[0]);
      FitsTakesAll(r[1..], shapes[1..]);
    }
  }

  lemma {:induction false} ReadHasShapes(shapes: seq<Shape>, s: seq<byte>)
    ensures var r := UnpickledRecord(shapes, s).0;
            |r| == |shapes| && forall k :: 0 <= k < |r| ==> r[k] == Unset || HasShape(r[k], shapes[k])
  {
    hide FromBigEndian32;
    if shapes != [] {
      ReadHasShapes(shapes[1..], s[UnpickledValue(shapes[0], s).1..]);
    }
  }

  /** The record of a group session, as it was read. */
  lemma GroupReadAs(kind: Kind, s: seq<byte>)
    requires (kind.OutboundPickle? || kind.InboundPickle?) && Read(kind, s).Loaded?
    ensures var r := Read(kind, s);
            && |s| >= 4 && r.version == FromBigEndian32(s[..4]) && Layout(kind, r.version).Some?
            && var layout := Layout(kind, r.version).value;
               && |layout| == 1 && layout[0].FieldsOf? && |s| - 4 <= FieldsLength(layout)
               && r.contents == [Fields(UnpickledRecord(layout[0].shapes, s[4..]).0)]
  {
    hide FromBigEndian32;
    hide UnpickledRecord;
    hide FixedLength;
    var version := UnpickledValue(WordShape, s).0.word;
    var shapes := Layout(kind, version).value[0].shapes;
    OneSection(shapes, s[4..]);
    RecordTakes(shapes, s[4..]);
  }

  /** Pickled again, an accepted group session is the very bytes it was read from if and only if they are of the version
      written, nothing of them was cut off, and its flag is 0 or 1; whatever the object held before. */
  lemma GroupIsWrittenAgain(kind: Kind, s: seq<byte>, before: Record)
    requires (kind.OutboundPickle? || kind.InboundPickle?) && Read(kind, s).Loaded?
    requires RecordFits(before, Layout(kind, WrittenVersion(kind)).value[0].shapes)
    ensures var r := Read(kind, s);
            && |s| >= 4 && Layout(kind, r.version).Some?
            && var layout := Layout(kind, r.version).value;
               && |layout| == 1 && layout[0].FieldsOf?
               && (RewrittenOver(kind, r, before) == s
                   <==> r.version == (if kind.OutboundPickle? then 1 else 2) && |s| - 4 == FieldsLength(layout) && CanonicalRecord(layout[0].shapes, s[4..]))
  {
    GroupReadAs(kind, s);
    var r := Read(kind, s);
    hide Read;
    if r.version == WrittenVersion(kind) {
      var shapes := Layout(kind, r.version).value[0].shapes;
      hide Layout;
      hide RawPickle;
      RecordRewritten(r.version, shapes, s, before);
    } else {
      hide Layout;
      hide RawPickle;
      hide Restored;
      var o := Kept(kind, r.version, r.contents);
      OtherVersionDiffers(WrittenVersion(kind), if |o| == 1 && o[0].Fields? then [Fields(Restored(before, o[0].record))] else o, s);
    }
  }

  lemma RecordRewritten(version: uint32, shapes: seq<Shape>, s: seq<byte>, before: Record)
    requires |s| >= 4 && FromBigEndian32(s[..4]) == version && |s| - 4 <= FixedLength(shapes) && RecordFits(before, shapes)
    ensures RawPickle(version, [Fields(Restored(before, UnpickledRecord(shapes, s[4..]).0))]) == s
       <==> |s| - 4 == FixedLength(shapes) && CanonicalRecord(shapes, s[4..])
  {
    hide BigEndian32;
    hide FromBigEndian32;
    hide UnpickledRecord;
    hide PickledRecord;
    hide CanonicalRecord;
    hide FixedLength;
    hide Restored;
    var body := s[4..];
    var read := UnpickledRecord(shapes, body).0;
    var restored := Restored(before, read);
    ReadHasShapes(shapes, body);
    RestoredFits(before, read, shapes);
    FitsTakesAll(restored, shapes);
    BigEndian32RoundTrip(version);
    FromBigEndian32Injective(s[..4], BigEndian32(version));
    assert Pickled([Fields(restored)]) == PickledRecord(restored) + Pickled([]);
    assert s == s[..4] + body;
    SameParts(BigEndian32(version), PickledRecord(restored), s[..4], body);
    if |body| == FixedLength(shapes) {
      RecordTakes(shapes, body);
      RestoredWhole(before, read, shapes);
      RecordWrittenAgain(shapes, body);
      assert body[..|body|] == body;
    }
  }

  lemma RestoredFits(before: Record, read: Record, shapes: seq<Shape>)
    requires RecordFits(before, shapes) && |read| == |shapes|
    requires forall k :: 0 <= k < |read| ==> read[k] == Unset || HasShape(read[k], shapes[k])
    ensures RecordFits(Restored(before, read), shapes)
  {
  }

  lemma RestoredWhole(before: Record, read: Record, shapes: seq<Shape>)
    requires RecordFits(before, shapes) && RecordFits(read, shapes)
    ensures Restored(before, read) == read
  {
    forall k | 0 <= k < |read|
      ensures read[k] != Unset
    {
      assert HasShape(read[k], shapes[k]);
    }
  }

  /** An inbound group session from before the mark of verification is kept as a verified one, and pickled with the mark. */
  lemma OldInboundIsConverted(g: GroupSession.Inbound)
    ensures var raw := RawPickle(1, [Fields(InboundObject(g)[0].record[..5])]);
            && Read(InboundPickle, raw).Loaded?
            && Rewritten(InboundPickle, Read(InboundPickle, raw)) == RawPickle(2, InboundObject(g.(verified := true))) != raw
  {
    hide GroupSession.RatchetBytes;
    hide Read;
    hide Pickled;
    hide BigEndian32;
    hide FromBigEndian32;
    var record := InboundObject(g)[0].record[..5];
    var raw := RawPickle(1, [Fields(record)]);
    assert RecordFits(record, OLD_INBOUND_SHAPES[0].shapes);
    ReadsBack(InboundPickle, 1, [Fields(record)], []);
    assert raw + [] == raw;
    assert record + [Flag(true)] == InboundObject(g.(verified := true))[0].record;
    BigEndian32RoundTrip(1);
    assert raw[..4] == BigEndian32(1);
    OtherVersionDiffers(2, InboundObject(g.(verified := true)), raw);
  }

  lemma OneSection(shapes: seq<Shape>, s: seq<byte>)
    ensures Unpickled([FieldsOf(shapes)], s) == ([Fields(UnpickledRecord(shapes, s).0)], UnpickledRecord(shapes, s).1)
  {
    hide UnpickledRecord;
    var (r, n) := UnpickledRecord(shapes, s);
    assert [FieldsOf(shapes)][1..] == [];
    assert Unpickled([], s[n..]) == ([], 0);
    assert [Fields(r)] + [] == [Fields(r)];
  }

  lemma UnsetFitsNothing(r: Record, shapes: seq<Shape>)
    ensures r != [] && RecordFits(r, shapes) ==> r[|r| - 1] != Unset
  {
    assert r != [] && RecordFits(r, shapes) ==> HasShape(r[|r| - 1], shapes[|r| - 1]);
  }

  // ----- in memory

  /** Pickles an object at the end of the output, and seals it there. */
  method Save(p: Primitives, key: seq<byte>, mem: array<byte>, output: nat, maxLength: nat, version: uint32, o: seq<Section>)
    returns (length: Option<nat>)
    requires |key| < TWO_TO_THE_32 && SealedLength(4 + PickledLength(o)) < TWO_TO_THE_32
    requires output + maxLength <= mem.Length
    modifies mem
    ensures length == None <==> maxLength < |Encoded(Sealed(p, key, RawPickle(version, o)))|
    ensures length == None ==> mem[..] == old(mem[..])
    ensures length.Some? ==>
      var text := Encoded(Sealed(p, key, RawPickle(version, o)));
      length.value == |text| <= maxLength && mem[..] == Overwritten(old(mem[..]), output, text)
  {
    hide Sealed;
    hide Pickled;
    hide Overwritten;
    hide Encoded;
    hide BigEndian32;
    hide EncodedLength;
    var rawLength := 4 + PickledLength(o);
    ghost var before: seq<byte>, raw := mem[..], RawPickle(version, o);
    LengthIsExact(o);
    BigEndian32RoundTrip(version);
    assert |Encoded(Sealed(p, key, raw))| == EncOutputLength(rawLength);
    if maxLength < EncOutputLength(rawLength) {
      return None;
    }
    EncodedIsLonger(SealedLength(rawLength));
    var pos := EncOutputPos(output, rawLength);
    var body := PutWord(mem, pos, version);
    var _ := PutObject(mem, body, o);
    OverwrittenTwice(before, pos, BigEndian32(version), Pickled(o));
    OverwrittenAt(before, pos, raw);
    var n := EncOutput(p, key, mem, output, rawLength);
    OverwrittenWithin(before, output, pos, raw, Encoded(Sealed(p, key, raw)));
    length := Some(n);
  }

  /** Opens a pickle in place and reads the object. */
  method Load(p: Primitives, key: seq<byte>, mem: array<byte>, input: nat, length: nat, kind: Kind) returns (r: Loaded)
    requires |key| < TWO_TO_THE_32 && length < TWO_TO_THE_32
    requires input + length <= mem.Length
    modifies mem
    ensures length % 4 == 1 ==> r == Failed(PickleNotInBase64)
    ensures length % 4 != 1 ==>
      var sealed := Decoded(old(mem[input..input + length]));
      match OpenedOf(p, key, sealed)
      case Raw(n) =>
        && input + n < mem.Length
        && mem[input..input + n] == DecryptedBlocks(p, PICKLE_INFO, key, sealed[..|sealed| - MAC_LENGTH])[..n]
        && r == Read(kind, mem[input..input + n + Margin(kind)])
      case BeyondInput => r == BeyondPickle
      case _ => r == Failed(WrongKey)
  {
    hide Decoded;
    hide OpenedOf;
    hide DecryptedBlocks;
    hide Layout;
    hide Unpickled;
    hide UnpickledValue;
    var result := EncInput(p, key, mem, input, length);
    match result {
      case InvalidBase64 => r := Failed(PickleNotInBase64);
      case BadAccountKey => r := Failed(WrongKey);
      case BeyondInput => r := BeyondPickle;
      case Raw(n) =>
        r := ReadObject(mem, input, input + n + Margin(kind), kind);
    }
  }

  method ReadObject(mem: array<byte>, input: nat, limit: nat, kind: Kind) returns (r: Loaded)
    requires input <= limit <= mem.Length
    ensures r == Read(kind, mem[input..limit])
  {
    hide Layout;
    hide Unpickled;
    hide UnpickledValue;
    var version, body := GetWord(mem, input, limit);
    WordIsWord(mem[input..limit]);
    var layout := Layout(kind, version);
    if layout == None {
      return Failed(if kind.AccountPickle? && version == 1 then BadLegacyAccountPickle else UnknownPickleVersion);
    }
    LayoutsAreProper(kind, version);
    assert mem[input..limit][body - input..] == mem[body..limit];
    var o, end := GetObject(mem, body, limit, layout.value);
    r := if end + Margin(kind) == limit then Loaded(version, o) else Failed(CorruptedPickle);
  }

  /** Pickled, padded, encrypted, tagged and encoded, then decoded, opened and read: the object is back. */
  lemma SavedLoads(p: Primitives, key: seq<byte>, kind: Kind, version: uint32, o: seq<Section>, text: seq<byte>,
                   sealed: seq<byte>, raw: seq<byte>, stray: seq<byte>)
    requires Sound(p) && Layout(kind, version).Some? && ObjectFits(o, Layout(kind, version).value)
    requires raw == RawPickle(version, o) && sealed == Sealed(p, key, raw) && text == Encoded(sealed)
    requires |stray| == Margin(kind)
    ensures IsText(text) && |text| % 4 != 1 && Decoded(text) == sealed
    ensures OpenedOf(p, key, sealed) == Raw(|raw|)
    ensures DecryptedBlocks(p, PICKLE_INFO, key, sealed[..|sealed| - MAC_LENGTH])[..|raw|] == raw
    ensures Read(kind, raw + stray) == Loaded(version, o)
  {
    hide Sealed;
    hide OpenedOf;
    hide DecryptedBlocks;
    hide Encoded;
    hide Decoded;
    hide IsText;
    hide Read;
    hide RawPickle;
    hide Layout;
    hide ObjectFits;
    hide Sound;
    hide Margin;
    Base64.RoundTrip(sealed);
    SealedOpens(p, key, raw);
    ReadsBack(kind, version, o, stray);
  }

  /** The text that Save leaves, and what Load makes of a text; `stray` is what lies after the raw bytes in memory. */
  function SavedText(p: Primitives, key: seq<byte>, version: uint32, o: seq<Section>): seq<byte> {
    Encoded(Sealed(p, key, RawPickle(version, o)))
  }

  function LoadedFrom(p: Primitives, key: seq<byte>, kind: Kind, text: seq<byte>, stray: byte): Loaded {
    if |text| % 4 == 1 then Failed(PickleNotInBase64)
    else
      var sealed := Decoded(text);
      match OpenedOf(p, key, sealed)
      case Raw(n) =>
        var raw := DecryptedBlocks(p, PICKLE_INFO, key, sealed[..|sealed| - MAC_LENGTH])[..n];
        Read(kind, raw + if Margin(kind) == 1 then [stray] else [])
      case BeyondInput => BeyondPickle
      case _ => Failed(WrongKey)
  }

  /** When a text is refused before its bytes are read: for a length that no encoding has, and for whatever its key does not open. */
  lemma LoadedIs(p: Primitives, key: seq<byte>, kind: Kind, text: seq<byte>, stray: byte)
    ensures var r := LoadedFrom(p, key, kind, text, stray);
            && (r == Failed(PickleNotInBase64) <==> |text| % 4 == 1)
            && (r == Failed(WrongKey) <==> |text| % 4 != 1 && OpenedOf(p, key, Decoded(text)) == BadAccountKey)
            && (r == BeyondPickle <==> |text| % 4 != 1 && OpenedOf(p, key, Decoded(text)) == BeyondInput)
  {
    hide Decoded;
    hide OpenedOf;
    hide DecryptedBlocks;
    hide Read;
    if |text| % 4 != 1 {
      var sealed := Decoded(text);
      OpenedIsDecoded(p, key, sealed);
      match OpenedOf(p, key, sealed)
      case Raw(n) =>
        var raw := DecryptedBlocks(p, PICKLE_INFO, key, sealed[..|sealed| - MAC_LENGTH])[..n];
        ReadRefuses(kind, raw + if Margin(kind) == 1 then [stray] else []);
      case _ =>
    }
  }

  lemma OpenedIsDecoded(p: Primitives, key: seq<byte>, sealed: seq<byte>)
    ensures OpenedOf(p, key, sealed) != InvalidBase64
  {
    hide OutcomeOf;
  }

  lemma ReadRefuses(kind: Kind, s: seq<byte>)
    ensures Read(kind, s) != Failed(PickleNotInBase64) && Read(kind, s) != Failed(WrongKey) && Read(kind, s) != BeyondPickle
  {
    hide Unpickled;
    hide UnpickledValue;
    hide Layout;
    WordIsWord(s);
  }

  lemma SavedIsLoaded(p: Primitives, key: seq<byte>, kind: Kind, version: uint32, o: seq<Section>, stray: byte)
    requires Sound(p) && Layout(kind, version).Some? && ObjectFits(o, Layout(kind, version).value)
    ensures LoadedFrom(p, key, kind, SavedText(p, key, version, o), stray) == Loaded(version, o)
  {
    hide Layout;
    hide ObjectFits;
    hide Read;
    hide RawPickle;
    hide Sealed;
    hide OpenedOf;
    hide DecryptedBlocks;
    hide Decoded;
    hide Encoded;
    hide IsText;
    hide Sound;
    var raw := RawPickle(version, o);
    var sealed := Sealed(p, key, raw);
    SavedLoads(p, key, kind, version, o, Encoded(sealed), sealed, raw, if Margin(kind) == 1 then [stray] else []);
  }

  /** Whatever session is saved, loading gives that session and no other. */
  lemma SavedSession(p: Primitives, key: seq<byte>, s: StoredSession, t: StoredSession, stray: byte)
    requires Sound(p) && s.Fits()
    ensures LoadedFrom(p, key, SessionPickle, SavedText(p, key, 1, SessionObject(s)), stray) == Loaded(1, SessionObject(t)) <==> t == s
  {
    hide LoadedFrom;
    hide SavedText;
    hide SessionObject;
    hide ObjectFits;
    hide Sound;
    SessionObjectFits(s);
    SavedIsLoaded(p, key, SessionPickle, 1, SessionObject(s), stray);
    if SessionObject(t) == SessionObject(s) {
      SessionObjectDetermines(t, s);
    }
  }

  lemma SavedAccount(p: Primitives, key: seq<byte>, a: StoredAccount, b: StoredAccount, stray: byte)
    requires Sound(p) && a.Fits()
    ensures LoadedFrom(p, key, AccountPickle, SavedText(p, key, 2, AccountObject(a)), stray) == Loaded(2, AccountObject(b)) <==> b == a
  {
    hide LoadedFrom;
    hide SavedText;
    hide AccountObject;
    hide ObjectFits;
    hide Sound;
    AccountObjectFits(a);
    SavedIsLoaded(p, key, AccountPickle, 2, AccountObject(a), stray);
    if AccountObject(b) == AccountObject(a) {
      AccountObjectDetermines(b, a);
    }
  }
}
