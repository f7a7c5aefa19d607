/** Megolm group sessions on values (src/inbound_group_session.c, src/outbound_group_session.c): what
    the sessions write, what they make of what they read, and how the two ends agree. */
module GroupSession {
  import opened Words
  import opened Hmac
  import opened Cipher
  import Cbc
  import opened Megolm
  import opened Sizes
  import opened MessageCodec
  import opened Varint
  import opened MessageFormats

  const SESSION_KEY_VERSION: byte := 2
  const SESSION_EXPORT_VERSION: byte := 1
  const RATCHET_LENGTH: nat := 128
  const PUBLIC_KEY_LENGTH: nat := 32
  const SIGNATURE_LENGTH: nat := 64
  const EXPORT_LENGTH: nat := 165  // version, counter, ratchet, public key
  const SESSION_KEY_LENGTH: nat := 229  // and a signature
  const TRAILER: nat := 72  // MAC and signature of a message

  /** "MEGOLM_KEYS" */
  const MEGOLM_INFO: seq<byte> := [0x4D, 0x45, 0x47, 0x4F, 0x4C, 0x4D, 0x5F, 0x4B, 0x45, 0x59, 0x53]

  datatype Error =
    | InvalidBase64 | BadSessionKey | BadSignature | BadMessageVersion | BadMessageFormat
    | OutputBufferTooSmall | UnknownMessageIndex | BadMessageMac | NotEnoughRandom

  /** HMAC of the one-byte seed of each part. */
  function MegolmHash(p: Primitives): Hash {
    (part: Part, n: nat) => Mac(p.compress, part, [n % 0x100])
  }

  function RatchetBytes(d: Parts): (b: seq<byte>)
    ensures |b| == RATCHET_LENGTH
  {
    var first: seq<byte> := d[0];
    first + d[1] + d[2] + d[3]
  }

  function PartsOf(b: seq<byte>): Parts
    requires |b| == RATCHET_LENGTH
  {
    [b[..32], b[32..64], b[64..96], b[96..]]
  }

  lemma PartsRoundTrip(d: Parts)
    ensures PartsOf(RatchetBytes(d)) == d
  {
    var b := RatchetBytes(d);
    assert b[..32] == d[0] && b[32..64] == d[1] && b[64..96] == d[2] && b[96..] == d[3];
    assert d == [d[0], d[1], d[2], d[3]];
  }

  // ----- what the sessions write

  function KeyBody(version: byte, s: State, key: PublicKey): (b: seq<byte>)
    ensures |b| == EXPORT_LENGTH
  {
    [version] + BigEndian32(s.counter) + RatchetBytes(s.data) + key
  }

  /** The key by which the creator of a session shares it: signed. */
  function SessionKey(p: Primitives, s: State, key: SecretKey): (b: seq<byte>)
    ensures |b| == SESSION_KEY_LENGTH
  {
    var body := KeyBody(SESSION_KEY_VERSION, s, p.publicOf(key));
    body + p.sign(key, body)
  }

  /** The key by which a receiver passes a session on: unsigned. */
  function ExportedKey(s: State, key: PublicKey): seq<byte> {
    KeyBody(SESSION_EXPORT_VERSION, s, key)
  }

  function UntaggedMessage(p: Primitives, s: State, plaintext: seq<byte>): seq<byte> {
    EncodedGroupMessage(PROTOCOL_VERSION, s.counter, Ciphertext(p, MEGOLM_INFO, RatchetBytes(s.data), plaintext))
  }

  function TaggedMessage(p: Primitives, s: State, plaintext: seq<byte>): seq<byte> {
    var body := UntaggedMessage(p, s, plaintext);
    body + Tag(p, MEGOLM_INFO, RatchetBytes(s.data), body)
  }

  function GroupMessage(p: Primitives, s: State, key: SecretKey, plaintext: seq<byte>): seq<byte> {
    var tagged := TaggedMessage(p, s, plaintext);
    tagged + p.sign(key, tagged)
  }

  // ----- the same, byte by byte

  /** Part n is hashed by HMAC with the one byte n. */
  lemma HashIs(p: Primitives, part: Part, n: nat)
    requires n < 4
    ensures MegolmHash(p)(part, n) == Mac(p.compress, part, [n])
  {
    hide Mac;
  }

  /** A shared key: version 2, counter, the four parts, the signing key's public half, and its signature of all that. */
  lemma SessionKeyLayout(p: Primitives, s: State, key: SecretKey, body: seq<byte>)
    requires body == [2] + BigEndian32(s.counter) + s.data[0] + s.data[1] + s.data[2] + s.data[3] + p.publicOf(key)
    ensures SessionKey(p, s, key) == body + p.sign(key, body)
  {
    hide BigEndian32;
    assert KeyBody(2, s, p.publicOf(key)) == body;
  }

  /** An exported key: version 1, and no signature. */
  lemma ExportLayout(s: State, key: PublicKey)
    ensures ExportedKey(s, key) == [1] + BigEndian32(s.counter) + s.data[0] + s.data[1] + s.data[2] + s.data[3] + key
  {
    hide BigEndian32;
  }

  /** A message: version 3, the index under tag 8, the ciphertext under tag 0x12, eight bytes of tag, and a signature of all that;
      ciphertext and tag under the bytes of the ratchet and the info "MEGOLM_KEYS". */
  lemma GroupMessageIs(p: Primitives, s: State, key: SecretKey, plaintext: seq<byte>, info: seq<byte>, parts: seq<byte>, c: seq<byte>,
                       body: seq<byte>, raw: seq<byte>)
    requires info == [0x4D, 0x45, 0x47, 0x4F, 0x4C, 0x4D, 0x5F, 0x4B, 0x45, 0x59, 0x53]
    requires parts == [] + s.data[0] + s.data[1] + s.data[2] + s.data[3] && c == Ciphertext(p, info, parts, plaintext)
    requires body == [3] + [0x08] + VarintBytes(s.counter) + [0x12] + VarintBytes(|c|) + c
    requires raw == GroupMessage(p, s, key, plaintext)
    ensures |raw| == |body| + 72 && raw[..|body|] == body
    ensures Tagged(p, info, parts, body, raw[|body|..|body| + 8])
    ensures raw[|body| + 8..] == p.sign(key, raw[..|body| + 8])
  {
    hide Ciphertext;
    hide VarintBytes;
    hide Tagged;
    hide Tag;
    hide EncodedGroupMessage;
    GroupMessageLayout(3, s.counter, c);
    TagIsTagged(p, info, parts, body);
    assert RatchetBytes(s.data) == parts;
    assert TaggedMessage(p, s, plaintext) == body + Tag(p, info, parts, body);
    hide TaggedMessage;
    hide RatchetBytes;
    TwoCuts(body, Tag(p, info, parts, body), p.sign(key, TaggedMessage(p, s, plaintext)), raw);
  }

  lemma TwoCuts(a: seq<byte>, b: seq<byte>, c: seq<byte>, s: seq<byte>)
    requires s == a + b + c
    ensures s[..|a|] == a && s[|a|..|a| + |b|] == b && s[..|a| + |b|] == a + b && s[|a| + |b|..] == c
  {
  }

  // ----- what they read

  /** An inbound session: the earliest ratchet it knows, the latest it has used, whose it is. */
  datatype Inbound = Inbound(initial: State, latest: State, key: PublicKey, verified: bool)

  datatype Imported = Imported(session: Inbound) | Rejected(error: Error)

  /** The session a raw key stands for. */
  function FromKey(p: Primitives, raw: seq<byte>, exported: bool, verified: bool): Imported
    requires |raw| == if exported then EXPORT_LENGTH else SESSION_KEY_LENGTH
  {
    if raw[0] != (if exported then SESSION_EXPORT_VERSION else SESSION_KEY_VERSION) then Rejected(BadSessionKey)
    else
      var s := State(PartsOf(raw[5..133]), FromBigEndian32(raw[1..5]));
      var key: PublicKey := raw[133..165];
      if !exported && !p.verify(key, raw[..165], raw[165..]) then Rejected(BadSignature)
      else Imported(Inbound(s, s, key, !exported || verified))
  }

  /** What a session is after a key has been refused: the ratchets and the key of one whose signature does
      not verify have already been taken over, and only the mark is as it was. */
  function AfterRefusal(was: Inbound, raw: seq<byte>, exported: bool): Inbound
    requires |raw| == if exported then EXPORT_LENGTH else SESSION_KEY_LENGTH
  {
    if raw[0] != (if exported then SESSION_EXPORT_VERSION else SESSION_KEY_VERSION) then was
    else
      var s := State(PartsOf(raw[5..133]), FromBigEndian32(raw[1..5]));
      Inbound(s, s, raw[133..165], was.verified)
  }

  /** A refused session key leaves the session as it was if and only if its version is wrong, or it is, up to
      its signature, the key of this very session, which has not moved from its first ratchet. */
  lemma RefusalKeeps(p: Primitives, was: Inbound, raw: seq<byte>)
    requires |raw| == SESSION_KEY_LENGTH && FromKey(p, raw, false, was.verified).Rejected?
    ensures AfterRefusal(was, raw, false) == was
       <==> || FromKey(p, raw, false, was.verified) == Rejected(BadSessionKey)
            || (was.latest == was.initial && raw[..165] == KeyBody(SESSION_KEY_VERSION, was.initial, was.key))
  {
    hide FromBigEndian32;
    hide PartsOf;
    hide KeyBody;
    if raw[0] == SESSION_KEY_VERSION {
      var s := State(PartsOf(raw[5..133]), FromBigEndian32(raw[1..5]));
      BodyOfParts(SESSION_KEY_VERSION, s, raw[133..165], raw);
      var body := KeyBody(SESSION_KEY_VERSION, was.initial, was.key);
      if raw[..165] == body {
        KeyBodyParts(SESSION_KEY_VERSION, was.initial, was.key, body, raw[165..], raw);
      }
    }
  }

  lemma BodyOfParts(version: byte, s: State, key: PublicKey, raw: seq<byte>)
    requires |raw| >= EXPORT_LENGTH && raw[0] == version && key == raw[133..165]
    requires s == State(PartsOf(raw[5..133]), FromBigEndian32(raw[1..5]))
    ensures raw[..165] == KeyBody(version, s, key)
  {
    hide BigEndian32;
    hide FromBigEndian32;
    BigEndian32RoundTrip(s.counter);
    FromBigEndian32Injective(raw[1..5], BigEndian32(s.counter));
    var d := raw[5..133];
    assert RatchetBytes(PartsOf(d)) == d;
    assert raw[..165] == [version] + raw[1..5] + d + key;
  }

  /** A key is accepted if and only if its version is right and, unless it was exported, it carries the signature of the key in it;
      it is then taken over slice by slice. Of the refusals, the version comes first. */
  lemma FromKeyIs(p: Primitives, raw: seq<byte>, exported: bool, verified: bool)
    requires |raw| == if exported then 165 else 229
    ensures var r := FromKey(p, raw, exported, verified);
            var known := raw[0] == if exported then 1 else 2;
            var signed := !exported && p.verify(raw[133..165], raw[..165], raw[165..]);
            && (r == Rejected(BadSessionKey) <==> !known)
            && (r == Rejected(BadSignature) <==> known && !exported && !signed)
            && (r.Imported? <==> known && (exported || signed))
            && (r.Imported? ==>
                  && r.session.initial.counter == raw[1] as int * 0x100_0000 + raw[2] as int * 0x1_0000 + raw[3] as int * 0x100 + raw[4] as int
                  && r.session.initial.data == [raw[5..37], raw[37..69], raw[69..101], raw[101..133]]
                  && r.session.latest == r.session.initial && r.session.key == raw[133..165]
                  && r.session.verified == (verified || !exported))
  {
    var d := raw[5..133];
    assert d[..32] == raw[5..37] && d[32..64] == raw[37..69] && d[64..96] == raw[69..101] && d[96..] == raw[101..133];
    assert raw[1..5] == [raw[1], raw[2], raw[3], raw[4]];
  }

  lemma KeyBodyParts(version: byte, s: State, key: PublicKey, b: seq<byte>, rest: seq<byte>, raw: seq<byte>)
    requires b == KeyBody(version, s, key) && raw == b + rest
    ensures raw[0] == version && FromBigEndian32(raw[1..5]) == s.counter && PartsOf(raw[5..133]) == s.data
    ensures raw[133..165] == key && raw[..165] == b && raw[165..] == rest
  {
    hide BigEndian32;
    hide FromBigEndian32;
    hide RatchetBytes;
    hide PartsOf;
    BigEndian32RoundTrip(s.counter);
    PartsRoundTrip(s.data);
    assert raw[1..5] == BigEndian32(s.counter);
    assert raw[5..133] == RatchetBytes(s.data);
    assert raw[133..165] == key;
  }

  /** A session key gives its receiver the ratchet and the key of its sender. */
  lemma SessionKeyImports(p: Primitives, s: State, key: SecretKey, verified: bool)
    requires Sound(p)
    ensures FromKey(p, SessionKey(p, s, key), false, verified) == Imported(Inbound(s, s, p.publicOf(key), true))
  {
    hide PartsOf;
    hide FromBigEndian32;
    hide KeyBody;
    var body := KeyBody(SESSION_KEY_VERSION, s, p.publicOf(key));
    KeyBodyParts(SESSION_KEY_VERSION, s, p.publicOf(key), body, p.sign(key, body), SessionKey(p, s, key));
  }

  lemma ExportImports(p: Primitives, s: State, key: PublicKey, verified: bool)
    ensures |ExportedKey(s, key)| == EXPORT_LENGTH
    ensures FromKey(p, ExportedKey(s, key), true, verified) == Imported(Inbound(s, s, key, verified))
  {
    hide PartsOf;
    hide FromBigEndian32;
    hide KeyBody;
    var body := ExportedKey(s, key);
    KeyBodyParts(SESSION_EXPORT_VERSION, s, key, body, [], body);
  }

  // ----- the cache of ratchets

  const HALF: nat := TWO_TO_THE_31

  /** The ratchet for an index, and what becomes of the latest one. */
  function Fetched(h: Hash, initial: State, latest: State, index: uint32): (State, Option<State>) {
    if Wrap32(index - latest.counter) < HALF then
      var l := Iterate(h, latest, Wrap32(index - latest.counter));
      (l, Some(l))
    else if Wrap32(index - initial.counter) >= HALF then (latest, None)
    else (latest, Some(Iterate(h, initial, Wrap32(index - initial.counter))))
  }

  /** How far from the initial ratchet a request goes, when the latest one is `ahead` steps from it. */
  function StepsTaken(initial: uint32, ahead: nat, index: uint32): nat {
    var forward := Wrap32(index - initial - ahead);
    if forward < HALF then ahead + forward else Wrap32(index - initial)
  }

  function AheadAfter(initial: uint32, ahead: nat, index: uint32): nat {
    var forward := Wrap32(index - initial - ahead);
    if forward < HALF then ahead + forward else ahead
  }

  predicate Refuses(initial: uint32, ahead: nat, index: uint32) {
    Wrap32(index - initial - ahead) >= HALF && Wrap32(index - initial) >= HALF
  }

  /** Whatever was asked before, the latest ratchet is some number of steps from the initial one, and
      a request is answered by a number of steps from there. */
  lemma FetchedIsIteration(h: Hash, initial: State, latest: State, ahead: nat, index: uint32)
    requires latest == Iterate(h, initial, ahead)
    ensures var (l, m) := Fetched(h, initial, latest, index);
            && l == Iterate(h, initial, AheadAfter(initial.counter, ahead, index))
            && m == if Refuses(initial.counter, ahead, index) then None
                    else Some(Iterate(h, initial, StepsTaken(initial.counter, ahead, index)))
  {
    hide Iterate;
    IterateCounter(h, initial, ahead);
    WrapDifference(index, initial.counter + ahead);
    assert index - (initial.counter + ahead) == index - initial.counter - ahead;
    IterateAdd(h, initial, ahead, Wrap32(index - initial.counter - ahead));
  }

  lemma WrapDifference(a: int, b: int)
    ensures Wrap32(a - Wrap32(b)) == Wrap32(a - b)
  {
  }

  /** The answer lies at exactly the requested distance if and only if the code does not step the latest
      ratchet forward, or the latest ratchet was not yet beyond that distance. */
  lemma ExactUnlessLapped(initial: uint32, ahead: nat, index: uint32)
    ensures StepsTaken(initial, ahead, index) == Wrap32(index - initial)
       <==> (Wrap32(index - initial - ahead) < HALF ==> ahead <= Wrap32(index - initial))
    ensures StepsTaken(initial, ahead, index) % TWO_TO_THE_32 == Wrap32(index - initial)
  {
    var d, f := Wrap32(index - initial), Wrap32(index - initial - ahead);
    assert Wrap32(f + ahead) == d by {
      Wrap32Add(index - initial - ahead, ahead);
    }
  }

  /** Requests within half the counter range of the first known index. */
  predicate InWindow(initial: uint32, index: uint32) {
    Wrap32(index - initial) < HALF
  }

  /** While all requests are in the window, every one is granted and answered exactly, and
      the latest ratchet stays in the window. */
  lemma WindowIsExact(initial: uint32, ahead: nat, index: uint32)
    requires ahead < HALF && InWindow(initial, index)
    ensures !Refuses(initial, ahead, index)
    ensures StepsTaken(initial, ahead, index) == Wrap32(index - initial)
    ensures AheadAfter(initial, ahead, index) == (if ahead < Wrap32(index - initial) then Wrap32(index - initial) else ahead)
    ensures AheadAfter(initial, ahead, index) < HALF
  {
    var d := Wrap32(index - initial);
    WrapOfDifference(index - initial, ahead);
  }

  lemma WrapOfDifference(x: int, a: nat)
    requires a < TWO_TO_THE_32
    ensures Wrap32(x - a) == if a <= Wrap32(x) then Wrap32(x) - a else Wrap32(x) - a + TWO_TO_THE_32
  {
  }

  /** The answers to a run of requests. */
  function Answers(h: Hash, initial: State, latest: State, requests: seq<uint32>): seq<Option<State>>
    decreases |requests|
  {
    if requests == [] then [] else
      var (l, m) := Fetched(h, initial, latest, requests[0]);
      [m] + Answers(h, initial, l, requests[1..])
  }

  /** Over every run of requests in the window, whatever their order and however often repeated, each is
      answered by the initial ratchet advanced by exactly its distance. */
  lemma {:induction false} RunIsExact(h: Hash, initial: State, latest: State, ahead: nat, requests: seq<uint32>, answers: seq<Option<State>>)
    requires latest == Iterate(h, initial, ahead) && ahead < HALF
    requires forall k :: 0 <= k < |requests| ==> InWindow(initial.counter, requests[k])
    requires answers == Answers(h, initial, latest, requests)
    ensures |answers| == |requests|
    ensures forall k :: 0 <= k < |requests| ==>
      answers[k] == Some(Iterate(h, initial, Wrap32(requests[k] - initial.counter)))
    decreases |requests|
  {
    hide Iterate;
    hide Fetched;
    hide InWindow;
    if requests != [] {
      var index := requests[0];
      var (l, m) := Fetched(h, initial, latest, index);
      FetchedIsIteration(h, initial, latest, ahead, index);
      WindowIsExact(initial.counter, ahead, index);
      RunIsExact(h, initial, l, AheadAfter(initial.counter, ahead, index), requests[1..], answers[1..]);
      assert forall k :: 0 < k < |requests| ==> requests[k] == requests[1..][k - 1] && answers[k] == answers[1..][k - 1];
    }
  }

  const ONES: Part := seq(32, _ => 1)

  lemma {:induction false} FirstPartStays(h: Hash, s: State, n: nat)
    requires h == ((part: Part, i: nat) => ONES) && s.data[0] == ONES
    ensures Iterate(h, s, n).data[0] == ONES
  {
    hide RekeyLevel;
    if n > 0 {
      FirstPartStays(h, s, n - 1);
    }
  }

  /** Outside the window it can go wrong: after two jumps forward, the first known index itself is answered,
      whatever the hash, by a ratchet that has gone all the way round. */
  lemma LapIsAnswered(h: Hash, initial: State, requests: seq<uint32>)
    requires requests == [Wrap32(initial.counter + 0x7FFF_FFFF), Wrap32(initial.counter + 0xFFFF_FFFE), initial.counter]
    ensures |Answers(h, initial, initial, requests)| == 3
    ensures Answers(h, initial, initial, requests)[2] == Some(Iterate(h, initial, TWO_TO_THE_32))
  {
    hide Iterate;
    hide Fetched;
    hide Refuses;
    hide StepsTaken;
    hide AheadAfter;
    var (l1, m1) := Fetched(h, initial, initial, requests[0]);
    var (l2, m2) := Fetched(h, initial, l1, requests[1]);
    var (l3, m3) := Fetched(h, initial, l2, requests[2]);
    ZeroSteps(h, initial);
    StepsOfLap(initial.counter);
    FetchedIsIteration(h, initial, initial, 0, requests[0]);
    FetchedIsIteration(h, initial, l1, 0x7FFF_FFFF, requests[1]);
    FetchedIsIteration(h, initial, l2, 0xFFFF_FFFE, requests[2]);
    assert requests[1..] == [requests[1], requests[2]] && requests[1..][1..] == [requests[2]];
    assert Answers(h, initial, l2, [requests[2]]) == [m3] + Answers(h, initial, l3, []);
  }

  lemma StepsOfLap(c: uint32)
    ensures AheadAfter(c, 0, Wrap32(c + 0x7FFF_FFFF)) == 0x7FFF_FFFF
    ensures AheadAfter(c, 0x7FFF_FFFF, Wrap32(c + 0xFFFF_FFFE)) == 0xFFFF_FFFE
    ensures StepsTaken(c, 0xFFFF_FFFE, c) == TWO_TO_THE_32 && !Refuses(c, 0xFFFF_FFFE, c)
  {
  }

  /** That ratchet is another than the one asked for. */
  lemma LapGivesAnotherRatchet(h: Hash, initial: State, requests: seq<uint32>)
    requires h == ((part: Part, i: nat) => ONES)
    requires initial == State([ZERO_PART, ZERO_PART, ZERO_PART, ZERO_PART], 0)
    requires requests == [0x7FFF_FFFF, 0xFFFF_FFFE, 0]
    ensures |Answers(h, initial, initial, requests)| == 3
    ensures Answers(h, initial, initial, requests)[2] != Some(Iterate(h, initial, Wrap32(requests[2] - initial.counter)))
  {
    hide Iterate;
    hide Answers;
    ZeroSteps(h, initial);
    LapIsAnswered(h, initial, requests);
    FullLap(h, initial);
  }

  lemma ZeroSteps(h: Hash, s: State)
    ensures Iterate(h, s, 0) == s
  {
  }

  lemma FullLap(h: Hash, initial: State)
    requires h == ((part: Part, i: nat) => ONES)
    requires initial == State([ZERO_PART, ZERO_PART, ZERO_PART, ZERO_PART], 0)
    ensures Iterate(h, initial, TWO_TO_THE_32).data[0] == ONES != initial.data[0]
  {
    hide Iterate;
    LastStep(h, initial, 0, 0x100_0000);
    var s := Iterate(h, initial, 0x100_0000);
    FirstPartStays(h, s, TWO_TO_THE_32 - 0x100_0000);
    IterateAdd(h, initial, 0x100_0000, TWO_TO_THE_32 - 0x100_0000);
    assert ONES[0] == 1 && ZERO_PART[0] == 0;
  }

  // ----- decrypting

  datatype Result = Plain(plaintext: seq<byte>, index: uint32) | Failed(error: Error) | BeyondInput

  /** What an inbound session makes of a message, and what it becomes. A verified signature is enough
      for the latest ratchet to move; a message that opens also marks the session as verified. */
  function Decrypted(p: Primitives, s: Inbound, raw: seq<byte>, room: nat): (Inbound, Result) {
    if |raw| <= TRAILER || raw[0] != PROTOCOL_VERSION then (s, Failed(BadMessageVersion))
    else
      var fields := Scan(raw[1..|raw| - TRAILER]);
      match (Last(fields, GROUP_MESSAGE_INDEX_TAG), Last(fields, GROUP_CIPHERTEXT_TAG))
      case (Some(Number(index)), Some(Text(ciphertext))) =>
        Opened(p, s, raw[..|raw| - SIGNATURE_LENGTH], raw[|raw| - SIGNATURE_LENGTH..], Wrap32(index), ciphertext, room)
      case _ => (s, Failed(BadMessageFormat))
  }

  function Opened(p: Primitives, s: Inbound, tagged: seq<byte>, signature: seq<byte>, index: uint32,
                  ciphertext: seq<byte>, room: nat): (Inbound, Result)
    requires |signature| == SIGNATURE_LENGTH && |tagged| >= Cipher.MAC_LENGTH
  {
    if !p.verify(s.key, tagged, signature) then (s, Failed(BadSignature))
    else if room < |ciphertext| then (s, Failed(OutputBufferTooSmall))
    else
      var (latest, ratchet) := Fetched(MegolmHash(p), s.initial, s.latest, index);
      if ratchet == None then (s.(latest := latest), Failed(UnknownMessageIndex))
      else
        var key := RatchetBytes(ratchet.value.data);
        var body := |tagged| - Cipher.MAC_LENGTH;
        match OutcomeOf(p, MEGOLM_INFO, key, tagged[..body], tagged[body..], ciphertext)
        case Refused => (s.(latest := latest), Failed(BadMessageMac))
        case BeyondCiphertext => (s.(latest := latest), BeyondInput)
        case Plaintext(n) =>
          (s.(latest := latest, verified := true), Plain(DecryptedBlocks(p, MEGOLM_INFO, key, ciphertext)[..n], index))
  }

  /** A message is of a wrong version if it is too short for tag and signature or does not start with 3, and of a wrong format if
      index or ciphertext are missing; no other message is refused for either. */
  lemma UnreadableIsRefused(p: Primitives, s: Inbound, raw: seq<byte>, room: nat)
    ensures Decrypted(p, s, raw, room) == (s, Failed(BadMessageVersion)) <==> |raw| <= 72 || raw[0] != 3
    ensures Decrypted(p, s, raw, room).1 == Failed(BadMessageVersion) <==> |raw| <= 72 || raw[0] != 3
    ensures Decrypted(p, s, raw, room).1 == Failed(BadMessageFormat)
       <==> |raw| > 72 && raw[0] == 3
            && var fields := Scan(raw[1..|raw| - 72]);
               !(Last(fields, 0x08).Some? && Last(fields, 0x08).value.Number? && Last(fields, 0x12).Some? && Last(fields, 0x12).value.Text?)
    ensures Decrypted(p, s, raw, room).1 == Failed(BadMessageFormat) ==> Decrypted(p, s, raw, room).0 == s
  {
    hide Fetched;
    hide OutcomeOf;
    hide DecryptedBlocks;
    hide Scan;
    hide Last;
    hide RatchetBytes;
  }

  /** The index lies 2^31 or more ahead of both ratchets, that is, behind them. */
  predicate OutOfReach(s: Inbound, index: uint32) {
    (index - s.latest.counter) % 0x1_0000_0000 >= 0x8000_0000 && (index - s.initial.counter) % 0x1_0000_0000 >= 0x8000_0000
  }

  /** What becomes of a message that reads well, case by case. It opens if and only if the signature of the session's key is right, the
      plaintext has room, the index is within reach, the tag is that of the ratchet fetched for the index, and the ciphertext is a
      positive number of blocks with a padding no longer than it. */
  lemma ReadableOutcome(p: Primitives, s: Inbound, raw: seq<byte>, room: nat, index: uint32, c: seq<byte>, key: seq<byte>, info: seq<byte>)
    requires |raw| > 72 && raw[0] == 3
    requires var fields := Scan(raw[1..|raw| - 72]);
             Last(fields, 0x08).Some? && Last(fields, 0x08).value.Number? && index == Last(fields, 0x08).value.value % 0x1_0000_0000
             && Last(fields, 0x12) == Some(Text(c))
    requires info == [0x4D, 0x45, 0x47, 0x4F, 0x4C, 0x4D, 0x5F, 0x4B, 0x45, 0x59, 0x53]
    requires var fetched := Fetched(MegolmHash(p), s.initial, s.latest, index).1;
             fetched.Some? ==> key == RatchetBytes(fetched.value.data)
    ensures var r := Decrypted(p, s, raw, room).1;
            var signed := p.verify(s.key, raw[..|raw| - 64], raw[|raw| - 64..]);
            var tagged := Tagged(p, info, key, raw[..|raw| - 72], raw[|raw| - 72..|raw| - 64]);
            var whole := |c| > 0 && |c| % 16 == 0;
            var reached := signed && |c| <= room && !OutOfReach(s, index);
            && (r == Failed(BadSignature) <==> !signed)
            && (r == Failed(OutputBufferTooSmall) <==> signed && room < |c|)
            && (r == Failed(UnknownMessageIndex) <==> signed && |c| <= room && OutOfReach(s, index))
            && (r == Failed(BadMessageMac) <==> reached && (!tagged || (whole && DecryptedBlocks(p, info, key, c)[|c| - 1] > |c|)))
            && (r == BeyondInput <==> reached && tagged && !whole)
            && (r.Plain? <==> reached && tagged && whole && DecryptedBlocks(p, info, key, c)[|c| - 1] <= |c|)
            && (r.Plain? ==> r.index == index
                             && r.plaintext == DecryptedBlocks(p, info, key, c)[..|c| - DecryptedBlocks(p, info, key, c)[|c| - 1] as int])
            && (!signed || room < |c| ==> Decrypted(p, s, raw, room).0 == s)
  {
    hide OutcomeOf;
    hide DecryptedBlocks;
    hide Scan;
    hide Last;
    hide RatchetBytes;
    hide Tagged;
    hide Iterate;
    hide MegolmHash;
    var tagged := raw[..|raw| - 64];
    assert tagged[..|tagged| - 8] == raw[..|raw| - 72] && tagged[|tagged| - 8..] == raw[|raw| - 72..|raw| - 64];
    OutcomeIs(p, info, key, raw[..|raw| - 72], raw[|raw| - 72..|raw| - 64], c);
  }

  /** Nothing opens that does not carry the signature of the session's key. */
  lemma OnlySignedOpens(p: Primitives, s: Inbound, raw: seq<byte>, room: nat)
    requires Decrypted(p, s, raw, room).1.Plain?
    ensures |raw| > 72 && raw[0] == 3 && p.verify(s.key, raw[..|raw| - 64], raw[|raw| - 64..])
  {
    hide Fetched;
    hide OutcomeOf;
    hide DecryptedBlocks;
    hide Scan;
    hide Last;
    hide RatchetBytes;
  }

  /** The index that is reported to the caller, before anything of the message is verified. */
  function ReportedIndex(raw: seq<byte>): Option<uint32> {
    if |raw| <= TRAILER || raw[0] != PROTOCOL_VERSION then None
    else
      var fields := Scan(raw[1..|raw| - TRAILER]);
      match (Last(fields, GROUP_MESSAGE_INDEX_TAG), Last(fields, GROUP_CIPHERTEXT_TAG))
      case (Some(Number(index)), Some(Text(_))) => Some(Wrap32(index))
      case _ => None
  }

  /** A plaintext comes with the index that was reported; an index may be reported of a message that is then refused. */
  lemma PlainIsReported(p: Primitives, s: Inbound, raw: seq<byte>, room: nat)
    ensures var r := Decrypted(p, s, raw, room).1;
            && (r.Plain? ==> ReportedIndex(raw) == Some(r.index))
            && (ReportedIndex(raw) == None <==> r == Failed(BadMessageVersion) || r == Failed(BadMessageFormat))
  {
    hide Fetched;
    hide OutcomeOf;
    hide DecryptedBlocks;
    hide Scan;
    hide Last;
    hide RatchetBytes;
  }

  lemma MessageReads(p: Primitives, s: State, key: SecretKey, plaintext: seq<byte>, raw: seq<byte>)
    requires raw == GroupMessage(p, s, key, plaintext)
    requires |plaintext| < TWO_TO_THE_32
    ensures |raw| > TRAILER && raw[0] == PROTOCOL_VERSION
    ensures raw[..|raw| - SIGNATURE_LENGTH] == TaggedMessage(p, s, plaintext)
    ensures raw[|raw| - SIGNATURE_LENGTH..] == p.sign(key, TaggedMessage(p, s, plaintext))
    ensures var fields := Scan(raw[1..|raw| - TRAILER]);
            && Last(fields, GROUP_MESSAGE_INDEX_TAG) == Some(Number(s.counter))
            && Last(fields, GROUP_CIPHERTEXT_TAG) == Some(Text(Ciphertext(p, MEGOLM_INFO, RatchetBytes(s.data), plaintext)))
  {
    hide Ciphertext;
    hide RatchetBytes;
    hide NumberField;
    hide TextField;
    hide Tag;
    hide Scan;
    hide Last;
    var c := Ciphertext(p, MEGOLM_INFO, RatchetBytes(s.data), plaintext);
    var body := UntaggedMessage(p, s, plaintext);
    assert raw == body + (Tag(p, MEGOLM_INFO, RatchetBytes(s.data), body) + p.sign(key, TaggedMessage(p, s, plaintext)));
    assert raw[1..|raw| - TRAILER] == body[1..];
    assert body[1..] == NumberField(GROUP_MESSAGE_INDEX_TAG, s.counter) + TextField(GROUP_CIPHERTEXT_TAG, c);
    GroupBody(s.counter, c);
    TwoTokens(Token([GROUP_MESSAGE_INDEX_TAG], Number(s.counter)), Token([GROUP_CIPHERTEXT_TAG], Text(c)));
  }

  lemma TwoTokens(a: Token, b: Token)
    requires a.tag == [GROUP_MESSAGE_INDEX_TAG] && b.tag == [GROUP_CIPHERTEXT_TAG]
    ensures Last([a, b], GROUP_MESSAGE_INDEX_TAG) == Some(a.payload)
    ensures Last([a, b], GROUP_CIPHERTEXT_TAG) == Some(b.payload)
  {
    assert [a, b][..1] == [a];
  }

  /** An inbound session of this outbound session: it knows the ratchet `start` and the signing key, and
      its latest ratchet is `ahead` steps further, within the window. */
  ghost predicate Follows(p: Primitives, s: Inbound, start: State, key: SecretKey, ahead: nat) {
    && s.initial == start && s.key == p.publicOf(key)
    && ahead < HALF && s.latest == Iterate(MegolmHash(p), start, ahead)
  }

  /** A message sent d steps after the shared ratchet opens to its plaintext and index, and the session still follows. */
  lemma GenuineOpens(p: Primitives, s: Inbound, start: State, key: SecretKey, ahead: nat, d: nat, plaintext: seq<byte>, room: nat)
    requires Sound(p) && Follows(p, s, start, key, ahead) && d < HALF
    requires |plaintext| < TWO_TO_THE_32 && room >= Cbc.EncryptedLength(|plaintext|)
    ensures var sent := Iterate(MegolmHash(p), start, d);
            var (s', r) := Decrypted(p, s, GroupMessage(p, sent, key, plaintext), room);
            && r == Plain(plaintext, Wrap32(start.counter + d)) && s'.verified
            && Follows(p, s', start, key, if ahead < d then d else ahead)
  {
    hide Ciphertext;
    hide RatchetBytes;
    hide OutcomeOf;
    hide DecryptedBlocks;
    hide Iterate;
    hide Fetched;
    hide GroupMessage;
    hide Scan;
    hide Last;
    hide MegolmHash;
    hide Tag;
    hide UntaggedMessage;
    var h := MegolmHash(p);
    var sent := Iterate(h, start, d);
    var raw := GroupMessage(p, sent, key, plaintext);
    var bytes := RatchetBytes(sent.data);
    var body := UntaggedMessage(p, sent, plaintext);
    IterateCounter(h, start, d);
    MessageReads(p, sent, key, plaintext, raw);
    CiphertextOpens(p, MEGOLM_INFO, bytes, plaintext, body);
    FetchedAtDistance(h, start, s.latest, ahead, d);
    var tagged := TaggedMessage(p, sent, plaintext);
    assert tagged[..|tagged| - Cipher.MAC_LENGTH] == body;
    assert tagged[|tagged| - Cipher.MAC_LENGTH..] == Tag(p, MEGOLM_INFO, bytes, body);
  }

  lemma FetchedAtDistance(h: Hash, start: State, latest: State, ahead: nat, d: nat)
    requires latest == Iterate(h, start, ahead) && ahead < HALF && d < HALF
    ensures Fetched(h, start, latest, Wrap32(start.counter + d))
         == (Iterate(h, start, if ahead < d then d else ahead), Some(Iterate(h, start, d)))
  {
    hide Iterate;
    hide Fetched;
    var index := Wrap32(start.counter + d);
    assert Wrap32(index - start.counter) == d;
    FetchedIsIteration(h, start, latest, ahead, index);
    WindowIsExact(start.counter, ahead, index);
  }

  // ----- runs

  /** The index for which a message makes its receiver fetch a ratchet: it must read well, carry the
      signature of the key, and fit into the room for the plaintext. */
  function Requested(p: Primitives, key: PublicKey, raw: seq<byte>, room: nat): Option<uint32> {
    if |raw| <= TRAILER || raw[0] != PROTOCOL_VERSION then None
    else
      var fields := Scan(raw[1..|raw| - TRAILER]);
      match (Last(fields, GROUP_MESSAGE_INDEX_TAG), Last(fields, GROUP_CIPHERTEXT_TAG))
      case (Some(Number(index)), Some(Text(ciphertext))) =>
        if p.verify(key, raw[..|raw| - SIGNATURE_LENGTH], raw[|raw| - SIGNATURE_LENGTH..]) && |ciphertext| <= room
        then Some(Wrap32(index)) else None
      case _ => None
  }

  /** Only a request moves the session, and it moves no more than its latest ratchet and the mark. */
  lemma OnlyRequestsMove(p: Primitives, s: Inbound, raw: seq<byte>, room: nat)
    ensures var s' := Decrypted(p, s, raw, room).0;
            var request := Requested(p, s.key, raw, room);
            && s'.initial == s.initial && s'.key == s.key && (s.verified ==> s'.verified)
            && s'.latest == if request.Some? then Fetched(MegolmHash(p), s.initial, s.latest, request.value).0 else s.latest
  {
    hide Fetched;
    hide OutcomeOf;
    hide DecryptedBlocks;
    hide Scan;
    hide Last;
    hide RatchetBytes;
    hide MegolmHash;
  }

  /** Every message that asks for nothing outside the window, good or bad, leaves the session following. */
  lemma KeepsFollowing(p: Primitives, s: Inbound, start: State, key: SecretKey, ahead: nat, raw: seq<byte>, room: nat) returns (next: nat)
    requires Follows(p, s, start, key, ahead)
    requires var request := Requested(p, s.key, raw, room); request.Some? ==> InWindow(start.counter, request.value)
    ensures Follows(p, Decrypted(p, s, raw, room).0, start, key, next)
  {
    hide Decrypted;
    hide Requested;
    hide Fetched;
    hide Iterate;
    OnlyRequestsMove(p, s, raw, room);
    var request := Requested(p, s.key, raw, room);
    next := ahead;
    if request.Some? {
      next := AheadAfter(start.counter, ahead, request.value);
      FetchedIsIteration(MegolmHash(p), start, s.latest, ahead, request.value);
      WindowIsExact(start.counter, ahead, request.value);
    }
  }

  function Results(p: Primitives, s: Inbound, raws: seq<seq<byte>>, room: nat): seq<Result>
    decreases |raws|
  {
    if raws == [] then [] else
      var (next, r) := Decrypted(p, s, raws[0], room);
      [r] + Results(p, next, raws[1..], room)
  }

  /** End to end: in a run of any messages at all, none asking for an index outside the window, each message
      that was sent from a later ratchet opens to its plaintext and index, whatever came before it,
      in any order and however often. */
  lemma {:induction false} RunOpens(p: Primitives, s: Inbound, start: State, key: SecretKey, ahead: nat, raws: seq<seq<byte>>,
                                    room: nat, results: seq<Result>, k: nat, d: nat, plaintext: seq<byte>)
    requires Sound(p) && Follows(p, s, start, key, ahead)
    requires forall j :: 0 <= j < |raws| ==>
      var request := Requested(p, p.publicOf(key), raws[j], room);
      request.Some? ==> InWindow(start.counter, request.value)
    requires results == Results(p, s, raws, room)
    requires k < |raws| && d < HALF && |plaintext| < TWO_TO_THE_32 && room >= Cbc.EncryptedLength(|plaintext|)
    requires raws[k] == GroupMessage(p, Iterate(MegolmHash(p), start, d), key, plaintext)
    ensures |results| == |raws| && results[k] == Plain(plaintext, Wrap32(start.counter + d))
    decreases |raws|
  {
    hide Decrypted;
    hide Requested;
    hide InWindow;
    hide Iterate;
    hide GroupMessage;
    hide Follows;
    ResultsLength(p, s, raws, room);
    var next := Decrypted(p, s, raws[0], room).0;
    SameKey(p, s, start, key, ahead);
    if k == 0 {
      GenuineOpens(p, s, start, key, ahead, d, plaintext, room);
    } else {
      var more := KeepsFollowing(p, s, start, key, ahead, raws[0], room);
      RunOpens(p, next, start, key, more, raws[1..], room, results[1..], k - 1, d, plaintext);
    }
  }

  lemma SameKey(p: Primitives, s: Inbound, start: State, key: SecretKey, ahead: nat)
    requires Follows(p, s, start, key, ahead)
    ensures s.key == p.publicOf(key)
  {
  }

  lemma {:induction false} ResultsLength(p: Primitives, s: Inbound, raws: seq<seq<byte>>, room: nat)
    ensures |Results(p, s, raws, room)| == |raws|
    decreases |raws|
  {
    hide Decrypted;
    if raws != [] {
      ResultsLength(p, Decrypted(p, s, raws[0], room).0, raws[1..], room);
    }
  }

  /** The receiver of a session key follows its sender from the ratchet that was shared. */
  lemma SharedKeyFollows(p: Primitives, s: State, key: SecretKey, verified: bool)
    requires Sound(p)
    ensures FromKey(p, SessionKey(p, s, key), false, verified).Imported?
    ensures Follows(p, FromKey(p, SessionKey(p, s, key), false, verified).session, s, key, 0)
  {
    hide FromKey;
    hide SessionKey;
    SessionKeyImports(p, s, key, verified);
  }

  /** A session imported from an export made e steps from the start agrees with the exporter on every index from
      there on. An earlier index it refuses if and only if that index, seen from its latest ratchet, is not
      more than half the counter range behind. */
  lemma ImportAgrees(h: Hash, start: State, latest: State, ahead: nat, e: nat, exported: State, importedLatest: State,
                     importedAhead: nat, d: nat, index: uint32)
    requires latest == Iterate(h, start, ahead) && ahead < HALF
    requires e < HALF && exported == Iterate(h, start, e)
    requires importedLatest == Iterate(h, exported, importedAhead) && importedAhead < HALF
    requires d < HALF && index == Wrap32(start.counter + d)
    ensures e <= d ==> Fetched(h, exported, importedLatest, index).1 == Fetched(h, start, latest, index).1
    ensures d < e ==> (Fetched(h, exported, importedLatest, index).1 == None <==> e - d + importedAhead <= HALF)
  {
    hide Iterate;
    hide Fetched;
    hide Refuses;
    hide Wrap32;
    IterateCounter(h, start, e);
    FetchedAtDistance(h, start, latest, ahead, d);
    if e <= d {
      CounterFurther(start.counter, e, d);
      FetchedAtDistance(h, exported, importedLatest, importedAhead, d - e);
      IterateAdd(h, start, e, d - e);
    } else {
      FetchedIsIteration(h, exported, importedLatest, importedAhead, index);
      EarlierIsRefused(start.counter, e, d, importedAhead);
    }
  }

  /** Otherwise the earlier index is answered, by the exported ratchet advanced almost all the way round. */
  lemma EarlierIsAnswered(h: Hash, exported: State, importedLatest: State, importedAhead: nat, back: nat, index: uint32)
    requires importedLatest == Iterate(h, exported, importedAhead) && importedAhead < HALF
    requires 0 < back < HALF && index == Wrap32(exported.counter - back)
    requires back + importedAhead > HALF
    ensures Fetched(h, exported, importedLatest, index).1 == Some(Iterate(h, exported, TWO_TO_THE_32 - back))
  {
    hide Iterate;
    hide Fetched;
    FetchedIsIteration(h, exported, importedLatest, importedAhead, index);
    assert Wrap32(index - exported.counter) == TWO_TO_THE_32 - back;
    WrapOfDifference(index - exported.counter, importedAhead);
  }

  /** For example: exported two steps on, and used up to the end of its window since, a session answers the
      first index, which it was not meant to know. */
  lemma EarlierMayBeAnswered(h: Hash, start: State, exported: State, importedLatest: State)
    requires exported == Iterate(h, start, 2) && importedLatest == Iterate(h, exported, HALF - 1)
    ensures Fetched(h, exported, importedLatest, start.counter).1 != None
    ensures Fetched(h, exported, importedLatest, start.counter).1 == Some(Iterate(h, exported, TWO_TO_THE_32 - 2))
  {
    hide Iterate;
    hide Fetched;
    IterateCounter(h, start, 2);
    EarlierIsAnswered(h, exported, importedLatest, HALF - 1, 2, start.counter);
  }

  lemma CounterFurther(c: uint32, e: nat, d: nat)
    requires e <= d
    ensures Wrap32(Wrap32(c + e) + (d - e)) == Wrap32(c + d)
  {
    Wrap32Add(c + e, d - e);
  }

  lemma EarlierIsRefused(c: uint32, e: nat, d: nat, ahead: nat)
    requires d < e < HALF && ahead < HALF
    ensures Refuses(Wrap32(c + e), ahead, Wrap32(c + d)) <==> e - d + ahead <= HALF
  {
    var x := Wrap32(c + d) - Wrap32(c + e);
    assert x == d - e || x == d - e + TWO_TO_THE_32 || x == d - e - TWO_TO_THE_32;
    assert Wrap32(x) == d - e + TWO_TO_THE_32;
    assert Wrap32(x - ahead) == d - e - ahead + TWO_TO_THE_32;
  }
}
