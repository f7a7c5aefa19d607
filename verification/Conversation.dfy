/** Two ends of the double ratchet and the network between them.

    Chains are numbered over the whole conversation: chain n starts with ratchet key T(n), the
    even chains are Alice's and the odd ones Bob's. A `View` is what one end knows in terms of
    those numbers, and `Concrete` the keys that such an end must hold. Every operation of the
    ratchet is proved to act on the keys exactly as a small step acts on the view; what holds of
    conversations is then proved about views. */
module Conversation {
  import opened Words
  import opened BoundedList
  import opened KeyTerms
  import opened DoubleRatchet
  import opened Sizes

  // ----- the conversation as a whole

  /** The master secret, the ratchet keys T(0), T(1), ... and what was sent on each chain. */
  datatype History = History(master: MasterSecret, keys: seq<nat>, sent: seq<seq<Plaintext>>)

  ghost predicate Sound(h: History) {
    && |h.keys| == |h.sent| > 0
    && (forall a, b :: 0 <= a < b < |h.keys| ==> h.keys[a] != h.keys[b])
    && (forall n :: 0 <= n < |h.sent| ==> |h.sent[n]| < TWO_TO_THE_32)
  }

  /** R(n): the root key after ratchet key T(n). */
  function RootAt(master: MasterSecret, keys: seq<nat>, n: nat): RootKey
    requires n < |keys|
  {
    if n == 0 then FirstRoot(master)
    else NextRoot(RootAt(master, keys, n - 1), SharedSecret(KeyPair(keys[n]), PublicKey(keys[n - 1])))
  }

  /** C(n, 0): the first key of chain n. */
  function ChainStart(master: MasterSecret, keys: seq<nat>, n: nat): ChainKeyTerm
    requires n < |keys|
  {
    if n == 0 then FirstChain(master)
    else NewChain(RootAt(master, keys, n - 1), SharedSecret(KeyPair(keys[n]), PublicKey(keys[n - 1])))
  }

  /** C(n, i), and the message key taken from it. */
  function ChainAt(h: History, n: nat, i: nat): ChainKeyTerm
    requires n < |h.keys|
  {
    AdvancedBy(ChainStart(h.master, h.keys, n), i)
  }

  function MessageKeyAt(h: History, n: nat, i: nat): MessageKeyTerm
    requires n < |h.keys|
  {
    MessageKeyOf(ChainAt(h, n, i))
  }

  /** Message i of chain n, as it was sent. */
  function Honest(h: History, n: nat, i: nat): Message
    requires n < |h.keys| == |h.sent| && i < |h.sent[n]| < TWO_TO_THE_32
  {
    var key := PublicKey(h.keys[n]);
    Message(PROTOCOL_VERSION, Key(key), Some(i),
            Some(Sealed(MessageKeyAt(h, n, i), PROTOCOL_VERSION, key, i, h.sent[n][i])))
  }

  lemma {:induction false} RootDepth(master: MasterSecret, keys: seq<nat>, n: nat)
    requires n < |keys|
    ensures Depth(RootAt(master, keys, n)) == n
  {
    if n > 0 {
      RootDepth(master, keys, n - 1);
    }
  }

  lemma {:induction false} RootAtKeeps(master: MasterSecret, keys: seq<nat>, key: nat, n: nat)
    requires n < |keys|
    ensures RootAt(master, keys + [key], n) == RootAt(master, keys, n)
    ensures ChainStart(master, keys + [key], n) == ChainStart(master, keys, n)
  {
    if n > 0 {
      RootAtKeeps(master, keys, key, n - 1);
    }
  }

  /** The chain key a receiver derives for chain m is the sender's only if it stands at root R(m-1). */
  lemma OtherRootsDeriveOtherChains(h: History, r: nat, secret: Secret, m: nat, i: nat)
    requires r < |h.keys| && m < |h.keys|
    requires r + 1 != m
    ensures AdvancedBy(NewChain(RootAt(h.master, h.keys, r), secret), i) != ChainAt(h, m, i)
  {
    var x, y := NewChain(RootAt(h.master, h.keys, r), secret), ChainStart(h.master, h.keys, m);
    if AdvancedBy(x, i) == ChainAt(h, m, i) {
      AdvancedByInjective(x, y, i, i);
      RootDepth(h.master, h.keys, r);
      if m > 0 {
        RootDepth(h.master, h.keys, m - 1);
      }
    }
  }

  /** Message keys of different places in the conversation differ. */
  lemma MessageKeysDiffer(h: History, m: nat, i: nat, n: nat, j: nat)
    requires m < |h.keys| && n < |h.keys|
    requires MessageKeyAt(h, m, i) == MessageKeyAt(h, n, j)
    ensures m == n && i == j
  {
    AdvancedByInjective(ChainStart(h.master, h.keys, m), ChainStart(h.master, h.keys, n), i, j);
    if m > 0 {
      RootDepth(h.master, h.keys, m - 1);
    }
    if n > 0 {
      RootDepth(h.master, h.keys, n - 1);
    }
  }

  // ----- one end, by chain numbers

  /** The newest chain taken up from the peer, whether an own chain has been started since,
      the next index expected on each of the peer's chains, and the skipped messages. */
  datatype View = View(top: int, speaking: bool, next: map<int, nat>, stored: seq<(int, nat)>)

  /** A chain of the peer's that this end has taken up. */
  predicate Accepted(v: View, m: int) {
    0 <= m <= v.top && (v.top - m) % 2 == 0
  }

  /** A chain that still has a receiver chain: one of the newest five. */
  predicate Retained(v: View, m: int) {
    Accepted(v, m) && (v.top - m) / 2 < MAX_RECEIVER_CHAINS
  }

  ghost predicate ViewOk(h: History, v: View) {
    && -1 <= v.top < |h.keys| == |h.sent|
    && (if v.speaking then v.top + 1 < |h.keys| else 0 <= v.top)
    && (forall m :: Accepted(v, m) ==> m in v.next && v.next[m] <= |h.sent[m]|)
    && |v.stored| <= MAX_SKIPPED_MESSAGE_KEYS
    && (forall k :: 0 <= k < |v.stored| ==> StoredOk(v, v.stored[k]))
    && (forall a, b :: 0 <= a < b < |v.stored| ==> v.stored[a] != v.stored[b])
  }

  predicate StoredOk(v: View, e: (int, nat)) {
    Accepted(v, e.0) && e.0 in v.next && e.1 < v.next[e.0]
  }

  function ChainCount(v: View): nat
    requires -1 <= v.top
  {
    if (v.top + 2) / 2 < MAX_RECEIVER_CHAINS then (v.top + 2) / 2 else MAX_RECEIVER_CHAINS
  }

  function SkippedEntry(h: History, e: (int, nat)): SkippedMessageKey
    requires 0 <= e.0 < |h.keys| && e.1 < TWO_TO_THE_32
  {
    SkippedMessageKey(PublicKey(h.keys[e.0]), MessageKey(e.1, MessageKeyAt(h, e.0, e.1)))
  }

  ghost predicate Storable(h: History, stored: seq<(int, nat)>) {
    forall k :: 0 <= k < |stored| ==> 0 <= stored[k].0 < |h.keys| && stored[k].1 < TWO_TO_THE_32
  }

  ghost function SkippedEntries(h: History, stored: seq<(int, nat)>): (r: seq<SkippedMessageKey>)
    requires Storable(h, stored)
    ensures |r| == |stored|
  {
    seq(|stored|, k requires 0 <= k < |stored| => SkippedEntry(h, stored[k]))
  }

  function ReceiverEntry(h: History, m: int, next: nat): ReceiverChain
    requires 0 <= m < |h.keys| && next < TWO_TO_THE_32
  {
    ReceiverChain(PublicKey(h.keys[m]), ChainKey(next, ChainAt(h, m, next)))
  }

  /** The keys held by an end with the given view. */
  ghost function Concrete(h: History, v: View): (st: State)
    requires Sound(h) && ViewOk(h, v)
    ensures st.Fits()
  {
    State(
      RootAt(h.master, h.keys, if v.speaking then v.top + 1 else v.top),
      if v.speaking
      then [SenderChain(KeyPair(h.keys[v.top + 1]), ChainKey(|h.sent[v.top + 1]|, ChainAt(h, v.top + 1, |h.sent[v.top + 1]|)))]
      else [],
      seq(ChainCount(v), k requires 0 <= k < ChainCount(v) =>
        assert Accepted(v, v.top - 2 * k); ReceiverEntry(h, v.top - 2 * k, v.next[v.top - 2 * k])),
      SkippedEntries(h, v.stored))
  }

  // ----- what a delivery does to a view

  /** Whether message i of chain m can be opened. */
  predicate Receives(v: View, m: int, i: nat) {
    if Retained(v, m) && m in v.next then
      if i < v.next[m] then (m, i) in v.stored else i - v.next[m] <= MAX_MESSAGE_GAP
    else
      v.speaking && m == v.top + 2 && i <= MAX_MESSAGE_GAP
  }

  function PlaceOf<T(==)>(s: seq<T>, x: T): (k: nat)
    requires x in s
    ensures k < |s| && s[k] == x
    ensures forall j :: 0 <= j < k ==> s[j] != x
  {
    if s[0] == x then 0 else 1 + PlaceOf(s[1..], x)
  }

  /** Messages from..to of a chain shelved in turn, each at the front of the store. */
  function ShelvedPairs(stored: seq<(int, nat)>, m: int, from: nat, to: nat): (r: seq<(int, nat)>)
    requires |stored| <= MAX_SKIPPED_MESSAGE_KEYS
    ensures |r| <= MAX_SKIPPED_MESSAGE_KEYS
    decreases if from < to then to - from else 0
  {
    if from >= to then stored
    else ShelvedPairs(Inserted(stored, MAX_SKIPPED_MESSAGE_KEYS, 0, (m, from)), m, from + 1, to)
  }

  function Received(v: View, m: int, i: nat): View
    requires |v.stored| <= MAX_SKIPPED_MESSAGE_KEYS && Receives(v, m, i)
  {
    if Retained(v, m) && m in v.next then
      if i < v.next[m] then v.(stored := Erased(v.stored, PlaceOf(v.stored, (m, i))))
      else v.(next := v.next[m := i + 1], stored := ShelvedPairs(v.stored, m, v.next[m], i))
    else
      View(m, false, v.next[m := i + 1], ShelvedPairs(v.stored, m, 0, i))
  }

  // ----- the ratchet acts on keys as the view says

  /** The descending indices to-1 .. from of chain m. */
  function Descending(m: int, from: nat, to: nat): (r: seq<(int, nat)>)
    ensures |r| == if from < to then to - from else 0
    ensures forall k :: 0 <= k < |r| ==> r[k] == (m, to - 1 - k) && from <= to - 1 - k
  {
    if from >= to then [] else [(m, to - 1)] + Descending(m, from, to - 1)
  }

  /** Shelving keeps the forty most recent entries. */
  lemma {:induction false} ShelvedPairsIsFront(stored: seq<(int, nat)>, m: int, from: nat, to: nat)
    requires |stored| <= MAX_SKIPPED_MESSAGE_KEYS
    ensures ShelvedPairs(stored, m, from, to) == Front(Descending(m, from, to) + stored)
    decreases if from < to then to - from else 0
  {
    if from < to {
      var next := Inserted(stored, MAX_SKIPPED_MESSAGE_KEYS, 0, (m, from));
      ShelvedPairsIsFront(next, m, from + 1, to);
      InsertedIsFront(stored, (m, from));
      hide Inserted;
      hide Front;
      assert Descending(m, from + 1, to) + [(m, from)] == Descending(m, from, to);
      FrontOfFront(Descending(m, from + 1, to), [(m, from)], stored);
    }
  }

  lemma InsertAgrees(h: History, stored: seq<(int, nat)>, e: (int, nat))
    requires Storable(h, stored) && |stored| <= MAX_SKIPPED_MESSAGE_KEYS
    requires 0 <= e.0 < |h.keys| && e.1 < TWO_TO_THE_32
    ensures Storable(h, Inserted(stored, MAX_SKIPPED_MESSAGE_KEYS, 0, e))
    ensures Inserted(SkippedEntries(h, stored), MAX_SKIPPED_MESSAGE_KEYS, 0, SkippedEntry(h, e))
         == SkippedEntries(h, Inserted(stored, MAX_SKIPPED_MESSAGE_KEYS, 0, e))
  {
    InsertedFront(stored, MAX_SKIPPED_MESSAGE_KEYS, e);
    InsertedFront(SkippedEntries(h, stored), MAX_SKIPPED_MESSAGE_KEYS, SkippedEntry(h, e));
  }

  lemma {:induction false} ShelvedAgrees(h: History, stored: seq<(int, nat)>, m: nat, from: nat, to: uint32)
    requires Storable(h, stored) && |stored| <= MAX_SKIPPED_MESSAGE_KEYS && m < |h.keys|
    requires from < TWO_TO_THE_32
    ensures Storable(h, ShelvedPairs(stored, m, from, to))
    ensures Shelved(SkippedEntries(h, stored), PublicKey(h.keys[m]), ChainKey(from, ChainAt(h, m, from)), to)
         == SkippedEntries(h, ShelvedPairs(stored, m, from, to))
    decreases if from < to then to - from else 0
  {
    hide Inserted;
    hide SkippedEntries;
    hide ChainStart;
    if from < to {
      InsertAgrees(h, stored, (m, from));
      ShelvedAgrees(h, Inserted(stored, MAX_SKIPPED_MESSAGE_KEYS, 0, (m, from)), m, from + 1, to);
    }
  }

  /** The keys of a history tell its chains apart. */
  lemma KeysIdentify(h: History, a: int, b: int)
    requires Sound(h) && 0 <= a < |h.keys| && 0 <= b < |h.keys|
    ensures PublicKey(h.keys[a]) == PublicKey(h.keys[b]) <==> a == b
  {
  }

  /** A ratchet key is found among the receiver chains exactly if its chain is retained. */
  lemma FindsRetained(h: History, v: View, m: nat)
    requires Sound(h) && ViewOk(h, v) && m < |h.keys|
    ensures FindChain(Concrete(h, v).receivers, PublicKey(h.keys[m]))
         == if Retained(v, m) then (v.top - m) / 2 else ChainCount(v)
  {
    hide Concrete;
    hide ChainAt;
    ReceiversAre(h, v);
    var receivers := Concrete(h, v).receivers;
    forall i | 0 <= i < |receivers|
      ensures receivers[i].ratchetKey == PublicKey(h.keys[m]) <==> v.top - 2 * i == m
    {
      KeysIdentify(h, v.top - 2 * i, m);
    }
    if Retained(v, m) {
      var k := (v.top - m) / 2;
      assert v.top - 2 * k == m;
      FindChainIs(receivers, PublicKey(h.keys[m]), k);
    } else {
      forall i | 0 <= i < |receivers|
        ensures v.top - 2 * i != m
      {
        assert (v.top - (v.top - 2 * i)) % 2 == 0;
      }
      FindChainIs(receivers, PublicKey(h.keys[m]), |receivers|);
    }
  }

  /** A skipped key opens the message it was made for, and no other. */
  lemma OpensItsOwn(h: History, e: (int, nat), m: nat, i: nat)
    requires Sound(h) && 0 <= e.0 < |h.keys| && e.1 < TWO_TO_THE_32
    requires m < |h.keys| && i < |h.sent[m]|
    ensures Opens(SkippedEntry(h, e), Honest(h, m, i)) <==> e == (m as int, i)
  {
    KeysIdentify(h, e.0, m);
  }

  lemma FindsStored(h: History, v: View, m: nat, i: nat)
    requires Sound(h) && ViewOk(h, v) && m < |h.keys| && i < |h.sent[m]|
    ensures Storable(h, v.stored)
    ensures FindSkipped(SkippedEntries(h, v.stored), Honest(h, m, i))
         == if (m as int, i) in v.stored then PlaceOf(v.stored, (m as int, i)) else |v.stored|
  {
    var entries, msg := SkippedEntries(h, v.stored), Honest(h, m, i);
    forall k | 0 <= k < |entries|
      ensures Opens(entries[k], msg) <==> v.stored[k] == (m as int, i)
    {
      OpensItsOwn(h, v.stored[k], m, i);
    }
    var f := FindSkipped(entries, msg);
    if (m as int, i) in v.stored {
      var k := PlaceOf(v.stored, (m as int, i));
      assert !(f < k);
      assert !(k < f);
    }
  }

  lemma ErasedStillOk(h: History, v: View, k: nat)
    requires Sound(h) && ViewOk(h, v) && k < |v.stored|
    ensures ViewOk(h, v.(stored := Erased(v.stored, k)))
    ensures Concrete(h, v.(stored := Erased(v.stored, k)))
         == Concrete(h, v).(skipped := Erased(Concrete(h, v).skipped, k))
  {
    hide RootAt;
    hide ChainAt;
    hide SkippedEntry;
    hide ReceiverEntry;
    var w := v.(stored := Erased(v.stored, k));
    assert forall m :: Accepted(w, m) <==> Accepted(v, m);
    assert forall j :: 0 <= j < |w.stored| ==> w.stored[j] == v.stored[if j < k then j else j + 1];
    assert Concrete(h, w).receivers == Concrete(h, v).receivers;
    assert SkippedEntries(h, w.stored) == Erased(SkippedEntries(h, v.stored), k);
  }

  lemma DeliverSkipped(h: History, v: View, m: nat, i: nat, capacity: nat)
    requires Sound(h) && ViewOk(h, v) && m < |h.keys| && i < |h.sent[m]|
    requires Retained(v, m) && i < v.next[m]
    requires Honest(h, m, i).ciphertext.value.Length() <= capacity
    ensures Receives(v, m, i) ==> ViewOk(h, Received(v, m, i))
    ensures Decrypted(Concrete(h, v), Honest(h, m, i), capacity)
         == if Receives(v, m, i) then (Concrete(h, Received(v, m, i)), Success(h.sent[m][i]))
            else (Concrete(h, v), Failure(BadMessageMac))
  {
    hide FindChain;
    hide FindSkipped;
    hide Decrypted;
    hide Concrete;
    hide RootAt;
    hide ChainAt;
    var st, msg := Concrete(h, v), Honest(h, m, i);
    FindsRetained(h, v, m);
    RetainedEntry(h, v, m);
    HonestIs(h, m, i);
    DecryptedUnfolds(st, msg, capacity);
    ReceiversAre(h, v);
    FindsStored(h, v, m, i);
    if (m as int, i) in v.stored {
      var k := PlaceOf(v.stored, (m as int, i));
      ErasedStillOk(h, v, k);
      assert SkippedEntries(h, v.stored)[k] == SkippedEntry(h, (m as int, i));
    }
  }

  /** What shelving does to the store, seen entry by entry. */
  lemma ShelvedContents(stored: seq<(int, nat)>, m: int, from: nat, to: nat, r: seq<(int, nat)>)
    requires |stored| <= MAX_SKIPPED_MESSAGE_KEYS
    requires forall a, b :: 0 <= a < b < |stored| ==> stored[a] != stored[b]
    requires forall k :: 0 <= k < |stored| && stored[k].0 == m ==> stored[k].1 < from
    requires r == ShelvedPairs(stored, m, from, to)
    ensures forall a, b :: 0 <= a < b < |r| ==> r[a] != r[b]
    ensures forall k :: 0 <= k < |r| ==> r[k] in stored || (r[k].0 == m && from <= r[k].1 < to)
  {
    hide ShelvedPairs;
    hide Descending;
    ShelvedPairsIsFront(stored, m, from, to);
    var newer := Descending(m, from, to);
    AllDiffer(newer, stored, m, from, to, newer + stored);
    assert forall k :: 0 <= k < |r| ==> r[k] == (newer + stored)[k];
  }

  lemma AllDiffer(newer: seq<(int, nat)>, stored: seq<(int, nat)>, m: int, from: nat, to: nat, all: seq<(int, nat)>)
    requires all == newer + stored
    requires forall k :: 0 <= k < |newer| ==> newer[k] == (m, to - 1 - k) && from <= to - 1 - k
    requires forall a, b :: 0 <= a < b < |stored| ==> stored[a] != stored[b]
    requires forall k :: 0 <= k < |stored| && stored[k].0 == m ==> stored[k].1 < from
    ensures forall a, b :: 0 <= a < b < |all| ==> all[a] != all[b]
    ensures forall k :: 0 <= k < |all| ==> all[k] in stored || (all[k].0 == m && from <= all[k].1 < to)
  {
    forall a, b | 0 <= a < b < |all|
      ensures all[a] != all[b]
    {
      if b < |newer| {
        assert newer[a].1 == to - 1 - a && newer[b].1 == to - 1 - b;
      } else if a < |newer| {
        assert all[b] == stored[b - |newer|] && all[a] == newer[a];
      } else {
        assert all[a] == stored[a - |newer|] && all[b] == stored[b - |newer|];
      }
    }
    forall k | 0 <= k < |all|
      ensures all[k] in stored || (all[k].0 == m && from <= all[k].1 < to)
    {
      if k < |newer| {
        assert all[k] == newer[k];
      } else {
        assert all[k] == stored[k - |newer|];
      }
    }
  }

  lemma CaughtStillOk(h: History, v: View, m: nat, i: nat)
    requires Sound(h) && ViewOk(h, v) && m < |h.keys| && i < |h.sent[m]|
    requires Accepted(v, m) && v.next[m] <= i
    ensures ViewOk(h, v.(next := v.next[m := i + 1], stored := ShelvedPairs(v.stored, m, v.next[m], i)))
  {
    var r := ShelvedPairs(v.stored, m, v.next[m], i);
    var w := v.(next := v.next[m := i + 1], stored := r);
    forall k | 0 <= k < |v.stored| && v.stored[k].0 == m
      ensures v.stored[k].1 < v.next[m]
    {
      assert StoredOk(v, v.stored[k]);
    }
    ShelvedContents(v.stored, m, v.next[m], i, r);
    assert forall n :: Accepted(w, n) <==> Accepted(v, n);
    forall k | 0 <= k < |w.stored|
      ensures StoredOk(w, w.stored[k])
    {
      var e := r[k];
      if e in v.stored {
        assert StoredOk(v, e);
      } else {
        assert e.0 == m && e.1 < i;
      }
    }
  }

  lemma RetainedEntry(h: History, v: View, m: nat)
    requires Sound(h) && ViewOk(h, v) && m < |h.keys| && Retained(v, m)
    ensures (v.top - m) / 2 < |Concrete(h, v).receivers|
    ensures m in v.next && v.next[m] < TWO_TO_THE_32
    ensures Concrete(h, v).receivers[(v.top - m) / 2] == ReceiverEntry(h, m, v.next[m])
  {
    hide RootAt;
    hide ChainAt;
    hide SkippedEntries;
    assert v.top - 2 * ((v.top - m) / 2) == m;
  }

  lemma CaughtReceivers(h: History, v: View, m: nat, i: nat, w: View)
    requires Sound(h) && ViewOk(h, v) && ViewOk(h, w) && m < |h.keys| && i < |h.sent[m]|
    requires Retained(v, m) && v.next[m] <= i
    requires w.top == v.top && w.next == v.next[m := i + 1]
    requires (v.top - m) / 2 < |Concrete(h, v).receivers|
    ensures Concrete(h, w).receivers == Concrete(h, v).receivers[(v.top - m) / 2 := ReceiverEntry(h, m, i + 1)]
  {
    hide RootAt;
    hide ChainAt;
    hide SkippedEntries;
    hide Concrete;
    hide ViewOk;
    hide ReceiverEntry;
    var k := (v.top - m) / 2;
    assert v.top - 2 * k == m;
    ReceiversAre(h, v);
    ReceiversAre(h, w);
    var r, r' := Concrete(h, v).receivers, Concrete(h, w).receivers;
    forall j | 0 <= j < |r|
      ensures r'[j] == if j == k then ReceiverEntry(h, m, i + 1) else r[j]
    {
      assert j != k ==> v.top - 2 * j != m;
    }
  }

  lemma AdvancesToNext(h: History, m: nat, from: nat, i: nat)
    requires m < |h.keys| && from <= i && i + 1 < TWO_TO_THE_32
    ensures AdvanceChainKey(ChainKey(i, AdvancedBy(ChainAt(h, m, from), i - from))) == ReceiverEntry(h, m, i + 1).chainKey
  {
    AdvancedBySplits(ChainStart(h.master, h.keys, m), from, i - from);
  }

  lemma NextFits(h: History, v: View, m: nat)
    requires Sound(h) && ViewOk(h, v) && m < |h.keys| && Accepted(v, m)
    ensures m in v.next && v.next[m] < TWO_TO_THE_32 && |v.stored| <= MAX_SKIPPED_MESSAGE_KEYS
  {
  }

  /** Root and sender depend on the chains alone. */
  lemma SameChains(h: History, v: View, w: View)
    requires Sound(h) && ViewOk(h, v) && ViewOk(h, w) && w.top == v.top && w.speaking == v.speaking
    ensures Concrete(h, w).rootKey == Concrete(h, v).rootKey && Concrete(h, w).sender == Concrete(h, v).sender
    ensures Storable(h, v.stored) && Concrete(h, v).skipped == SkippedEntries(h, v.stored)
    ensures Storable(h, w.stored) && Concrete(h, w).skipped == SkippedEntries(h, w.stored)
  {
    hide SkippedEntries;
    hide RootAt;
    hide ChainAt;
  }

  lemma CaughtAgrees(h: History, v: View, m: nat, i: nat)
    requires Sound(h) && ViewOk(h, v) && m < |h.keys| && i < |h.sent[m]|
    requires Retained(v, m) && v.next[m] <= i
    requires (v.top - m) / 2 < |Concrete(h, v).receivers|
    requires Concrete(h, v).receivers[(v.top - m) / 2] == ReceiverEntry(h, m, v.next[m])
    ensures var w := v.(next := v.next[m := i + 1], stored := ShelvedPairs(v.stored, m, v.next[m], i));
            ViewOk(h, w) && Caught(Concrete(h, v), (v.top - m) / 2, i) == Concrete(h, w)
  {
    hide RootAt;
    hide ChainAt;
    hide ShelvedPairs;
    hide Shelved;
    hide AdvancedBy;
    hide AdvanceChainKey;
    hide Concrete;
    hide SkippedEntries;
    hide ViewOk;
    NextFits(h, v, m);
    CaughtStillOk(h, v, m, i);
    var w := v.(next := v.next[m := i + 1], stored := ShelvedPairs(v.stored, m, v.next[m], i));
    SameChains(h, v, w);
    CaughtReceivers(h, v, m, i, w);
    AdvancesToNext(h, m, v.next[m], i);
    ShelvedAgrees(h, v.stored, m, v.next[m], i);
  }

  /** The key reached by following a chain from any index is that of the message. */
  lemma OpensAhead(h: History, m: nat, from: nat, i: nat)
    requires Sound(h) && m < |h.keys| && i < |h.sent[m]| && from <= i
    ensures OpenOnExistingChain(ChainKey(from, ChainAt(h, m, from)), Honest(h, m, i))
         == if i - from <= MAX_MESSAGE_GAP then Some(h.sent[m][i]) else None
  {
    AdvancedBySplits(ChainStart(h.master, h.keys, m), from, i - from);
  }

  lemma DeliverAhead(h: History, v: View, m: nat, i: nat, capacity: nat)
    requires Sound(h) && ViewOk(h, v) && m < |h.keys| && i < |h.sent[m]|
    requires Retained(v, m) && v.next[m] <= i
    requires Honest(h, m, i).ciphertext.value.Length() <= capacity
    ensures Receives(v, m, i) ==> ViewOk(h, Received(v, m, i))
    ensures Decrypted(Concrete(h, v), Honest(h, m, i), capacity)
         == if Receives(v, m, i) then (Concrete(h, Received(v, m, i)), Success(h.sent[m][i]))
            else (Concrete(h, v), Failure(BadMessageMac))
  {
    hide FindChain;
    hide Caught;
    hide OpenOnExistingChain;
    hide Decrypted;
    hide Concrete;
    hide Honest;
    hide ChainAt;
    hide ShelvedPairs;
    FindsRetained(h, v, m);
    HonestIs(h, m, i);
    DecryptedUnfolds(Concrete(h, v), Honest(h, m, i), capacity);
    OpensAhead(h, m, v.next[m], i);
    RetainedEntry(h, v, m);
    CaughtAgrees(h, v, m, i);
  }

  // ----- taking up a new chain

  /** The view that has just taken up chain m, and has received nothing on it. */
  function TakenUp(v: View, m: int): View {
    View(m, false, v.next[m := 0], v.stored)
  }

  lemma TakenUpStillOk(h: History, v: View, m: nat)
    requires Sound(h) && ViewOk(h, v) && m < |h.keys|
    requires v.speaking && m == v.top + 2
    ensures ViewOk(h, TakenUp(v, m)) && Retained(TakenUp(v, m), m)
  {
    var w := TakenUp(v, m);
    forall n | Accepted(w, n)
      ensures n in w.next && w.next[n] <= |h.sent[n]|
    {
      assert n == m || Accepted(v, n);
    }
    forall k | 0 <= k < |w.stored|
      ensures StoredOk(w, w.stored[k])
    {
      assert StoredOk(v, v.stored[k]);
    }
  }

  lemma TakenUpReceivers(h: History, v: View, m: nat)
    requires Sound(h) && ViewOk(h, v) && m < |h.keys|
    requires v.speaking && m == v.top + 2
    requires ViewOk(h, TakenUp(v, m))
    ensures Concrete(h, TakenUp(v, m)).receivers
         == Inserted(Concrete(h, v).receivers, MAX_RECEIVER_CHAINS, 0, ReceiverEntry(h, m, 0))
    ensures Concrete(h, TakenUp(v, m)).skipped == Concrete(h, v).skipped
  {
    hide RootAt;
    hide ChainAt;
    hide SkippedEntries;
    hide Inserted;
    hide Concrete;
    hide ViewOk;
    var w := TakenUp(v, m);
    ReceiversAre(h, v);
    ReceiversAre(h, w);
    var s, r := Concrete(h, v).receivers, Inserted(Concrete(h, v).receivers, MAX_RECEIVER_CHAINS, 0, ReceiverEntry(h, m, 0));
    InsertedFront(s, MAX_RECEIVER_CHAINS, ReceiverEntry(h, m, 0));
    assert |r| == ChainCount(w);
    assert Concrete(h, w).receivers[0] == ReceiverEntry(h, w.top - 2 * 0, w.next[w.top - 2 * 0]);
    forall k | 0 < k < |r|
      ensures r[k] == Concrete(h, w).receivers[k]
    {
      assert r[k] == s[k - 1];
      assert s[k - 1] == ReceiverEntry(h, v.top - 2 * (k - 1), v.next[v.top - 2 * (k - 1)]);
    }
    assert r[0] == ReceiverEntry(h, m, 0);
    assert Concrete(h, w).receivers == r;
  }

  lemma ReceiversAre(h: History, v: View)
    requires Sound(h) && ViewOk(h, v)
    ensures -1 <= v.top < |h.keys| && |Concrete(h, v).receivers| == ChainCount(v)
    ensures Storable(h, v.stored) && Concrete(h, v).skipped == SkippedEntries(h, v.stored)
    ensures forall k :: 0 <= k < ChainCount(v) ==>
      && 0 <= v.top - 2 * k && v.top - 2 * k in v.next && v.next[v.top - 2 * k] < TWO_TO_THE_32
      && Concrete(h, v).receivers[k] == ReceiverEntry(h, v.top - 2 * k, v.next[v.top - 2 * k])
  {
    forall k | 0 <= k < ChainCount(v)
      ensures Accepted(v, v.top - 2 * k)
    {
    }
  }

  lemma TakenUpAgrees(h: History, v: View, m: nat)
    requires Sound(h) && ViewOk(h, v) && m < |h.keys|
    requires v.speaking && m == v.top + 2
    ensures ViewOk(h, TakenUp(v, m))
    ensures WithNewReceiver(Concrete(h, v), PublicKey(h.keys[m])) == Concrete(h, TakenUp(v, m))
  {
    hide SkippedEntries;
    hide Inserted;
    TakenUpStillOk(h, v, m);
    TakenUpReceivers(h, v, m);
    assert ReceiverEntry(h, m, 0).chainKey == ChainKey(0, ChainStart(h.master, h.keys, m));
  }

  lemma DeliverNew(h: History, v: View, m: nat, i: nat, capacity: nat)
    requires Sound(h) && ViewOk(h, v) && m < |h.keys| && i < |h.sent[m]|
    requires v.speaking && m == v.top + 2
    requires Honest(h, m, i).ciphertext.value.Length() <= capacity
    ensures Receives(v, m, i) ==> ViewOk(h, Received(v, m, i))
    ensures Decrypted(Concrete(h, v), Honest(h, m, i), capacity)
         == if Receives(v, m, i) then (Concrete(h, Received(v, m, i)), Success(h.sent[m][i]))
            else (Concrete(h, v), Failure(BadMessageMac))
  {
    hide FindChain;
    hide Caught;
    hide OpenOnExistingChain;
    hide WithNewReceiver;
    hide ShelvedPairs;
    hide Decrypted;
    hide Concrete;
    hide Honest;
    hide ChainAt;
    var st, msg := Concrete(h, v), Honest(h, m, i);
    FindsRetained(h, v, m);
    ReceiversAre(h, v);
    HonestIs(h, m, i);
    DecryptedUnfolds(st, msg, capacity);
    OpensAhead(h, m, 0, i);
    NewChainKey(h, v, m);
    if i <= MAX_MESSAGE_GAP {
      CatchesUp(h, v, m, i);
    }
  }

  lemma HonestIs(h: History, m: nat, i: nat)
    requires Sound(h) && m < |h.keys| && i < |h.sent[m]|
    ensures var msg := Honest(h, m, i);
            Complete(msg) && msg.ratchetKey.key == PublicKey(h.keys[m]) && msg.counter.value == i
  {
  }

  /** The chain key derived from the own sender chain is the first of the peer's new chain. */
  lemma NewChainKey(h: History, v: View, m: nat)
    requires Sound(h) && ViewOk(h, v) && m < |h.keys| && v.speaking && m == v.top + 2
    ensures var st := Concrete(h, v);
            && st.sender != []
            && CreateChainKey(st.rootKey, st.sender[0].ratchetKey, PublicKey(h.keys[m])).1 == ChainKey(0, ChainAt(h, m, 0))
  {
    hide SkippedEntries;
  }

  /** Taking up the new chain and following it to message i. */
  lemma CatchesUp(h: History, v: View, m: nat, i: nat)
    requires Sound(h) && ViewOk(h, v) && m < |h.keys| && i < |h.sent[m]|
    requires v.speaking && m == v.top + 2 && Receives(v, m, i)
    ensures ViewOk(h, Received(v, m, i))
    ensures Concrete(h, v).sender != []
    ensures Caught(WithNewReceiver(Concrete(h, v), PublicKey(h.keys[m])), 0, i) == Concrete(h, Received(v, m, i))
  {
    hide Caught;
    hide WithNewReceiver;
    hide ShelvedPairs;
    hide Concrete;
    hide ViewOk;
    var w := TakenUp(v, m);
    NewChainKey(h, v, m);
    TakenUpAgrees(h, v, m);
    TakenUpStillOk(h, v, m);
    RetainedEntry(h, w, m);
    CaughtAgrees(h, w, m, i);
    assert w.next[m := i + 1] == v.next[m := i + 1];
  }

  /** Messages of any other chain are refused: of chains long dropped, of chains not yet due,
      and of one's own chains. */
  lemma DeliverForeign(h: History, v: View, m: nat, i: nat, capacity: nat)
    requires Sound(h) && ViewOk(h, v) && m < |h.keys| && i < |h.sent[m]|
    requires !Retained(v, m) && !(v.speaking && m == v.top + 2)
    requires Honest(h, m, i).ciphertext.value.Length() <= capacity
    ensures !Receives(v, m, i)
    ensures Decrypted(Concrete(h, v), Honest(h, m, i), capacity) == (Concrete(h, v), Failure(BadMessageMac))
  {
    hide FindChain;
    hide FindSkipped;
    hide Caught;
    FindsRetained(h, v, m);
    var st, msg := Concrete(h, v), Honest(h, m, i);
    if v.speaking {
      OtherRootsDeriveOtherChains(h, v.top + 1, SharedSecret(st.sender[0].ratchetKey, PublicKey(h.keys[m])), m, i);
    }
    assert OpenOnNewChain(st, msg).None?;
  }

  /** Delivering an honest message does to the keys what it does to the view. */
  lemma DeliverSimulates(h: History, v: View, m: nat, i: nat, capacity: nat)
    requires Sound(h) && ViewOk(h, v) && m < |h.keys| && i < |h.sent[m]|
    requires Honest(h, m, i).ciphertext.value.Length() <= capacity
    ensures Receives(v, m, i) ==> ViewOk(h, Received(v, m, i))
    ensures Decrypted(Concrete(h, v), Honest(h, m, i), capacity)
         == if Receives(v, m, i) then (Concrete(h, Received(v, m, i)), Success(h.sent[m][i]))
            else (Concrete(h, v), Failure(BadMessageMac))
  {
    if Retained(v, m) {
      if i < v.next[m] {
        DeliverSkipped(h, v, m, i, capacity);
      } else {
        DeliverAhead(h, v, m, i, capacity);
      }
    } else if v.speaking && m == v.top + 2 {
      DeliverNew(h, v, m, i, capacity);
    } else {
      DeliverForeign(h, v, m, i, capacity);
    }
  }

  // ----- messages that are not honest

  /** The body was sealed by one of the two ends, for a message already sent. */
  ghost predicate SealedBy(h: History, c: Ciphertext, n: nat, i: nat)
    requires |h.keys| == |h.sent|
  {
    n < |h.keys| && i < |h.sent[n]| < TWO_TO_THE_32 && Some(c) == Honest(h, n, i).ciphertext
  }

  /** Message i of chain n, body and header as sent. */
  ghost predicate Genuine(h: History, m: Message, n: nat, i: nat)
    requires |h.keys| == |h.sent|
  {
    n < |h.keys| && i < |h.sent[n]| < TWO_TO_THE_32 && m == Honest(h, n, i)
  }

  /** What sealing is taken to mean, seen from the ratchet: junk, or a sealed body under a header that is not its
      own, opens nowhere. It holds by the definition of Open, not by what a MAC computes. */
  lemma TamperedNeverOpens(st: State, m: Message, capacity: nat)
    requires st.Fits()
    requires m.ciphertext.Some? && m.ciphertext.value.Sealed? ==>
      var c := m.ciphertext.value;
      m.version != c.version || m.ratchetKey != Key(c.ratchetKey) || m.counter.None? || m.counter.value != c.counter
    ensures Decrypted(st, m, capacity).0 == st && Decrypted(st, m, capacity).1.Failure?
  {
  }

  // ----- sending

  function OwnChain(v: View): int {
    v.top + 1
  }

  /** What a send adds to the conversation. */
  function AfterSend(h: History, v: View, newKey: nat, what: Plaintext): History
    requires v.speaking ==> 0 <= OwnChain(v) < |h.sent|
  {
    if v.speaking then h.(sent := h.sent[OwnChain(v) := h.sent[OwnChain(v)] + [what]])
    else h.(keys := h.keys + [newKey], sent := h.sent + [[what]])
  }

  /** A send is possible: there is room for one more index, or the new key is really new. */
  ghost predicate MaySend(h: History, v: View, newKey: nat)
    requires Sound(h) && ViewOk(h, v)
  {
    if v.speaking then |h.sent[OwnChain(v)]| + 1 < TWO_TO_THE_32
    else v.top == |h.keys| - 1 && newKey !in h.keys
  }

  lemma SendStillOk(h: History, v: View, newKey: nat, what: Plaintext)
    requires Sound(h) && ViewOk(h, v) && MaySend(h, v, newKey)
    ensures Sound(AfterSend(h, v, newKey, what))
    ensures ViewOk(AfterSend(h, v, newKey, what), v.(speaking := true))
  {
    var h', w := AfterSend(h, v, newKey, what), v.(speaking := true);
    forall n | 0 <= n < |h'.sent|
      ensures |h'.sent[n]| < TWO_TO_THE_32
    {
    }
    forall m | Accepted(w, m)
      ensures m in w.next && w.next[m] <= |h'.sent[m]|
    {
      assert Accepted(v, m);
    }
    forall k | 0 <= k < |w.stored|
      ensures StoredOk(w, w.stored[k])
    {
      assert StoredOk(v, v.stored[k]);
    }
  }

  /** What was sent stays where it is when more is sent. */
  lemma HistoryGrows(h: History, v: View, newKey: nat, what: Plaintext, n: nat, i: nat)
    requires Sound(h) && ViewOk(h, v) && MaySend(h, v, newKey) && n < |h.keys|
    ensures var h' := AfterSend(h, v, newKey, what);
            && h'.keys[n] == h.keys[n] && h.sent[n] <= h'.sent[n]
            && RootAt(h'.master, h'.keys, n) == RootAt(h.master, h.keys, n)
            && ChainAt(h', n, i) == ChainAt(h, n, i)
  {
    RootAtKeeps(h.master, h.keys, newKey, n);
  }

  lemma HonestStays(h: History, v: View, newKey: nat, what: Plaintext, n: nat, i: nat)
    requires Sound(h) && ViewOk(h, v) && MaySend(h, v, newKey) && n < |h.keys| && i < |h.sent[n]|
    ensures Sound(AfterSend(h, v, newKey, what))
    ensures i < |AfterSend(h, v, newKey, what).sent[n]|
    ensures Honest(AfterSend(h, v, newKey, what), n, i) == Honest(h, n, i)
  {
    SendStillOk(h, v, newKey, what);
    HistoryGrows(h, v, newKey, what, n, i);
  }

  lemma ReceiversStay(h: History, v: View, newKey: nat, what: Plaintext, u: View, u': View)
    requires Sound(h) && ViewOk(h, v) && MaySend(h, v, newKey) && ViewOk(h, u)
    requires Sound(AfterSend(h, v, newKey, what)) && ViewOk(AfterSend(h, v, newKey, what), u')
    requires u'.top == u.top && u'.next == u.next
    ensures Concrete(AfterSend(h, v, newKey, what), u').receivers == Concrete(h, u).receivers
  {
    hide RootAt;
    hide ChainAt;
    hide SkippedEntries;
    hide AfterSend;
    hide Concrete;
    var h' := AfterSend(h, v, newKey, what);
    hide ViewOk;
    hide MaySend;
    hide Sound;
    ReceiversAre(h, u);
    ReceiversAre(h', u');
    var r, r' := Concrete(h, u).receivers, Concrete(h', u').receivers;
    forall k | 0 <= k < |r|
      ensures r'[k] == r[k]
    {
      var m := u.top - 2 * k;
      assert r[k] == ReceiverEntry(h, m, u.next[m]) && r'[k] == ReceiverEntry(h', m, u.next[m]);
      HistoryGrows(h, v, newKey, what, m, u.next[m]);
    }
  }

  lemma SkippedStay(h: History, v: View, newKey: nat, what: Plaintext, u: View)
    requires Sound(h) && ViewOk(h, v) && MaySend(h, v, newKey) && ViewOk(h, u)
    requires Sound(AfterSend(h, v, newKey, what)) && |AfterSend(h, v, newKey, what).keys| >= |h.keys|
    ensures Storable(h, u.stored) && Storable(AfterSend(h, v, newKey, what), u.stored)
    ensures SkippedEntries(AfterSend(h, v, newKey, what), u.stored) == SkippedEntries(h, u.stored)
  {
    hide RootAt;
    hide ChainAt;
    hide AfterSend;
    forall k | 0 <= k < |u.stored|
      ensures StoredOk(u, u.stored[k])
    {
    }
    forall k | 0 <= k < |u.stored|
      ensures SkippedEntry(AfterSend(h, v, newKey, what), u.stored[k]) == SkippedEntry(h, u.stored[k])
    {
      HistoryGrows(h, v, newKey, what, u.stored[k].0, u.stored[k].1);
    }
  }

  lemma OtherViewStillOk(h: History, v: View, newKey: nat, what: Plaintext, u: View)
    requires Sound(h) && ViewOk(h, v) && MaySend(h, v, newKey) && ViewOk(h, u)
    ensures Sound(AfterSend(h, v, newKey, what)) && ViewOk(AfterSend(h, v, newKey, what), u)
    ensures |AfterSend(h, v, newKey, what).keys| >= |h.keys|
  {
    SendStillOk(h, v, newKey, what);
  }

  /** An end that did not send holds the same keys before and after. */
  lemma OtherEndKeeps(h: History, v: View, newKey: nat, what: Plaintext, u: View)
    requires Sound(h) && ViewOk(h, v) && MaySend(h, v, newKey)
    requires ViewOk(h, u) && (u.speaking && v.speaking ==> OwnChain(u) != OwnChain(v))
    ensures Sound(AfterSend(h, v, newKey, what)) && ViewOk(AfterSend(h, v, newKey, what), u)
    ensures Concrete(AfterSend(h, v, newKey, what), u) == Concrete(h, u)
  {
    hide RootAt;
    hide ChainAt;
    hide SkippedEntries;
    OtherViewStillOk(h, v, newKey, what, u);
    ReceiversStay(h, v, newKey, what, u, u);
    SkippedStay(h, v, newKey, what, u);
    HistoryGrows(h, v, newKey, what, if u.speaking then OwnChain(u) else u.top, 0);
    if u.speaking {
      HistoryGrows(h, v, newKey, what, OwnChain(u), |h.sent[OwnChain(u)]|);
      assert AfterSend(h, v, newKey, what).sent[OwnChain(u)] == h.sent[OwnChain(u)];
    }
  }

  /** Root and sender, spelled out. */
  lemma ChainsAre(h: History, v: View)
    requires Sound(h) && ViewOk(h, v)
    ensures v.speaking ==>
      && OwnChain(v) < |h.keys| && |h.sent[OwnChain(v)]| < TWO_TO_THE_32
      && Concrete(h, v).rootKey == RootAt(h.master, h.keys, OwnChain(v))
      && Concrete(h, v).sender == [SenderChain(KeyPair(h.keys[OwnChain(v)]),
                                               ChainKey(|h.sent[OwnChain(v)]|, ChainAt(h, OwnChain(v), |h.sent[OwnChain(v)]|)))]
    ensures !v.speaking ==>
      && Concrete(h, v).rootKey == RootAt(h.master, h.keys, v.top) && Concrete(h, v).sender == []
      && Concrete(h, v).receivers != [] && Concrete(h, v).receivers[0].ratchetKey == PublicKey(h.keys[v.top])
  {
    hide RootAt;
    hide ChainAt;
    hide SkippedEntries;
  }

  lemma SendOnOwnChain(h: History, v: View, newKey: nat, what: Plaintext)
    requires Sound(h) && ViewOk(h, v) && MaySend(h, v, newKey) && v.speaking
    requires Sound(AfterSend(h, v, newKey, what)) && ViewOk(AfterSend(h, v, newKey, what), v)
    requires Concrete(AfterSend(h, v, newKey, what), v).receivers == Concrete(h, v).receivers
    requires Concrete(AfterSend(h, v, newKey, what), v).skipped == Concrete(h, v).skipped
    ensures Encrypted(Concrete(h, v), what, KeyPair(newKey))
         == (Concrete(AfterSend(h, v, newKey, what), v),
             Honest(AfterSend(h, v, newKey, what), OwnChain(v), |h.sent[OwnChain(v)]|))
  {
    hide Concrete;
    hide RootAt;
    var h' := AfterSend(h, v, newKey, what);
    hide ViewOk;
    ChainsAre(h, v);
    ChainsAre(h', v);
  }

  lemma SendOnNewChain(h: History, v: View, newKey: nat, what: Plaintext, w: View)
    requires Sound(h) && ViewOk(h, v) && MaySend(h, v, newKey) && !v.speaking && w == v.(speaking := true)
    requires Sound(AfterSend(h, v, newKey, what)) && ViewOk(AfterSend(h, v, newKey, what), w)
    requires Concrete(AfterSend(h, v, newKey, what), w).receivers == Concrete(h, v).receivers
    requires Concrete(AfterSend(h, v, newKey, what), w).skipped == Concrete(h, v).skipped
    requires Concrete(h, v).receivers != []
    ensures Encrypted(Concrete(h, v), what, KeyPair(newKey))
         == (Concrete(AfterSend(h, v, newKey, what), w), Honest(AfterSend(h, v, newKey, what), OwnChain(v), 0))
  {
    hide Concrete;
    hide RootAt;
    hide ViewOk;
    ChainsAre(h, v);
    ChainsAre(AfterSend(h, v, newKey, what), w);
    NewRoot(h, v, newKey);
  }

  lemma NewRoot(h: History, v: View, newKey: nat)
    requires 0 <= v.top == |h.keys| - 1
    ensures var keys := h.keys + [newKey];
            var secret := SharedSecret(KeyPair(newKey), PublicKey(h.keys[v.top]));
            && RootAt(h.master, keys, v.top + 1) == NextRoot(RootAt(h.master, h.keys, v.top), secret)
            && ChainStart(h.master, keys, v.top + 1) == NewChain(RootAt(h.master, h.keys, v.top), secret)
  {
    RootAtKeeps(h.master, h.keys, newKey, v.top);
  }

  /** Sending does to the keys what it does to the view, and produces the next honest message. */
  lemma SendSimulates(h: History, v: View, newKey: nat, what: Plaintext)
    requires Sound(h) && ViewOk(h, v) && MaySend(h, v, newKey)
    ensures Concrete(h, v).sender == [] ==> Concrete(h, v).receivers != []
    ensures Sound(AfterSend(h, v, newKey, what)) && ViewOk(AfterSend(h, v, newKey, what), v.(speaking := true))
    ensures Encrypted(Concrete(h, v), what, KeyPair(newKey))
         == (Concrete(AfterSend(h, v, newKey, what), v.(speaking := true)),
             Honest(AfterSend(h, v, newKey, what), OwnChain(v), |AfterSend(h, v, newKey, what).sent[OwnChain(v)]| - 1))
  {
    hide Concrete;
    hide Encrypted;
    hide Honest;
    SendStillOk(h, v, newKey, what);
    ChainsAre(h, v);
    var w := v.(speaking := true);
    ReceiversStay(h, v, newKey, what, v, w);
    SkippedStay(h, v, newKey, what, v);
    SameSkipped(h, AfterSend(h, v, newKey, what), v, w);
    if v.speaking {
      assert w == v;
      SendOnOwnChain(h, v, newKey, what);
    } else {
      SendOnNewChain(h, v, newKey, what, w);
    }
  }

  lemma SameSkipped(h: History, h': History, v: View, w: View)
    requires Sound(h) && ViewOk(h, v) && Sound(h') && ViewOk(h', w) && w.stored == v.stored
    requires Storable(h, v.stored) && Storable(h', v.stored) && SkippedEntries(h', v.stored) == SkippedEntries(h, v.stored)
    ensures Concrete(h', w).skipped == Concrete(h, v).skipped
  {
    hide RootAt;
    hide ChainAt;
    hide SkippedEntries;
  }
}
