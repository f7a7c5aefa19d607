/** Whole conversations: every interleaving of sends and deliveries, over a network that may
    drop, repeat, reorder and alter messages, but cannot seal a ciphertext itself. */
module Protocol {
  import opened Words
  import opened KeyTerms
  import opened DoubleRatchet
  import opened Conversation

  datatype Party = Alice | Bob

  /** An end: the keys the library holds, and bookkeeping that it never looks at. */
  datatype End = End(state: State, view: View, delivered: set<(int, nat)>, lost: set<(int, nat)>)

  datatype World = World(history: History, alice: End, bob: End) {
    function Of(p: Party): End {
      if p == Alice then alice else bob
    }

    function With(p: Party, e: End): World {
      if p == Alice then this.(alice := e) else this.(bob := e)
    }
  }

  datatype Event =
    | Send(from: Party, newKey: nat, what: Plaintext)
    | Deliver(to: Party, message: Message, capacity: nat)

  function Start(master: MasterSecret, firstKey: nat): World {
    World(
      History(master, [firstKey], [[]]),
      End(InitialisedAsAlice(master, KeyPair(firstKey)), View(-1, true, map[], []), {}, {}),
      End(InitialisedAsBob(master, PublicKey(firstKey)), View(0, false, map[0 := 0], []), {}, {}))
  }

  function Pairs(s: seq<(int, nat)>): set<(int, nat)> {
    set x | x in s
  }

  /** The messages skipped when chain m is followed up to message i. */
  function Skips(v: View, m: int, i: nat): set<(int, nat)> {
    var from := if Retained(v, m) && m in v.next then v.next[m] else 0;
    set j | from <= j < i :: (m, j)
  }

  /** Bookkeeping for message i of chain m having been opened. */
  function Noted(e: End, state: State, m: int, i: nat): End
    requires |e.view.stored| <= MAX_SKIPPED_MESSAGE_KEYS && Receives(e.view, m, i)
  {
    var v := Received(e.view, m, i);
    End(state, v, e.delivered + {(m, i)},
        e.lost + ((Pairs(e.view.stored) + Skips(e.view, m, i)) - Pairs(v.stored) - {(m, i)}))
  }

  /** One event. The library works on `state` alone; the rest follows what it did. */
  function Step(w: World, e: Event): World {
    match e
    case Send(p, newKey, what) =>
      var end := w.Of(p);
      if end.state.sender == [] && end.state.receivers == [] then w
      else if end.view.speaking && !(0 <= OwnChain(end.view) < |w.history.sent|) then w
      else
        var (state, _) := Encrypted(end.state, what, KeyPair(newKey));
        w.(history := AfterSend(w.history, end.view, newKey, what))
         .With(p, end.(state := state, view := end.view.(speaking := true)))
    case Deliver(p, message, capacity) =>
      var end := w.Of(p);
      if !end.state.Fits() then w
      else
        var (state, result) := Decrypted(end.state, message, capacity);
        if result.Failure? || !Complete(message) || message.ratchetKey.key.id !in w.history.keys then w.With(p, end.(state := state))
        else
          var m, i := PlaceOf(w.history.keys, message.ratchetKey.key.id), message.counter.value;
          if |end.view.stored| <= MAX_SKIPPED_MESSAGE_KEYS && Receives(end.view, m, i) then w.With(p, Noted(end, state, m, i))
          else w.With(p, end.(state := state))
  }

  /** What the environment may do: new keys are new, no chain reaches 2^32 messages, and a
      sealed body comes from a message already sent; headers may be anything. */
  ghost predicate Enabled(w: World, e: Event)
    requires Sound(w.history)
  {
    match e
    case Send(_, newKey, _) =>
      newKey !in w.history.keys && forall n :: 0 <= n < |w.history.sent| ==> |w.history.sent[n]| + 1 < TWO_TO_THE_32
    case Deliver(_, m, _) =>
      m.ciphertext.Some? && m.ciphertext.value.Sealed? ==> exists n: nat, i: nat :: SealedBy(w.history, m.ciphertext.value, n, i)
  }

  // ----- what every reachable world satisfies

  /** Every message key below the frontier has been used, is stored, or was pushed out: exactly one of the three. */
  ghost predicate Accounted(e: End) {
    && (forall x: (int, nat) :: StoredOk(e.view, x) <==> x in e.delivered || x in e.lost || x in e.view.stored)
    && e.delivered !! e.lost
    && (forall k :: 0 <= k < |e.view.stored| ==> e.view.stored[k] !in e.delivered && e.view.stored[k] !in e.lost)
  }

  ghost predicate EndOk(h: History, p: Party, e: End)
    requires Sound(h)
  {
    && ViewOk(h, e.view)
    && e.view.top % 2 == (if p == Alice then 1 else 0)
    && e.state == Concrete(h, e.view)
    && Accounted(e)
  }

  /** The owner of the newest chain, and the other party. */
  function Owner(h: History): Party {
    if |h.keys| % 2 == 1 then Alice else Bob
  }

  function Other(p: Party): Party {
    if p == Alice then Bob else Alice
  }

  /** With n the newest chain: its owner speaks on it; the peer either has taken it up and is
      silent, or still speaks on chain n-1. */
  ghost predicate InStep(w: World) {
    var n := |w.history.keys| - 1;
    var own, peer := w.Of(Owner(w.history)).view, w.Of(Other(Owner(w.history))).view;
    && own.speaking && own.top == n - 1
    && peer.top == if peer.speaking then n - 2 else n
  }

  ghost predicate Invariant(w: World) {
    && Sound(w.history)
    && EndOk(w.history, Alice, w.alice)
    && EndOk(w.history, Bob, w.bob)
    && InStep(w)
  }

  lemma StartIsFine(master: MasterSecret, firstKey: nat)
    ensures Invariant(Start(master, firstKey))
  {
    var w := Start(master, firstKey);
    assert Concrete(w.history, w.bob.view).receivers == w.bob.state.receivers;
  }

  lemma SendKeeps(w: World, p: Party, newKey: nat, what: Plaintext)
    requires Invariant(w) && Enabled(w, Send(p, newKey, what))
    ensures Invariant(Step(w, Send(p, newKey, what)))
  {
    hide Concrete;
    hide Encrypted;
    hide Honest;
    hide StoredOk;
    var h, v, u := w.history, w.Of(p).view, w.Of(Other(p)).view;
    assert MaySend(h, v, newKey);
    SendSimulates(h, v, newKey, what);
    OtherEndKeeps(h, v, newKey, what, u);
    var w' := Step(w, Send(p, newKey, what));
    SpeakingKeepsAccounts(w.Of(p), w'.Of(p));
    hide Accounted;
    hide ViewOk;
  }

  lemma SpeakingKeepsAccounts(e: End, e': End)
    requires Accounted(e) && e'.view == e.view.(speaking := true) && e'.delivered == e.delivered && e'.lost == e.lost
    ensures Accounted(e')
  {
    assert forall x: (int, nat) :: StoredOk(e'.view, x) <==> StoredOk(e.view, x);
  }

  /** What a delivery adds to the indices below the frontier. */
  lemma SeenAfter(h: History, v: View, m: nat, i: nat, x: (int, nat))
    requires Sound(h) && ViewOk(h, v) && m < |h.keys| && i < |h.sent[m]| && Receives(v, m, i)
    ensures StoredOk(Received(v, m, i), x) <==> StoredOk(v, x) || x == (m as int, i) || x in Skips(v, m, i)
  {
    hide ShelvedPairs;
    var w := Received(v, m, i);
    if Retained(v, m) {
      assert Accepted(w, x.0) <==> Accepted(v, x.0);
      if i < v.next[m] {
        assert StoredOk(v, (m as int, i));
      } else if x.0 == m {
        assert x in Skips(v, m, i) <==> v.next[m] <= x.1 < i;
      }
    } else {
      assert Accepted(w, x.0) <==> Accepted(v, x.0) || x.0 == m;
      assert x in Skips(v, m, i) <==> x.0 == m && x.1 < i;
    }
  }

  /** The message just opened is not stored, and nothing is stored that was not stored or skipped. */
  lemma StoredAfter(h: History, v: View, m: nat, i: nat, r: seq<(int, nat)>)
    requires Sound(h) && ViewOk(h, v) && m < |h.keys| && i < |h.sent[m]| && Receives(v, m, i)
    requires r == Received(v, m, i).stored
    ensures Pairs(r) <= Pairs(v.stored) + Skips(v, m, i)
    ensures (m as int, i) !in r
  {
    var from := if Retained(v, m) then v.next[m] else 0;
    if Retained(v, m) && i < v.next[m] {
      var k := PlaceOf(v.stored, (m as int, i));
      assert forall j :: 0 <= j < |r| ==> r[j] == v.stored[if j < k then j else j + 1];
    } else {
      forall k | 0 <= k < |v.stored| && v.stored[k].0 == m
        ensures v.stored[k].1 < from
      {
        assert StoredOk(v, v.stored[k]);
      }
      ShelvedContents(v.stored, m, from, i, r);
      forall x | x in r
        ensures x in v.stored || x in Skips(v, m, i)
      {
      }
      forall k | 0 <= k < |v.stored|
        ensures v.stored[k] != (m as int, i)
      {
      }
    }
  }

  /** Taking a message in moves its key from stored or still to come to used, and accounts for
      every key it skips. */
  lemma NotedAccounts(h: History, e: End, state: State, m: nat, i: nat)
    requires Sound(h) && ViewOk(h, e.view) && Accounted(e)
    requires m < |h.keys| && i < |h.sent[m]| && Receives(e.view, m, i)
    ensures Accounted(Noted(e, state, m, i))
    ensures (m as int, i) !in e.delivered
  {
    hide ShelvedPairs;
    hide Received;
    var e' := Noted(e, state, m, i);
    StoredAfter(h, e.view, m, i, e'.view.stored);
    var x: (int, nat) := (m, i);
    assert StoredOk(e.view, x) ==> x in e.view.stored by {
      Unseen(h, e.view, m, i, x);
    }
    assert x !in e.delivered && x !in e.lost;
    forall y: (int, nat)
      ensures StoredOk(e'.view, y) <==> y in e'.delivered || y in e'.lost || y in e'.view.stored
      ensures y in e'.view.stored ==> y !in e'.delivered && y !in e'.lost
    {
      SeenAfter(h, e.view, m, i, y);
      Unseen(h, e.view, m, i, y);
      assert y in Pairs(e.view.stored) <==> y in e.view.stored;
      assert y in Pairs(e'.view.stored) <==> y in e'.view.stored;
    }
    forall y | y in e'.delivered
      ensures y !in e'.lost
    {
      Unseen(h, e.view, m, i, y);
    }
  }

  lemma Unseen(h: History, v: View, m: nat, i: nat, x: (int, nat))
    requires Sound(h) && ViewOk(h, v) && m < |h.keys| && i < |h.sent[m]| && Receives(v, m, i)
    ensures x in Skips(v, m, i) ==> !StoredOk(v, x)
    ensures x == (m as int, i) && StoredOk(v, x) ==> x in v.stored
  {
  }

  /** A genuine message is taken in exactly as its view says. */
  lemma DeliverGenuine(w: World, p: Party, n: nat, i: nat, capacity: nat)
    requires Invariant(w) && n < |w.history.keys| && i < |w.history.sent[n]|
    ensures Receives(w.Of(p).view, n, i) ==> ViewOk(w.history, Received(w.Of(p).view, n, i))
    ensures var w' := Step(w, Deliver(p, Honest(w.history, n, i), capacity));
            w' == if Honest(w.history, n, i).ciphertext.value.Length() <= capacity && Receives(w.Of(p).view, n, i)
                     then w.With(p, Noted(w.Of(p), Concrete(w.history, Received(w.Of(p).view, n, i)), n, i))
                     else w
  {
    hide Concrete;
    hide Received;
    hide Receives;
    hide Accounted;
    hide Noted;
    hide Decrypted;
    hide Retained;
    hide ViewOk;
    hide InStep;
    assert |w.Of(p).view.stored| <= MAX_SKIPPED_MESSAGE_KEYS by { StoreFits(w, p); }
    var h, e := w.history, w.Of(p);
    var msg := Honest(h, n, i);
    PlaceOfKey(h, n);
    if msg.ciphertext.value.Length() <= capacity {
      DeliverSimulates(h, e.view, n, i, capacity);
    } else {
      TooSmall(e.state, msg, capacity);
      if Receives(e.view, n, i) {
        DeliverSimulates(h, e.view, n, i, msg.ciphertext.value.Length());
      }
    }
  }

  lemma StoreFits(w: World, p: Party)
    requires Invariant(w)
    ensures |w.Of(p).view.stored| <= MAX_SKIPPED_MESSAGE_KEYS && w.Of(p).state.Fits()
  {
  }

  lemma DeliverGenuineKeeps(w: World, p: Party, n: nat, i: nat, capacity: nat)
    requires Invariant(w) && n < |w.history.keys| && i < |w.history.sent[n]|
    ensures Invariant(Step(w, Deliver(p, Honest(w.history, n, i), capacity)))
  {
    hide Concrete;
    hide Received;
    hide Receives;
    hide Accounted;
    hide Noted;
    hide Step;
    hide Retained;
    var h, e := w.history, w.Of(p);
    DeliverGenuine(w, p, n, i, capacity);
    if Receives(e.view, n, i) && Honest(h, n, i).ciphertext.value.Length() <= capacity {
      var state := Concrete(h, Received(e.view, n, i));
      NotedAccounts(h, e, state, n, i);
      NotedIs(e, state, n, i);
      ReceivedTop(h, e.view, n, i);
      PeerChainOnly(w, p, n, i);
    }
  }

  lemma TooSmall(st: State, m: Message, capacity: nat)
    requires st.Fits() && Complete(m) && capacity < m.ciphertext.value.Length()
    ensures Decrypted(st, m, capacity) == (st, Failure(OutputBufferTooSmall))
  {
  }

  lemma NotedIs(e: End, state: State, m: int, i: nat)
    requires |e.view.stored| <= MAX_SKIPPED_MESSAGE_KEYS && Receives(e.view, m, i)
    ensures Noted(e, state, m, i).state == state && Noted(e, state, m, i).view == Received(e.view, m, i)
  {
  }

  lemma ReceivedTop(h: History, v: View, m: nat, i: nat)
    requires Sound(h) && ViewOk(h, v) && m < |h.keys| && Receives(v, m, i)
    ensures var r := Received(v, m, i);
            if Retained(v, m) then r.top == v.top && r.speaking == v.speaking
            else v.speaking && r.top == m == v.top + 2 && !r.speaking
  {
  }

  /** The only end that can be offered a chain it has not taken up is the peer of the newest one. */
  lemma PeerChainOnly(w: World, p: Party, m: nat, i: nat)
    requires Invariant(w) && m < |w.history.keys| && Receives(w.Of(p).view, m, i)
    ensures !Retained(w.Of(p).view, m) ==> p == Other(Owner(w.history)) && m == |w.history.keys| - 1
  {
  }

  lemma PlaceOfKey(h: History, n: nat)
    requires Sound(h) && n < |h.keys|
    ensures PlaceOf(h.keys, h.keys[n]) == n
  {
    var k := PlaceOf(h.keys, h.keys[n]);
    assert !(k < n);
    assert !(n < k);
  }

  /** Anything else that the network can come up with changes nothing. */
  lemma DeliverForgedKeeps(w: World, p: Party, m: Message, capacity: nat)
    requires Invariant(w) && Enabled(w, Deliver(p, m, capacity))
    requires forall n: nat, i: nat :: !Genuine(w.history, m, n, i)
    ensures Step(w, Deliver(p, m, capacity)) == w
    ensures Decrypted(w.Of(p).state, m, capacity).1.Failure?
  {
    var st := w.Of(p).state;
    if m.ciphertext.Some? && m.ciphertext.value.Sealed? {
      var n: nat, i: nat :| SealedBy(w.history, m.ciphertext.value, n, i);
      assert !Genuine(w.history, m, n, i);
    }
    TamperedNeverOpens(st, m, capacity);
  }


  /** What opens is what was sent: success is the opening of a message of the conversation. */
  lemma OnlyGenuineOpens(w: World, p: Party, m: Message, capacity: nat) returns (n: nat, i: nat)
    requires Invariant(w) && Enabled(w, Deliver(p, m, capacity))
    requires Decrypted(w.Of(p).state, m, capacity).1.Success?
    ensures Genuine(w.history, m, n, i) && Receives(w.Of(p).view, n, i)
    ensures Decrypted(w.Of(p).state, m, capacity).1.value == w.history.sent[n][i]
  {
    if forall n: nat, i: nat :: !Genuine(w.history, m, n, i) {
      DeliverForgedKeeps(w, p, m, capacity);
      assert false;
    }
    n, i :| Genuine(w.history, m, n, i);
    SuccessIsReceipt(w, p, n, i, capacity);
  }

  /** An honest message opens, to what was sent, exactly if the view says so and the buffer is large enough. */
  lemma SuccessIsReceipt(w: World, p: Party, n: nat, i: nat, capacity: nat)
    requires Invariant(w) && n < |w.history.keys| && i < |w.history.sent[n]|
    ensures var msg, st := Honest(w.history, n, i), w.Of(p).state;
            Decrypted(st, msg, capacity).1
            == if capacity < msg.ciphertext.value.Length() then Failure(OutputBufferTooSmall)
               else if Receives(w.Of(p).view, n, i) then Success(w.history.sent[n][i])
               else Failure(BadMessageMac)
  {
    hide Receives;
    hide Decrypted;
    hide Concrete;
    var msg, st := Honest(w.history, n, i), w.Of(p).state;
    if capacity < msg.ciphertext.value.Length() {
      TooSmall(st, msg, capacity);
    } else {
      DeliverSimulates(w.history, w.Of(p).view, n, i, capacity);
    }
  }

  lemma DeliverKeeps(w: World, p: Party, m: Message, capacity: nat)
    requires Invariant(w) && Enabled(w, Deliver(p, m, capacity))
    ensures Invariant(Step(w, Deliver(p, m, capacity)))
  {
    hide Step;
    if forall n: nat, i: nat :: !Genuine(w.history, m, n, i) {
      DeliverForgedKeeps(w, p, m, capacity);
    } else {
      var n: nat, i: nat :| Genuine(w.history, m, n, i);
      DeliverGenuineKeeps(w, p, n, i, capacity);
    }
  }

  lemma StepKeeps(w: World, e: Event)
    requires Invariant(w) && Enabled(w, e)
    ensures Invariant(Step(w, e))
  {
    match e
    case Send(p, newKey, what) => SendKeeps(w, p, newKey, what);
    case Deliver(p, m, capacity) => DeliverKeeps(w, p, m, capacity);
  }

  // ----- whole runs

  function Execute(w: World, es: seq<Event>): World
    decreases es
  {
    if es == [] then w else Execute(Step(w, es[0]), es[1..])
  }

  ghost predicate Possible(w: World, es: seq<Event>)
    decreases es
  {
    es == [] || (Sound(w.history) && Enabled(w, es[0]) && Possible(Step(w, es[0]), es[1..]))
  }

  lemma {:induction false} RunKeeps(w: World, es: seq<Event>)
    requires Invariant(w) && Possible(w, es)
    ensures Invariant(Execute(w, es))
    decreases es
  {
    hide Step;
    if es != [] {
      StepKeeps(w, es[0]);
      RunKeeps(Step(w, es[0]), es[1..]);
    }
  }

  /** The owner of the newest chain n stands at root R(n) and at the next unused key of that
      chain; the peer stands at R(n) with T(n) as its newest receiver chain, somewhere on that same
      chain, or still at R(n-1) with its own chain n-1, from where it will derive C(n, 0). */
  ghost predicate Agree(h: History, own: State, peer: State) {
    && Sound(h)
    && var n := |h.keys| - 1;
    && own.rootKey == RootAt(h.master, h.keys, n)
    && own.sender == [SenderChain(KeyPair(h.keys[n]), ChainKey(|h.sent[n]|, ChainAt(h, n, |h.sent[n]|)))]
    && (peer.sender == [] ==>
        && peer.rootKey == RootAt(h.master, h.keys, n)
        && peer.receivers != [] && peer.receivers[0].ratchetKey == PublicKey(h.keys[n])
        && peer.receivers[0].chainKey.key == ChainAt(h, n, peer.receivers[0].chainKey.index))
    && (peer.sender != [] ==>
        && n > 0 && peer.rootKey == RootAt(h.master, h.keys, n - 1)
        && peer.sender[0].ratchetKey == KeyPair(h.keys[n - 1])
        && CreateChainKey(peer.rootKey, peer.sender[0].ratchetKey, PublicKey(h.keys[n])).1 == ChainKey(0, ChainAt(h, n, 0)))
  }

  lemma InvariantAgrees(w: World)
    requires Invariant(w)
    ensures Agree(w.history, w.Of(Owner(w.history)).state, w.Of(Other(Owner(w.history))).state)
  {
    hide RootAt;
    hide ChainAt;
    hide SkippedEntries;
    hide Accounted;
    hide ViewOk;
    hide Concrete;
    ReceiversAre(w.history, w.Of(Other(Owner(w.history))).view);
    var peer := w.Of(Other(Owner(w.history)));
    if peer.view.speaking {
      NewChainKey(w.history, peer.view, |w.history.keys| - 1);
    }
    ChainsAre(w.history, w.Of(Alice).view);
    ChainsAre(w.history, w.Of(Bob).view);
  }

  /** Agreement, in every run. */
  lemma Agreement(master: MasterSecret, firstKey: nat, es: seq<Event>)
    requires Possible(Start(master, firstKey), es)
    ensures var w := Execute(Start(master, firstKey), es);
            Agree(w.history, w.Of(Owner(w.history)).state, w.Of(Other(Owner(w.history))).state)
  {
    StartIsFine(master, firstKey);
    RunKeeps(Start(master, firstKey), es);
    InvariantAgrees(Execute(Start(master, firstKey), es));
  }

  /** The assumption that encryption makes silently: without a sender chain there is a receiver
      chain to answer. It holds at both ends of every run. */
  lemma CanAlwaysAnswer(master: MasterSecret, firstKey: nat, es: seq<Event>, p: Party)
    requires Possible(Start(master, firstKey), es)
    ensures var st := Execute(Start(master, firstKey), es).Of(p).state;
            st.sender == [] ==> st.receivers != []
  {
    StartIsFine(master, firstKey);
    RunKeeps(Start(master, firstKey), es);
    var w := Execute(Start(master, firstKey), es);
    ReceiversAre(w.history, w.Of(p).view);
  }

  /** Every entry of the skipped store holds exactly the message key of its index on its chain, no two entries
      are for the same message, and every one lies behind its chain, as long as that is retained. */
  ghost predicate StoreSound(h: History, st: State) {
    && (forall k :: 0 <= k < |st.skipped| ==> IsMessageKey(h, st.skipped[k]))
    && (forall a, b :: 0 <= a < b < |st.skipped| ==>
          st.skipped[a].ratchetKey != st.skipped[b].ratchetKey || st.skipped[a].messageKey.index != st.skipped[b].messageKey.index)
    && (forall k, c :: 0 <= k < |st.skipped| && 0 <= c < |st.receivers| && st.receivers[c].ratchetKey == st.skipped[k].ratchetKey ==>
          st.skipped[k].messageKey.index < st.receivers[c].chainKey.index)
  }

  /** The entry holds the message key of its index on the chain that its ratchet key starts. */
  ghost predicate IsMessageKey(h: History, e: SkippedMessageKey) {
    exists m: nat :: m < |h.keys| && e.ratchetKey == PublicKey(h.keys[m]) && e.messageKey.key == MessageKeyAt(h, m, e.messageKey.index)
  }

  lemma EntryIsMessageKey(h: History, e: (int, nat))
    requires 0 <= e.0 < |h.keys| && e.1 < TWO_TO_THE_32
    ensures IsMessageKey(h, SkippedEntry(h, e))
  {
    var m: nat := e.0;
    assert SkippedEntry(h, e).messageKey.key == MessageKeyAt(h, m, e.1);
  }

  lemma StoreOfView(h: History, v: View)
    requires Sound(h) && ViewOk(h, v)
    ensures StoreSound(h, Concrete(h, v))
  {
    hide Concrete;
    hide IsMessageKey;
    var st := Concrete(h, v);
    ReceiversAre(h, v);
    assert forall k :: 0 <= k < |st.skipped| ==> st.skipped[k] == SkippedEntry(h, v.stored[k]) && StoredOk(v, v.stored[k]);
    forall k | 0 <= k < |st.skipped|
      ensures IsMessageKey(h, st.skipped[k])
    {
      EntryIsMessageKey(h, v.stored[k]);
    }
    forall a, b | 0 <= a < b < |st.skipped|
      ensures st.skipped[a].ratchetKey != st.skipped[b].ratchetKey || st.skipped[a].messageKey.index != st.skipped[b].messageKey.index
    {
      KeysIdentify(h, v.stored[a].0, v.stored[b].0);
    }
    forall k, c | 0 <= k < |st.skipped| && 0 <= c < |st.receivers| && st.receivers[c].ratchetKey == st.skipped[k].ratchetKey
      ensures st.skipped[k].messageKey.index < st.receivers[c].chainKey.index
    {
      KeysIdentify(h, v.stored[k].0, v.top - 2 * c);
    }
  }

  /** The store is sound at both ends of every run. */
  lemma StoreIsSound(master: MasterSecret, firstKey: nat, es: seq<Event>, p: Party)
    requires Possible(Start(master, firstKey), es)
    ensures var w := Execute(Start(master, firstKey), es); StoreSound(w.history, w.Of(p).state)
  {
    hide Concrete;
    hide StoreSound;
    StartIsFine(master, firstKey);
    RunKeeps(Start(master, firstKey), es);
    var w := Execute(Start(master, firstKey), es);
    StoreOfView(w.history, w.Of(p).view);
  }

  /** Whether the keys at hand reach message i of the chain with the given ratchet key. */
  predicate Reaches(st: State, key: PublicKey, i: nat) {
    exists k :: 0 <= k < |st.receivers| && st.receivers[k].ratchetKey == key &&
      var index := st.receivers[k].chainKey.index;
      if i < index then exists j :: 0 <= j < |st.skipped| && st.skipped[j].ratchetKey == key && st.skipped[j].messageKey.index == i
      else i <= index + 2000
  }

  /** Delivery: in every run, an honest message opens if and only if its chain is retained and its
      index lies in the window or among the skipped keys, or it is on the newest chain, not yet
      taken up, and among the first 2001 of it. What comes out is what was sent. */
  lemma Delivery(master: MasterSecret, firstKey: nat, es: seq<Event>, p: Party, n: nat, i: nat, capacity: nat)
    requires Possible(Start(master, firstKey), es)
    requires var h := Execute(Start(master, firstKey), es).history;
             n < |h.keys| == |h.sent| && i < |h.sent[n]| < TWO_TO_THE_32
             && Honest(h, n, i).ciphertext.value.Length() <= capacity
    ensures var w := Execute(Start(master, firstKey), es);
            var st, h := w.Of(p).state, w.history;
            && st.Fits()
            && Decrypted(st, Honest(h, n, i), capacity).1
               == if || Reaches(st, PublicKey(h.keys[n]), i)
                     || (n == |h.keys| - 1 && p == Other(Owner(h)) && st.sender != [] && i <= 2000)
                  then Success(h.sent[n][i]) else Failure(BadMessageMac)
  {
    hide Decrypted;
    StartIsFine(master, firstKey);
    RunKeeps(Start(master, firstKey), es);
    var w := Execute(Start(master, firstKey), es);
    SuccessIsReceipt(w, p, n, i, capacity);
    ReachesIsReceives(w, p, n, i);
  }

  lemma ReachesIsReceives(w: World, p: Party, n: nat, i: nat)
    requires Invariant(w) && n < |w.history.keys| && i < |w.history.sent[n]|
    ensures var st, h := w.Of(p).state, w.history;
            Receives(w.Of(p).view, n, i)
            <==> || Reaches(st, PublicKey(h.keys[n]), i)
                 || (n == |h.keys| - 1 && p == Other(Owner(h)) && st.sender != [] && i <= 2000)
  {
    hide Concrete;
    hide Reaches;
    hide Accounted;
    hide ViewOk;
    ReachOfView(w.history, w.Of(p).view, n, i);
    ChainsAre(w.history, w.Of(p).view);
    TopIsBelow(w.history, w.Of(p).view);
  }

  lemma TopIsBelow(h: History, v: View)
    requires Sound(h) && ViewOk(h, v)
    ensures -1 <= v.top < |h.keys| && (forall m :: Accepted(v, m) ==> m in v.next)
  {
  }

  /** The keys of a view reach what the view says is within reach of a retained chain, and nothing else. */
  lemma ReachOfView(h: History, v: View, n: nat, i: nat)
    requires Sound(h) && ViewOk(h, v) && n < |h.keys|
    ensures Retained(v, n) ==> n in v.next
    ensures Reaches(Concrete(h, v), PublicKey(h.keys[n]), i)
        <==> Retained(v, n) && if i < v.next[n] then (n as int, i) in v.stored else i - v.next[n] <= 2000
  {
    hide Concrete;
    hide ChainAt;
    var st, key := Concrete(h, v), PublicKey(h.keys[n]);
    FindsRetained(h, v, n);
    ReceiversAre(h, v);
    TopIsBelow(h, v);
    hide ViewOk;
    if Retained(v, n) {
      RetainedEntry(h, v, n);
      KeyUnique(h, v, n);
      SkippedReach(h, v, n, i);
      var k := (v.top - n) / 2;
      assert st.receivers[k].ratchetKey == key;
    } else {
      assert forall k :: 0 <= k < |st.receivers| ==> st.receivers[k].ratchetKey != key;
    }
  }

  lemma KeyUnique(h: History, v: View, n: nat)
    requires Sound(h) && ViewOk(h, v) && n < |h.keys| && Retained(v, n)
    ensures forall k :: 0 <= k < |Concrete(h, v).receivers| && Concrete(h, v).receivers[k].ratchetKey == PublicKey(h.keys[n])
                    ==> k == (v.top - n) / 2
  {
    ReceiversAre(h, v);
    forall k | 0 <= k < |Concrete(h, v).receivers| && Concrete(h, v).receivers[k].ratchetKey == PublicKey(h.keys[n])
      ensures k == (v.top - n) / 2
    {
      assert ReceiverEntry(h, v.top - 2 * k, v.next[v.top - 2 * k]).ratchetKey == PublicKey(h.keys[v.top - 2 * k]);
      KeysIdentify(h, v.top - 2 * k, n);
    }
  }

  lemma SkippedReach(h: History, v: View, n: nat, i: nat)
    requires Sound(h) && ViewOk(h, v) && n < |h.keys|
    ensures (exists j :: 0 <= j < |Concrete(h, v).skipped| && Concrete(h, v).skipped[j].ratchetKey == PublicKey(h.keys[n])
                         && Concrete(h, v).skipped[j].messageKey.index == i)
        <==> (n as int, i) in v.stored
  {
    ReceiversAre(h, v);
    var sk := Concrete(h, v).skipped;
    forall j | 0 <= j < |sk|
      ensures sk[j].ratchetKey == PublicKey(h.keys[n]) && sk[j].messageKey.index == i <==> v.stored[j] == (n as int, i)
    {
      assert sk[j] == SkippedEntry(h, v.stored[j]);
      KeysIdentify(h, v.stored[j].0, n);
    }
  }

  // ----- no key is used twice

  /** What an end has opened stays opened, and what was sent stays as it was sent. */
  ghost predicate Continues(w: World, w': World, p: Party, n: nat, i: nat)
    requires Sound(w.history)
    requires n < |w.history.keys| && i < |w.history.sent[n]|
  {
    && Sound(w'.history)
    && n < |w'.history.keys| && i < |w'.history.sent[n]|
    && Honest(w'.history, n, i) == Honest(w.history, n, i)
    && w.Of(p).delivered <= w'.Of(p).delivered
  }

  lemma SendContinues(w: World, q: Party, newKey: nat, what: Plaintext, p: Party, n: nat, i: nat)
    requires Invariant(w) && Enabled(w, Send(q, newKey, what))
    requires n < |w.history.keys| && i < |w.history.sent[n]|
    ensures Continues(w, Step(w, Send(q, newKey, what)), p, n, i)
  {
    hide Honest;
    hide Encrypted;
    hide Concrete;
    hide Accounted;
    SendKeeps(w, q, newKey, what);
    HonestStays(w.history, w.Of(q).view, newKey, what, n, i);
  }

  lemma DeliverContinues(w: World, q: Party, m: Message, capacity: nat, p: Party, n: nat, i: nat)
    requires Invariant(w) && n < |w.history.keys| && i < |w.history.sent[n]|
    ensures Continues(w, Step(w, Deliver(q, m, capacity)), p, n, i)
  {
    hide Honest;
    hide Decrypted;
    hide EndOk;
    hide Receives;
    hide Received;
  }

  lemma StepContinues(w: World, e: Event, p: Party, n: nat, i: nat)
    requires Invariant(w) && Enabled(w, e)
    requires n < |w.history.keys| && i < |w.history.sent[n]|
    ensures Continues(w, Step(w, e), p, n, i)
  {
    match e
    case Send(q, newKey, what) => SendContinues(w, q, newKey, what, p, n, i);
    case Deliver(q, m, capacity) => DeliverContinues(w, q, m, capacity, p, n, i);
  }

  lemma {:induction false} RunContinues(w: World, es: seq<Event>, p: Party, n: nat, i: nat)
    requires Invariant(w) && Possible(w, es)
    requires n < |w.history.keys| && i < |w.history.sent[n]|
    ensures Continues(w, Execute(w, es), p, n, i)
    decreases es
  {
    hide Step;
    hide Honest;
    if es != [] {
      StepKeeps(w, es[0]);
      StepContinues(w, es[0], p, n, i);
      RunContinues(Step(w, es[0]), es[1..], p, n, i);
    }
  }

  lemma DeliveredIsUsedUp(w: World, p: Party, n: nat, i: nat, capacity: nat)
    requires Invariant(w) && n < |w.history.keys| && i < |w.history.sent[n]|
    requires (n as int, i) in w.Of(p).delivered
    ensures !Receives(w.Of(p).view, n, i)
    ensures Decrypted(w.Of(p).state, Honest(w.history, n, i), capacity).1.Failure?
  {
    assert StoredOk(w.Of(p).view, (n as int, i));
    SuccessIsReceipt(w, p, n, i, capacity);
  }

  /** At most once: a message that has been opened at one end is refused there ever after,
      whatever is sent and delivered in between. */
  lemma AtMostOnce(master: MasterSecret, firstKey: nat, before: seq<Event>, p: Party, m: Message, first: nat,
                   between: seq<Event>, second: nat)
    requires Possible(Start(master, firstKey), before)
    requires Sound(Execute(Start(master, firstKey), before).history)
    requires Enabled(Execute(Start(master, firstKey), before), Deliver(p, m, first))
    requires var w := Execute(Start(master, firstKey), before);
             && w.Of(p).state.Fits() && Decrypted(w.Of(p).state, m, first).1.Success?
             && Possible(Step(w, Deliver(p, m, first)), between)
    ensures var st := Execute(Step(Execute(Start(master, firstKey), before), Deliver(p, m, first)), between).Of(p).state;
            st.Fits() && Decrypted(st, m, second).1.Failure?
  {
    hide Step;
    hide Decrypted;
    hide Honest;
    hide Receives;
    StartIsFine(master, firstKey);
    RunKeeps(Start(master, firstKey), before);
    var w := Execute(Start(master, firstKey), before);
    var n, i := OnlyGenuineOpens(w, p, m, first);
    var w1 := Step(w, Deliver(p, m, first));
    DeliverKeeps(w, p, m, first);
    StepContinues(w, Deliver(p, m, first), p, n, i);
    OpeningIsNoted(w, p, n, i, first);
    var w2 := Execute(w1, between);
    RunKeeps(w1, between);
    RunContinues(w1, between, p, n, i);
    DeliveredIsUsedUp(w2, p, n, i, second);
  }

  lemma OpeningIsNoted(w: World, p: Party, n: nat, i: nat, capacity: nat)
    requires Invariant(w) && n < |w.history.keys| && i < |w.history.sent[n]|
    requires Decrypted(w.Of(p).state, Honest(w.history, n, i), capacity).1.Success?
    ensures (n as int, i) in Step(w, Deliver(p, Honest(w.history, n, i), capacity)).Of(p).delivered
  {
    hide Step;
    hide Decrypted;
    SuccessIsReceipt(w, p, n, i, capacity);
    DeliverGenuine(w, p, n, i, capacity);
  }

  /** Message keys are pushed out only by a store that overflows. */
  lemma LossNeedsOverflow(w: World, p: Party, n: nat, i: nat)
    requires Invariant(w) && n < |w.history.keys| && i < |w.history.sent[n]|
    requires Receives(w.Of(p).view, n, i)
    requires var v := w.Of(p).view;
             |v.stored| + (i - (if Retained(v, n) then v.next[n] else 0)) <= 40
    ensures Noted(w.Of(p), w.Of(p).state, n, i).lost == w.Of(p).lost
  {
    hide Concrete;
    hide Accounted;
    hide EndOk;
    StoreFits(w, p);
    var v := w.Of(p).view;
    var r := Received(v, n, i).stored;
    var from := if Retained(v, n) then v.next[n] else 0;
    if Retained(v, n) && i < v.next[n] {
      var k := PlaceOf(v.stored, (n as int, i));
      forall j | 0 <= j < |v.stored| && v.stored[j] != (n as int, i)
        ensures v.stored[j] in r
      {
        assert v.stored[j] == r[if j < k then j else j - 1];
      }
      assert Skips(v, n, i) == {};
    } else {
      ShelvedPairsIsFront(v.stored, n, from, i);
      var newer := Descending(n, from, i);
      assert r == newer + v.stored;
      forall x | x in Pairs(v.stored) || x in Skips(v, n, i)
        ensures x in r
      {
        if x in Skips(v, n, i) {
          assert newer[i - 1 - x.1] == x;
        }
      }
    }
  }

  /** On a retained chain, a message below the frontier can still be opened unless it has been
      opened before or its key was pushed out: the order of the earlier deliveries is forgotten. */
  lemma OrderIsForgotten(w: World, p: Party, n: nat, i: nat)
    requires Invariant(w) && n < |w.history.keys| && i < |w.history.sent[n]|
    requires Retained(w.Of(p).view, n) && i < w.Of(p).view.next[n]
    ensures Receives(w.Of(p).view, n, i) <==> (n as int, i) !in w.Of(p).delivered && (n as int, i) !in w.Of(p).lost
  {
    var v := w.Of(p).view;
    var x: (int, nat) := (n, i);
    assert StoredOk(v, x);
    if x in v.stored {
      var k := PlaceOf(v.stored, x);
      assert v.stored[k] == x;
    }
  }
}
