/** What the protocol promises of terms, on bytes: the two ends derive the same keys, every honest message that the protocol
    delivers opens on the wire, and an end or an account that is saved and loaded again is the same. */
module DeliveryOnBytes {
  import opened Words
  import opened Cipher
  import opened RatchetBytes
  import opened Sizes
  import Conversation
  import OlmAccount
  import OlmSession
  import P = Protocol
  import Persistence
  import T = KeyTerms
  import R = DoubleRatchet

  /** The ratchet keys of a conversation have different public halves. */
  ghost predicate Distinct(m: Meaning, h: Conversation.History) {
    forall a, b :: 0 <= a < b < |h.keys| ==> Public(m, T.PublicKey(h.keys[a])) != Public(m, T.PublicKey(h.keys[b]))
  }

  // ----- set-up

  /** Each side of the triple Diffie-Hellman computes, from its own private keys, the bytes that the master secret stands for. */
  lemma MasterOnBytes(m: Meaning, identity: T.KeyPair, base: T.KeyPair, bobIdentity: T.KeyPair, oneTime: T.KeyPair)
    requires Commutes(m.curve)
    ensures var master := OlmSession.AliceMaster(identity, base, bobIdentity.Public(), oneTime.Public());
            var a, e, i, o := Pair(m, identity), Pair(m, base), Pair(m, bobIdentity), Pair(m, oneTime);
            var secret := m.curve.secret;
            && MasterBytes(m, master) == [] + secret(a.private, o.public) + secret(e.private, i.public) + secret(e.private, o.public)
            && MasterBytes(m, master) == [] + secret(o.private, a.public) + secret(i.private, e.public) + secret(o.private, e.public)
  {
    SharedSecretOnBytes(m, identity, oneTime.Public());
    SharedSecretOnBytes(m, base, bobIdentity.Public());
    SharedSecretOnBytes(m, base, oneTime.Public());
    SharedSecretOnBytes(m, oneTime, identity.Public());
    SharedSecretOnBytes(m, bobIdentity, base.Public());
    SharedSecretOnBytes(m, oneTime, base.Public());
    OlmSession.MastersAgree(identity, base, bobIdentity, oneTime);
  }

  // ----- delivery

  lemma KeyTold(m: Meaning, h: Conversation.History, a: int, b: int)
    requires Distinct(m, h) && 0 <= a < |h.keys| && 0 <= b < |h.keys|
    requires Public(m, T.PublicKey(h.keys[a])) == Public(m, T.PublicKey(h.keys[b]))
    ensures a == b
  {
  }

  /** The keys at hand are keys of the conversation. */
  lemma TellsOfView(m: Meaning, h: Conversation.History, v: Conversation.View, n: nat)
    requires Conversation.Sound(h) && Conversation.ViewOk(h, v) && Distinct(m, h) && n < |h.keys|
    ensures Tells(m, Conversation.Concrete(h, v), T.PublicKey(h.keys[n]))
  {
    hide Conversation.Concrete;
    hide Conversation.ChainAt;
    hide Public;
    hide Distinct;
    var st, key := Conversation.Concrete(h, v), T.PublicKey(h.keys[n]);
    Conversation.ReceiversAre(h, v);
    forall k | 0 <= k < |st.receivers| && Public(m, st.receivers[k].ratchetKey) == Public(m, key)
      ensures st.receivers[k].ratchetKey == key
    {
      KeyTold(m, h, v.top - 2 * k, n);
    }
    forall k | 0 <= k < |st.skipped| && Public(m, st.skipped[k].ratchetKey) == Public(m, key)
      ensures st.skipped[k].ratchetKey == key
    {
      assert st.skipped[k] == Conversation.SkippedEntry(h, v.stored[k]);
      KeyTold(m, h, v.stored[k].0, n);
    }
  }

  /** Whether the protocol delivers message i of chain n to an end. */
  predicate Delivers(w: P.World, p: P.Party, n: nat, i: nat)
    requires n < |w.history.keys|
  {
    var st, h := w.Of(p).state, w.history;
    || P.Reaches(st, T.PublicKey(h.keys[n]), i)
    || (n == |h.keys| - 1 && p == P.Other(P.Owner(h)) && st.sender != [] && i <= 2000)
  }

  /** In every run, an honest message that the protocol delivers opens on bytes, to what was sent, and the bytes held
      afterwards are those of the state afterwards. Of the primitives this asks that decryption inverts encryption, that
      Diffie-Hellman commutes, and that the ratchet keys of this conversation are different. */
  lemma DeliveredOnBytes(m: Meaning, master: T.MasterSecret, firstKey: nat, es: seq<P.Event>, p: P.Party, n: nat, i: nat, capacity: nat)
    requires P.Possible(P.Start(master, firstKey), es)
    requires Sound(m.p) && Commutes(m.curve) && Distinct(m, P.Execute(P.Start(master, firstKey), es).history)
    requires var h := P.Execute(P.Start(master, firstKey), es).history;
             n < |h.keys| == |h.sent| && i < |h.sent[n]| < TWO_TO_THE_32
             && Conversation.Honest(h, n, i).ciphertext.value.Length() <= capacity && |h.sent[n][i]| < TWO_TO_THE_32
    requires Delivers(P.Execute(P.Start(master, firstKey), es), p, n, i)
    ensures var w := P.Execute(P.Start(master, firstKey), es);
            var st, msg := w.Of(p).state, Conversation.Honest(w.history, n, i);
            && st.Fits() && Carries(msg)
            && var after := R.Decrypted(st, msg, capacity).0;
               && after.Fits()
               && Decrypted(m.p, m.curve, Held(m, st), MessageBytes(m, msg), capacity) == (Held(m, after), Plain(w.history.sent[n][i]))
  {
    hide P.Reaches;
    hide R.Decrypted;
    hide Decrypted;
    hide Held;
    hide MessageBytes;
    hide P.StoreSound;
    hide Conversation.Concrete;
    hide Tells;
    hide Distinct;
    P.StartIsFine(master, firstKey);
    P.RunKeeps(P.Start(master, firstKey), es);
    P.Delivery(master, firstKey, es, p, n, i, capacity);
    P.StoreIsSound(master, firstKey, es, p);
    var w := P.Execute(P.Start(master, firstKey), es);
    OneEachOf(w.history, w.Of(p).state);
    TellsOfView(m, w.history, w.Of(p).view, n);
    Conversation.HonestIs(w.history, n, i);
    DecryptOnBytes(m, w.Of(p).state, Conversation.Honest(w.history, n, i), capacity);
  }

  lemma OneEachOf(h: Conversation.History, st: R.State)
    requires P.StoreSound(h, st)
    ensures OneEach(st)
  {
  }

  // ----- saved and loaded

  /** The bytes of a session: whether it has received something, the keys it is identified by, and its ratchet. */
  function SessionBytes(m: Meaning, receivedMessage: bool, ids: OlmSession.Identifiers, st: R.State): (s: Persistence.StoredSession)
    requires st.Fits()
    ensures s.Fits()
  {
    Persistence.StoredSession(receivedMessage, Public(m, ids.aliceIdentityKey), Public(m, ids.aliceBaseKey), Public(m, ids.bobOneTimeKey),
                              Held(m, st))
  }

  function OneTimeKeyBytes(m: Meaning, k: OlmAccount.OneTimeKey): Persistence.StoredOneTimeKey {
    Persistence.StoredOneTimeKey(k.id, k.published, Pair(m, k.key))
  }

  function AccountBytes(m: Meaning, signing: Persistence.EdPair, identity: T.KeyPair, keys: seq<OlmAccount.OneTimeKey>, nextId: uint32)
    : (a: Persistence.StoredAccount)
    ensures |a.oneTimeKeys| == |keys| && forall k :: 0 <= k < |keys| ==> a.oneTimeKeys[k] == OneTimeKeyBytes(m, keys[k])
  {
    Persistence.StoredAccount(signing, Pair(m, identity), seq(|keys|, k requires 0 <= k < |keys| => OneTimeKeyBytes(m, keys[k])), nextId)
  }

  /** An end that is saved at any point of any run and loaded again still opens every honest message that the protocol delivers. */
  lemma LoadedEndDelivers(m: Meaning, master: T.MasterSecret, firstKey: nat, es: seq<P.Event>, p: P.Party, n: nat, i: nat, capacity: nat,
                          receivedMessage: bool, ids: OlmSession.Identifiers, key: seq<byte>, stray: byte, loaded: Persistence.StoredSession)
    requires P.Possible(P.Start(master, firstKey), es)
    requires Sound(m.p) && Commutes(m.curve) && Distinct(m, P.Execute(P.Start(master, firstKey), es).history)
    requires var h := P.Execute(P.Start(master, firstKey), es).history;
             n < |h.keys| == |h.sent| && i < |h.sent[n]| < TWO_TO_THE_32
             && Conversation.Honest(h, n, i).ciphertext.value.Length() <= capacity && |h.sent[n][i]| < TWO_TO_THE_32
    requires Delivers(P.Execute(P.Start(master, firstKey), es), p, n, i)
    requires P.Execute(P.Start(master, firstKey), es).Of(p).state.Fits()
    requires var s := SessionBytes(m, receivedMessage, ids, P.Execute(P.Start(master, firstKey), es).Of(p).state);
             Persistence.LoadedFrom(m.p, key, Persistence.SessionPickle, Persistence.SavedText(m.p, key, 1, Persistence.SessionObject(s)), stray)
             == Persistence.Loaded(1, Persistence.SessionObject(loaded))
    ensures var w := P.Execute(P.Start(master, firstKey), es);
            var msg := Conversation.Honest(w.history, n, i);
            && loaded == SessionBytes(m, receivedMessage, ids, w.Of(p).state) && Carries(msg)
            && Decrypted(m.p, m.curve, loaded.ratchet, MessageBytes(m, msg), capacity).1 == Plain(w.history.sent[n][i])
  {
    hide P.Reaches;
    hide Delivers;
    hide P.Execute;
    hide Persistence.LoadedFrom;
    hide Persistence.SavedText;
    hide Persistence.SessionObject;
    hide Decrypted;
    hide MessageBytes;
    hide R.Decrypted;
    hide Held;
    var st := P.Execute(P.Start(master, firstKey), es).Of(p).state;
    Persistence.SavedSession(m.p, key, SessionBytes(m, receivedMessage, ids, st), loaded, stray);
    DeliveredOnBytes(m, master, firstKey, es, p, n, i, capacity);
  }

  /** The first stored key with the given public half, or the number of keys. */
  function FindStored(keys: seq<Persistence.StoredOneTimeKey>, public: Key32): (k: nat)
    ensures k <= |keys|
    ensures k < |keys| ==> keys[k].key.public == public
    ensures forall i :: 0 <= i < k ==> keys[i].key.public != public
  {
    if keys == [] then 0 else if keys[0].key.public == public then 0 else 1 + FindStored(keys[1..], public)
  }

  /** An account that is saved and loaded again is the same account, and finds the same key for every public half. */
  lemma LoadedAccountFinds(m: Meaning, signing: Persistence.EdPair, identity: T.KeyPair, keys: seq<OlmAccount.OneTimeKey>, nextId: uint32,
                           key: seq<byte>, stray: byte, loaded: Persistence.StoredAccount, public: T.PublicKey)
    requires Sound(m.p) && |keys| <= OlmAccount.MAX_ONE_TIME_KEYS
    requires forall k :: 0 <= k < |keys| && Public(m, keys[k].key.Public()) == Public(m, public) ==> keys[k].key.Public() == public
    requires var a := AccountBytes(m, signing, identity, keys, nextId);
             Persistence.LoadedFrom(m.p, key, Persistence.AccountPickle, Persistence.SavedText(m.p, key, 2, Persistence.AccountObject(a)), stray)
             == Persistence.Loaded(2, Persistence.AccountObject(loaded))
    ensures loaded == AccountBytes(m, signing, identity, keys, nextId)
    ensures FindStored(loaded.oneTimeKeys, Public(m, public)) == OlmAccount.FindKey(keys, public)
  {
    hide Persistence.LoadedFrom;
    hide Persistence.SavedText;
    hide Persistence.AccountObject;
    hide Public;
    Persistence.SavedAccount(m.p, key, AccountBytes(m, signing, identity, keys, nextId), loaded, stray);
    var j, k := FindStored(loaded.oneTimeKeys, Public(m, public)), OlmAccount.FindKey(keys, public);
    assert !(j < k);
    assert !(k < j);
  }
}
