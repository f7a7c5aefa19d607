/** The one-time keys of an account (src/account.cpp): a bounded list, newest first. */
module OlmAccount {
  import opened Words
  import opened BoundedList
  import opened KeyTerms
  import opened DoubleRatchet
  import opened Sizes

  const MAX_ONE_TIME_KEYS: nat := 100000

  datatype OneTimeKey = OneTimeKey(id: uint32, published: bool, key: KeyPair)

  /** The first key with the given public half, or the number of keys if there is none. */
  function FindKey(keys: seq<OneTimeKey>, public: PublicKey): (k: nat)
    ensures k <= |keys|
    ensures k < |keys| ==> keys[k].key.Public() == public
    ensures forall i :: 0 <= i < k ==> keys[i].key.Public() != public
  {
    if keys == [] then 0 else if keys[0].key.Public() == public then 0 else 1 + FindKey(keys[1..], public)
  }

  lemma FindKeyIs(keys: seq<OneTimeKey>, public: PublicKey, k: nat)
    requires k <= |keys| && (k < |keys| ==> keys[k].key.Public() == public)
    requires forall i :: 0 <= i < k ==> keys[i].key.Public() != public
    ensures FindKey(keys, public) == k
  {
    var f := FindKey(keys, public);
    assert !(f < k);
    assert !(k < f);
  }

  function Published(keys: seq<OneTimeKey>): (r: seq<OneTimeKey>)
    ensures |r| == |keys|
  {
    seq(|keys|, i requires 0 <= i < |keys| => keys[i].(published := true))
  }

  function Unpublished(keys: seq<OneTimeKey>): nat {
    if keys == [] then 0 else (if keys[0].published then 0 else 1) + Unpublished(keys[1..])
  }

  /** Keys generated one after the other, each put at the front under the next id. */
  function Generated(keys: seq<OneTimeKey>, nextId: uint32, pairs: seq<KeyPair>): (r: seq<OneTimeKey>)
    requires |keys| <= MAX_ONE_TIME_KEYS
    ensures |r| <= MAX_ONE_TIME_KEYS
    decreases |pairs|
  {
    if pairs == [] then keys
    else
      var id := Wrap32(nextId + 1);
      Generated(Inserted(keys, MAX_ONE_TIME_KEYS, 0, OneTimeKey(id, false, pairs[0])), id, pairs[1..])
  }

  lemma GeneratedUnfolds(keys: seq<OneTimeKey>, nextId: uint32, pairs: seq<KeyPair>)
    requires |keys| <= MAX_ONE_TIME_KEYS
    ensures pairs == [] ==> Generated(keys, nextId, pairs) == keys
    ensures pairs != [] ==>
      var id := Wrap32(nextId + 1);
      Generated(keys, nextId, pairs)
      == Generated(Inserted(keys, MAX_ONE_TIME_KEYS, 0, OneTimeKey(id, false, pairs[0])), id, pairs[1..])
  {
    hide Inserted;
  }

  /** A generated key can be looked up as long as no more than the list holds are generated
      after it: the newest are kept. */
  lemma {:induction false} GeneratedKeepsNewest(keys: seq<OneTimeKey>, nextId: uint32, pairs: seq<KeyPair>, k: nat)
    requires |keys| <= MAX_ONE_TIME_KEYS
    requires k < |keys| && k + |pairs| < 100000
    ensures k + |pairs| < |Generated(keys, nextId, pairs)|
    ensures Generated(keys, nextId, pairs)[k + |pairs|] == keys[k]
    decreases |pairs|
  {
    if pairs != [] {
      var id := Wrap32(nextId + 1);
      var e := OneTimeKey(id, false, pairs[0]);
      var next := Inserted(keys, MAX_ONE_TIME_KEYS, 0, e);
      InsertedFront(keys, MAX_ONE_TIME_KEYS, e);
      assert next[k + 1] == keys[k];
      GeneratedKeepsNewest(next, id, pairs[1..], k + 1);
    }
  }

  /** The k-th newest of the keys generated: the k-th last pair, unpublished, under an id that many below the last one. */
  lemma {:induction false} GeneratedAt(keys: seq<OneTimeKey>, nextId: uint32, pairs: seq<KeyPair>, k: nat)
    requires |keys| <= MAX_ONE_TIME_KEYS && k < |pairs| && k < 100000
    ensures k < |Generated(keys, nextId, pairs)|
    ensures Generated(keys, nextId, pairs)[k] == OneTimeKey((nextId + |pairs| - k) % 0x1_0000_0000, false, pairs[|pairs| - 1 - k])
    decreases |pairs|
  {
    var id := Wrap32(nextId + 1);
    var e := OneTimeKey(id, false, pairs[0]);
    var kept := Inserted(keys, MAX_ONE_TIME_KEYS, 0, e);
    if k == |pairs| - 1 {
      InsertedFront(keys, MAX_ONE_TIME_KEYS, e);
      GeneratedKeepsNewest(kept, id, pairs[1..], 0);
    } else {
      GeneratedAt(kept, id, pairs[1..], k);
      Wrap32Add(nextId + 1, |pairs| - 1 - k);
    }
  }

  /** Marking leaves everything of a key but the mark; what is counted are the keys without it. */
  lemma {:induction false} PublishedIs(keys: seq<OneTimeKey>)
    ensures forall k :: 0 <= k < |keys| ==> Published(keys)[k] == OneTimeKey(keys[k].id, true, keys[k].key)
    ensures Unpublished(keys) == |(set k | 0 <= k < |keys| && !keys[k].published)|
  {
    var all := set k | 0 <= k < |keys| && !keys[k].published;
    if keys != [] {
      var last := |keys| - 1;
      PublishedIs(keys[..last]);
      UnpublishedLast(keys);
      var before := set k | 0 <= k < |keys[..last]| && !keys[..last][k].published;
      assert all == before + if keys[last].published then {} else {last};
    } else {
      assert all == {};
    }
  }

  lemma {:induction false} UnpublishedLast(keys: seq<OneTimeKey>)
    requires keys != []
    ensures Unpublished(keys) == Unpublished(keys[..|keys| - 1]) + if keys[|keys| - 1].published then 0 else 1
  {
    if |keys| > 1 {
      UnpublishedLast(keys[1..]);
      assert keys[1..][..|keys| - 2] == keys[..|keys| - 1][1..];
    } else {
      assert keys[1..] == [];
    }
  }

  /** Removing a key that occurs once makes it impossible to look up, and loses no other key. */
  lemma RemovedIsGone(keys: seq<OneTimeKey>, public: PublicKey)
    requires forall i, j :: 0 <= i < j < |keys| ==> keys[i].key != keys[j].key
    requires FindKey(keys, public) < |keys|
    ensures var rest := Erased(keys, FindKey(keys, public));
            && FindKey(rest, public) == |rest|
            && forall e :: e in keys && e.key.Public() != public ==> e in rest
  {
    var k := FindKey(keys, public);
    var rest := Erased(keys, k);
    assert forall j :: 0 <= j < |rest| ==> rest[j] == keys[if j < k then j else j + 1];
    FindKeyIs(rest, public, |rest|);
    forall e | e in keys && e.key.Public() != public
      ensures e in rest
    {
      var j :| 0 <= j < |keys| && keys[j] == e;
      assert rest[if j < k then j else j - 1] == e;
    }
  }

  lemma FirstId(id: uint32)
    ensures Wrap32(id + 0) == id
  {
  }

  class Account {
    var identityKey: KeyPair
    const oneTimeKeys: List<OneTimeKey>
    var nextOneTimeKeyId: uint32
    var lastError: Error

    ghost predicate Valid()
      reads this, oneTimeKeys
    {
      oneTimeKeys.Valid() && oneTimeKeys.data.Length == MAX_ONE_TIME_KEYS
    }

    ghost function Keys(): (s: seq<OneTimeKey>)
      requires Valid()
      reads this, oneTimeKeys, oneTimeKeys.data
      ensures |s| <= MAX_ONE_TIME_KEYS
    {
      oneTimeKeys.Contents()
    }

    constructor (identity: KeyPair)
      ensures Valid() && Keys() == [] && identityKey == identity && nextOneTimeKeyId == 0
      ensures fresh(oneTimeKeys) && fresh(oneTimeKeys.data)
    {
      identityKey := identity;
      nextOneTimeKeyId := 0;
      lastError := NoError;
      oneTimeKeys := new List<OneTimeKey>(MAX_ONE_TIME_KEYS);
    }

    method LookupKey(public: PublicKey) returns (r: Option<OneTimeKey>)
      requires Valid()
      ensures var k := FindKey(Keys(), public);
              r == if k < |Keys()| then Some(Keys()[k]) else None
    {
      var k := 0;
      while k != oneTimeKeys.end && oneTimeKeys.data[k].key.Public() != public
        invariant k <= oneTimeKeys.end
        invariant forall i :: 0 <= i < k ==> oneTimeKeys.data[i].key.Public() != public
        decreases oneTimeKeys.end - k
      {
        k := k + 1;
      }
      FindKeyIs(Keys(), public, k);
      r := if k != oneTimeKeys.end then Some(oneTimeKeys.data[k]) else None;
    }

    method RemoveKey(public: PublicKey) returns (id: Option<uint32>)
      requires Valid()
      modifies oneTimeKeys, oneTimeKeys.data
      ensures Valid()
      ensures var k := FindKey(old(Keys()), public);
              if k < |old(Keys())| then id == Some(old(Keys())[k].id) && Keys() == Erased(old(Keys()), k)
              else id == None && Keys() == old(Keys())
    {
      var k := 0;
      while k != oneTimeKeys.end && oneTimeKeys.data[k].key.Public() != public
        invariant Valid() && k <= oneTimeKeys.end && Keys() == old(Keys())
        invariant forall i :: 0 <= i < k ==> Keys()[i].key.Public() != public
        decreases oneTimeKeys.end - k
      {
        k := k + 1;
      }
      FindKeyIs(Keys(), public, k);
      if k == oneTimeKeys.end {
        return None;
      }
      id := Some(oneTimeKeys.data[k].id);
      oneTimeKeys.Erase(k);
    }

    method MarkKeysAsPublished() returns (count: nat)
      requires Valid()
      modifies oneTimeKeys.data
      ensures Valid() && Keys() == Published(old(Keys())) && count == Unpublished(old(Keys()))
    {
      count := 0;
      ghost var before := Keys();
      for i := 0 to oneTimeKeys.end
        invariant Valid() && |Keys()| == |before|
        invariant forall k :: 0 <= k < i ==> Keys()[k] == before[k].(published := true)
        invariant forall k :: i <= k < |before| ==> Keys()[k] == before[k]
        invariant count + Unpublished(before[i..]) == Unpublished(before)
      {
        assert before[i..][1..] == before[i + 1..];
        if !oneTimeKeys.data[i].published {
          oneTimeKeys.data[i] := oneTimeKeys.data[i].(published := true);
          count := count + 1;
        }
      }
      assert before[|before|..] == [];
      assert Keys() == Published(before);
    }

    /** `pairs` are the key pairs generated from the random bytes. */
    method GenerateOneTimeKeys(pairs: seq<KeyPair>, randomLength: nat) returns (r: Result<nat>)
      requires Valid()
      modifies this`nextOneTimeKeyId, this`lastError, oneTimeKeys, oneTimeKeys.data
      ensures Valid()
      ensures r == if randomLength < 32 * |pairs| then Failure(NotEnoughRandom) else Success(|pairs|)
      ensures r.Failure? ==> Keys() == old(Keys()) && nextOneTimeKeyId == old(nextOneTimeKeyId) && lastError == r.error
      ensures r.Success? ==> Keys() == Generated(old(Keys()), old(nextOneTimeKeyId), pairs)
      ensures r.Success? ==> nextOneTimeKeyId == Wrap32(old(nextOneTimeKeyId) + |pairs|)
    {
      if randomLength < CURVE25519_RANDOM_LENGTH * |pairs| {
        lastError := NotEnoughRandom;
        return Failure(NotEnoughRandom);
      }
      hide Generated;
      hide Inserted;
      hide Wrap32;
      FirstId(nextOneTimeKeyId);
      for i := 0 to |pairs|
        invariant Valid()
        invariant Generated(Keys(), nextOneTimeKeyId, pairs[i..]) == Generated(old(Keys()), old(nextOneTimeKeyId), pairs)
        invariant nextOneTimeKeyId == Wrap32(old(nextOneTimeKeyId) + i)
      {
        assert pairs[i..][1..] == pairs[i + 1..];
        GeneratedUnfolds(Keys(), nextOneTimeKeyId, pairs[i..]);
        Wrap32Add(old(nextOneTimeKeyId) + i, 1);
        nextOneTimeKeyId := Wrap32(nextOneTimeKeyId + 1);
        var _ := oneTimeKeys.Insert(0, OneTimeKey(nextOneTimeKeyId, false, pairs[i]));
      }
      assert pairs[|pairs|..] == [];
      GeneratedUnfolds(Keys(), nextOneTimeKeyId, []);
      r := Success(|pairs|);
    }
  }
}
