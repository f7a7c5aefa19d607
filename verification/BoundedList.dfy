/** The fixed-capacity list of include/self_olm/list.hh, kept in place in an array. */
module BoundedList {

  /** Where an insertion at `pos` ends up: a full list gives up its last place. */
  function InsertionPoint<T>(s: seq<T>, capacity: nat, pos: nat): (at: nat)
    requires |s| <= capacity && 0 < capacity && pos <= |s|
    ensures at <= pos && at < capacity
  {
    if |s| == capacity && pos == |s| then pos - 1 else pos
  }

  /** The list after an insertion; what no longer fits is dropped from the end. */
  function Inserted<T>(s: seq<T>, capacity: nat, pos: nat, value: T): (r: seq<T>)
    requires |s| <= capacity && 0 < capacity && pos <= |s|
    ensures |r| == if |s| == capacity then capacity else |s| + 1
  {
    var at := InsertionPoint(s, capacity, pos);
    var longer := s[..at] + [value] + s[at..];
    if |s| == capacity then longer[..capacity] else longer
  }

  function Erased<T>(s: seq<T>, pos: nat): seq<T>
    requires pos < |s|
  {
    s[..pos] + s[pos + 1..]
  }

  lemma InsertedAt<T>(s: seq<T>, capacity: nat, pos: nat, value: T)
    requires |s| <= capacity && 0 < capacity && pos <= |s|
    ensures var at, r := InsertionPoint(s, capacity, pos), Inserted(s, capacity, pos, value);
            forall k :: 0 <= k < |r| ==> r[k] == if k < at then s[k] else if k == at then value else s[k - 1]
  {
  }

  lemma InsertedFront<T>(s: seq<T>, capacity: nat, value: T)
    requires |s| <= capacity && 0 < capacity
    ensures Inserted(s, capacity, 0, value)[0] == value
    ensures forall k :: 0 < k < |Inserted(s, capacity, 0, value)| ==> Inserted(s, capacity, 0, value)[k] == s[k - 1]
  {
  }

  /** Erasing what was just inserted gives the list back, short of what was pushed out. */
  lemma EraseUndoesInsert<T>(s: seq<T>, capacity: nat, pos: nat, value: T)
    requires |s| <= capacity && 0 < capacity && pos <= |s|
    ensures var at := InsertionPoint(s, capacity, pos);
            Inserted(s, capacity, pos, value)[at] == value
            && Erased(Inserted(s, capacity, pos, value), at)
               == if |s| == capacity then s[..capacity - 1] else s
  {
    var at := InsertionPoint(s, capacity, pos);
    var longer := s[..at] + [value] + s[at..];
    assert Erased(longer, at) == s;
    if |s| == capacity {
      assert longer[..capacity][..at] + longer[..capacity][at + 1..] == s[..capacity - 1];
    }
  }

  class List<T(0)> {
    const data: array<T>
    var end: nat

    ghost predicate Valid()
      reads this
    {
      0 < data.Length && end <= data.Length
    }

    ghost function Contents(): seq<T>
      requires Valid()
      reads this, data
    {
      data[..end]
    }

    constructor (capacity: nat)
      requires 0 < capacity
      ensures Valid() && fresh(data) && data.Length == capacity && Contents() == []
    {
      data := new T[capacity];
      end := 0;
    }

    method Erase(pos: nat)
      requires Valid() && pos < end
      modifies this, data
      ensures Valid() && Contents() == Erased(old(Contents()), pos)
    {
      end := end - 1;
      var p := pos;
      while p != end
        invariant pos <= p <= end < data.Length && end == old(end) - 1
        invariant forall k :: 0 <= k < pos ==> data[k] == old(data[k])
        invariant forall k :: pos <= k < p ==> data[k] == old(data[k + 1])
        invariant forall k :: p <= k < data.Length ==> data[k] == old(data[k])
        decreases end - p
      {
        data[p] := data[p + 1];
        p := p + 1;
      }
    }

    /** Makes space at `pos`; the space itself holds whatever the slot held before. */
    method MakeSpace(pos: nat) returns (at: nat)
      requires Valid() && pos <= end
      modifies this, data
      ensures Valid() && at == InsertionPoint(old(Contents()), data.Length, pos) && at < end
      ensures end == if old(end) == data.Length then old(end) else old(end) + 1
      ensures forall k :: 0 <= k < at ==> Contents()[k] == old(Contents())[k]
      ensures forall k :: at < k < end ==> Contents()[k] == old(Contents())[k - 1]
    {
      at := pos;
      if end != data.Length {
        end := end + 1;
      } else if at == end {
        at := at - 1;
      }
      ghost var longer := end;
      var tmp := end - 1;
      while tmp != at
        invariant end == longer && at <= tmp < end <= data.Length
        invariant forall k :: 0 <= k <= tmp ==> data[k] == old(data[k])
        invariant forall k :: tmp < k < end ==> data[k] == old(data[k - 1])
        decreases tmp - at
      {
        data[tmp] := data[tmp - 1];
        tmp := tmp - 1;
      }
    }

    method Insert(pos: nat, value: T) returns (at: nat)
      requires Valid() && pos <= end
      modifies this, data
      ensures Valid() && at == InsertionPoint(old(Contents()), data.Length, pos) && at < end
      ensures Contents() == Inserted(old(Contents()), data.Length, pos, value)
    {
      at := MakeSpace(pos);
      ghost var before, spaced := old(Contents()), Contents();
      InsertedAt(before, data.Length, pos, value);
      data[at] := value;
      assert forall k :: 0 <= k < end && k != at ==> Contents()[k] == spaced[k];
    }
  }
}
