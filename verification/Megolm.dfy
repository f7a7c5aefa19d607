/** The Megolm ratchet (src/megolm.c): four hash parts and a 32-bit counter.

    `Step` is one step of the ratchet and `Iterate` any number of them; the class
    below works in place, and its fast-forward `AdvanceTo` is proved to be the iteration. */
module Megolm {
  import opened Words

  const PARTS: nat := 4
  const PART_LENGTH: nat := 32

  type Part = p: seq<byte> | |p| == 32 witness seq(32, _ => 0)

  const ZERO_PART: Part := seq(32, _ => 0)

  /** HMAC-SHA-256 keyed by a part, over the one-byte seed of the given number: any function. */
  type Hash = (Part, nat) -> Part

  type Parts = d: seq<Part> | |d| == 4 witness [ZERO_PART, ZERO_PART, ZERO_PART, ZERO_PART]

  datatype State = State(data: Parts, counter: uint32)

  /** How many steps lie between two rekeyings of part j. */
  function Period(j: nat): (b: nat)
    requires j < PARTS
    ensures b > 0
  {
    if j == 0 then 0x100_0000 else if j == 1 then 0x1_0000 else if j == 2 then 0x100 else 1
  }

  /** The first part that is rekeyed on reaching the given counter. */
  function RekeyLevel(counter: uint32): (j: nat)
    ensures j < PARTS && counter % Period(j) == 0
    ensures forall i :: 0 <= i < j ==> counter % Period(i) != 0
  {
    if counter % Period(0) == 0 then 0
    else if counter % Period(1) == 0 then 1
    else if counter % Period(2) == 0 then 2
    else 3
  }

  /** Parts j..3 all replaced by hashes of part j. */
  function RehashFrom(h: Hash, d: Parts, j: nat): Parts
    requires j < PARTS
  {
    seq(4, i requires 0 <= i < 4 => if i < j then d[i] else h(d[j], i))
  }

  /** One step of the ratchet. */
  function Step(h: Hash, s: State): State {
    var c := Wrap32(s.counter + 1);
    State(RehashFrom(h, s.data, RekeyLevel(c)), c)
  }

  /** n steps of the ratchet. */
  function Iterate(h: Hash, s: State, n: nat): State {
    if n == 0 then s else Step(h, Iterate(h, s, n - 1))
  }

  /** One step, part by part, as docs/megolm.md defines it: part 0 changes every 2^24 steps, part 1 every 2^16, part 2 every
      2^8 and part 3 always, each to a hash, under its own seed, of the topmost part that changes. */
  lemma StepParts(h: Hash, s: State, c: nat)
    requires c == (s.counter + 1) % 0x1_0000_0000
    ensures var t, r := Step(h, s), s.data;
            && t.counter == c
            && t.data[0] == (if c % 0x100_0000 == 0 then h(r[0], 0) else r[0])
            && t.data[1] == (if c % 0x100_0000 == 0 then h(r[0], 1) else if c % 0x1_0000 == 0 then h(r[1], 1) else r[1])
            && t.data[2] == (if c % 0x100_0000 == 0 then h(r[0], 2) else if c % 0x1_0000 == 0 then h(r[1], 2)
                             else if c % 0x100 == 0 then h(r[2], 2) else r[2])
            && t.data[3] == (if c % 0x100_0000 == 0 then h(r[0], 3) else if c % 0x1_0000 == 0 then h(r[1], 3)
                             else if c % 0x100 == 0 then h(r[2], 3) else h(r[3], 3))
  {
  }

  lemma StepCounter(h: Hash, s: State)
    ensures Step(h, s).counter == Wrap32(s.counter + 1)
  {
  }

  lemma {:induction false} IterateCounter(h: Hash, s: State, n: nat)
    ensures Iterate(h, s, n).counter == Wrap32(s.counter + n)
  {
    if n > 0 {
      IterateCounter(h, s, n - 1);
      StepCounter(h, Iterate(h, s, n - 1));
      Wrap32Add(s.counter + (n - 1), 1);
    }
  }

  lemma {:induction false} IterateAdd(h: Hash, s: State, a: nat, b: nat)
    ensures Iterate(h, Iterate(h, s, a), b) == Iterate(h, s, a + b)
  {
    hide Step;
    if b > 0 {
      IterateAdd(h, s, a, b - 1);
    }
  }

  // ----- what happens between two rekeyings of part j

  /** Part j hashed k times on its own. */
  function Bump(h: Hash, d: Parts, j: nat, k: nat): Parts
    requires j < PARTS
  {
    if k == 0 then d else var e := Bump(h, d, j, k - 1); e[j := h(e[j], j)]
  }

  lemma PeriodsNest(c: nat, i: nat, j: nat)
    requires i <= j < PARTS
    requires c % Period(i) == 0
    ensures c % Period(j) == 0
  {
    var ratio := if i == j then 1 else if j == i + 1 then 0x100 else if j == i + 2 then 0x1_0000 else 0x100_0000;
    assert Period(i) == ratio * Period(j);
    hide Period;
    MultipleOfMultiple(c, Period(j), ratio);
  }

  lemma MultipleOfMultiple(c: nat, m: nat, ratio: nat)
    requires m > 0 && ratio > 0 && ratio * m > 0 && c % (ratio * m) == 0
    ensures c % m == 0
  {
    var q := c / (ratio * m);
    assert c == q * (ratio * m) == (q * ratio) * m;
    DivModUnique(c, m, q * ratio, 0);
  }

  /** A step that lands inside a period of part j rekeys only parts beyond j. */
  lemma QuietStep(h: Hash, s: State, j: nat)
    requires j < PARTS
    requires s.counter % Period(j) + 1 < Period(j)
    ensures forall i :: 0 <= i <= j ==> Step(h, s).data[i] == s.data[i]
    ensures Step(h, s).counter == s.counter + 1
    ensures Step(h, s).counter % Period(j) == s.counter % Period(j) + 1
  {
    InsidePeriod(s.counter, j);
    var c := Wrap32(s.counter + 1);
    if RekeyLevel(c) <= j {
      PeriodsNest(c, RekeyLevel(c), j);
    }
  }

  lemma InsidePeriod(c: uint32, j: nat)
    requires j < PARTS
    requires c % Period(j) + 1 < Period(j)
    ensures (c + 1) % Period(j) == c % Period(j) + 1
    ensures c + 1 < TWO_TO_THE_32
  {
    DivModUnique(c + 1, Period(j), c / Period(j), c % Period(j) + 1);
  }

  /** Short of the next multiple of Period(j), parts 0..j keep their values. */
  lemma {:induction false} QuietUntilBoundary(h: Hash, s: State, j: nat, n: nat)
    requires j < PARTS
    requires s.counter % Period(j) + n < Period(j)
    ensures forall i :: 0 <= i <= j ==> Iterate(h, s, n).data[i] == s.data[i]
    ensures Iterate(h, s, n).counter == s.counter + n
    ensures Iterate(h, s, n).counter % Period(j) == s.counter % Period(j) + n
  {
    if n > 0 {
      QuietUntilBoundary(h, s, j, n - 1);
      QuietStep(h, Iterate(h, s, n - 1), j);
    }
  }

  /** The number of steps from a counter to the k-th multiple of Period(j) after it. */
  function ToBoundary(counter: uint32, j: nat, k: nat): (n: nat)
    requires j < PARTS && k > 0
  {
    k * Period(j) - counter % Period(j)
  }

  lemma BoundaryCounter(counter: uint32, j: nat, k: nat)
    requires j < PARTS && k > 0
    requires j > 0 ==> counter / Period(j) % 0x100 + k < 0x100
    ensures RekeyLevel(Wrap32(counter + ToBoundary(counter, j, k))) == j
  {
    hide RekeyLevel;
    hide Period;
    hide ToBoundary;
    var q := counter / Period(j) + k;
    BoundaryMultiple(counter, j, k);
    if j == 0 {
      TopLevel(q);
    } else {
      NoCarry(counter, j, k);
      MultipleLevel(q, j);
      assert Wrap32(q * Period(j)) == q * Period(j);
    }
  }

  lemma TopLevel(q: nat)
    ensures RekeyLevel(Wrap32(q * Period(0))) == 0
  {
    assert q * 0x100_0000 == (q / 0x100) * 0x1_0000_0000 + (q % 0x100) * 0x100_0000;
    DivModUnique(q * 0x100_0000, 0x1_0000_0000, q / 0x100, (q % 0x100) * 0x100_0000);
    DivModUnique((q % 0x100) * 0x100_0000, 0x100_0000, q % 0x100, 0);
  }

  lemma BoundaryMultiple(counter: uint32, j: nat, k: nat)
    requires j < PARTS && k > 0
    ensures counter + ToBoundary(counter, j, k) == (counter / Period(j) + k) * Period(j)
  {
    if j == 0 {
    } else if j == 1 {
    } else if j == 2 {
    }
  }

  lemma NoCarry(counter: uint32, j: nat, k: nat)
    requires 0 < j < PARTS && k > 0
    requires counter / Period(j) % 0x100 + k < 0x100
    ensures (counter / Period(j) + k) % 0x100 != 0
    ensures (counter / Period(j) + k) * Period(j) < TWO_TO_THE_32
  {
    if j == 1 {
    } else if j == 2 {
    }
  }

  lemma MultipleLevel(q: nat, j: nat)
    requires 0 < j < PARTS
    requires q % 0x100 != 0 && q * Period(j) < TWO_TO_THE_32
    ensures RekeyLevel(Wrap32(q * Period(j))) == j
  {
    var m := Period(j);
    var x := q * m;
    assert Period(j - 1) == 0x100 * m;
    hide Period;
    hide RekeyLevel;
    hide Wrap32;
    SmallWrap(x);
    DivModUnique(x, m, q, 0);
    BetweenMultiples(q, m);
    LevelByMultiples(x, j);
  }

  lemma LevelByMultiples(x: uint32, j: nat)
    requires 0 < j < PARTS && x % Period(j) == 0 && x % Period(j - 1) != 0
    ensures RekeyLevel(x) == j
  {
    hide Period;
    hide RekeyLevel;
    if RekeyLevel(x) < j {
      PeriodsNest(x, RekeyLevel(x), j - 1);
    }
  }

  lemma BetweenMultiples(q: nat, m: nat)
    requires m > 0 && q % 0x100 != 0
    ensures (q * m) % (0x100 * m) != 0
  {
    var a, b := q / 0x100, q % 0x100;
    assert q * m == a * (0x100 * m) + b * m by {
      assert q == a * 0x100 + b;
      assert a * (0x100 * m) == (a * 0x100) * m;
    }
    MulLess(b, 0x100, m);
    DivModUnique(q * m, 0x100 * m, a, b * m);
  }

  lemma MulLess(a: nat, b: nat, m: nat)
    requires 0 < a < b && m > 0
    ensures 0 < a * m < b * m
  {
  }

  lemma LastStep(h: Hash, s: State, j: nat, n: nat)
    requires j < PARTS && n > 0
    requires RekeyLevel(Wrap32(s.counter + n)) == j
    ensures Iterate(h, s, n).data == RehashFrom(h, Iterate(h, s, n - 1).data, j)
  {
    hide RekeyLevel;
    hide RehashFrom;
    hide Period;
    IterateCounter(h, s, n - 1);
    Wrap32Add(s.counter + (n - 1), 1);
  }

  /** From anywhere inside a period of part j to the rekeying that ends it. */
  lemma ReachNextBoundary(h: Hash, s: State, j: nat)
    requires j < PARTS
    requires RekeyLevel(Wrap32(s.counter + ToBoundary(s.counter, j, 1))) == j
    ensures Iterate(h, s, ToBoundary(s.counter, j, 1)).data == RehashFrom(h, s.data, j)
  {
    hide Step;
    hide RekeyLevel;
    var n := ToBoundary(s.counter, j, 1);
    QuietUntilBoundary(h, s, j, n - 1);
    LastStep(h, s, j, n);
  }

  /** Reaching the k-th multiple of Period(j): part j is hashed k-1 times alone, and on the
      last step everything below it is rekeyed as well. */
  lemma {:induction false} ReachBoundary(h: Hash, s: State, j: nat, k: nat)
    requires j < PARTS && k > 0
    requires j > 0 ==> s.counter / Period(j) % 0x100 + k < 0x100
    ensures Iterate(h, s, ToBoundary(s.counter, j, k)).data == RehashFrom(h, Bump(h, s.data, j, k - 1), j)
  {
    hide Step;
    hide Period;
    hide RehashFrom;
    hide Iterate;
    hide RekeyLevel;
    hide ToBoundary;
    if k == 1 {
      BoundaryCounter(s.counter, j, 1);
      ReachNextBoundary(h, s, j);
    } else {
      hide Bump;
      var m := ToBoundary(s.counter, j, k - 1);
      var mid := Iterate(h, s, m);
      ReachBoundary(h, s, j, k - 1);
      FromBoundary(h, s, j, k);
      ReachNextBoundary(h, mid, j);
      IterateAdd(h, s, m, Period(j));
      RehashAgain(h, s.data, j, k - 2);
    }
  }

  /** From the boundary before the k-th, the next one lies a full period ahead. */
  lemma FromBoundary(h: Hash, s: State, j: nat, k: nat)
    requires j < PARTS && k > 1
    requires j > 0 ==> s.counter / Period(j) % 0x100 + k < 0x100
    ensures var m := ToBoundary(s.counter, j, k - 1);
            var mid := Iterate(h, s, m);
            && ToBoundary(mid.counter, j, 1) == Period(j) && m + Period(j) == ToBoundary(s.counter, j, k)
            && RekeyLevel(Wrap32(mid.counter + Period(j))) == j
  {
    hide Iterate;
    hide RekeyLevel;
    hide Period;
    hide ToBoundary;
    hide Wrap32;
    var m := ToBoundary(s.counter, j, k - 1);
    BoundaryCounter(s.counter, j, k);
    BoundaryCounter(s.counter, j, k - 1);
    IterateCounter(h, s, m);
    OnePeriodMore(s.counter, j, k);
    OnBoundary(Iterate(h, s, m).counter, j);
    Wrap32Add(s.counter + m, Period(j));
  }

  lemma OnBoundary(counter: uint32, j: nat)
    requires j < PARTS && RekeyLevel(counter) == j
    ensures ToBoundary(counter, j, 1) == Period(j)
  {
  }

  lemma OnePeriodMore(counter: uint32, j: nat, k: nat)
    requires j < PARTS && k > 1
    ensures ToBoundary(counter, j, k - 1) + Period(j) == ToBoundary(counter, j, k)
  {
  }

  lemma RehashAgain(h: Hash, d: Parts, j: nat, k: nat)
    requires j < PARTS
    ensures RehashFrom(h, RehashFrom(h, Bump(h, d, j, k), j), j) == RehashFrom(h, Bump(h, d, j, k + 1), j)
  {
  }

  // ----- the fast-forward

  /** The counter with everything below a period of part j cleared. */
  function Aligned(counter: uint32, j: nat): (c: uint32)
    requires j < PARTS
    ensures c <= counter
  {
    counter - counter % Period(j)
  }

  /** How many times part j is hashed when going from one counter to another. */
  function Steps(counter: uint32, target: uint32, j: nat): (steps: nat)
    requires j < PARTS
  {
    var steps := (target / Period(j) - counter / Period(j)) % 0x100;
    if steps == 0 && target < counter then 0x100 else steps
  }

  /** Steps already taken, and steps still to go, on the way from `start` to `target`. */
  ghost predicate OnTheWay(start: uint32, counter: uint32, target: uint32, j: nat)
    requires j <= PARTS
  {
    if j == 0 then counter == start
    else
      && counter <= target
      && counter / Period(j - 1) == target / Period(j - 1)
      && Wrap32(target - start) == Wrap32(counter - start) + (target - counter)
  }

  lemma PhaseBoundary(counter: uint32, target: uint32, j: nat)
    requires j < PARTS
    requires j > 0 ==> counter <= target && counter / Period(j - 1) == target / Period(j - 1)
    requires Steps(counter, target, j) > 0
    ensures j > 0 ==> counter / Period(j) % 0x100 + Steps(counter, target, j) < 0x100
    ensures ToBoundary(counter, j, Steps(counter, target, j)) == Wrap32(Aligned(target, j) - counter)
    ensures j > 0 ==> counter < Aligned(target, j)
  {
    if j == 0 {
      TopPhaseBoundary(counter, target);
    } else if j == 1 {
      InnerPhaseBoundary(counter, target, j);
    } else if j == 2 {
      InnerPhaseBoundary(counter, target, j);
    } else {
      InnerPhaseBoundary(counter, target, j);
    }
  }

  lemma TopPhaseBoundary(counter: uint32, target: uint32)
    requires Steps(counter, target, 0) > 0
    ensures ToBoundary(counter, 0, Steps(counter, target, 0)) == Wrap32(Aligned(target, 0) - counter)
  {
    var b := 0x100_0000;
    var steps := Steps(counter, target, 0);
    var diff := target / b - counter / b;
    assert -0x100 < diff < 0x100;
    assert steps == if diff > 0 then diff else diff + 0x100;
    assert Aligned(target, 0) - counter == diff * b - counter % b;
  }

  lemma InnerPhaseBoundary(counter: uint32, target: uint32, j: nat)
    requires 0 < j < PARTS
    requires counter <= target && counter / Period(j - 1) == target / Period(j - 1)
    requires Steps(counter, target, j) > 0
    ensures counter / Period(j) % 0x100 + Steps(counter, target, j) < 0x100
    ensures ToBoundary(counter, j, Steps(counter, target, j)) == Aligned(target, j) - counter > 0
  {
    var b := Period(j);
    SplitPeriod(counter, j);
    SplitPeriod(target, j);
    var diff := target / b - counter / b;
    assert 0 <= diff < 0x100;
    assert Steps(counter, target, j) == diff;
    assert diff * b == (target / b) * b - (counter / b) * b;
  }

  lemma SplitPeriod(c: uint32, j: nat)
    requires 0 < j < PARTS
    ensures c / Period(j) == c / Period(j - 1) * 0x100 + c / Period(j) % 0x100
    ensures c == c / Period(j) * Period(j) + c % Period(j)
  {
    if j == 1 {
    } else if j == 2 {
    }
  }

  /** One round of the fast-forward is a whole number of single steps. */
  lemma Phase(h: Hash, s: State, target: uint32, j: nat)
    requires j < PARTS
    requires j > 0 ==> s.counter <= target && s.counter / Period(j - 1) == target / Period(j - 1)
    requires Steps(s.counter, target, j) > 0
    ensures Iterate(h, s, Wrap32(Aligned(target, j) - s.counter))
         == State(RehashFrom(h, Bump(h, s.data, j, Steps(s.counter, target, j) - 1), j), Aligned(target, j))
  {
    hide Step;
    hide Aligned;
    hide ToBoundary;
    hide Steps;
    hide RehashFrom;
    hide Bump;
    hide Iterate;
    hide Period;
    hide Wrap32;
    var steps := Steps(s.counter, target, j);
    PhaseBoundary(s.counter, target, j);
    ReachBoundary(h, s, j, steps);
    IterateCounter(h, s, Wrap32(Aligned(target, j) - s.counter));
    Forward(s.counter, Aligned(target, j));
  }

  lemma Forward(from: uint32, to: uint32)
    ensures Wrap32(from + Wrap32(to - from)) == to
  {
  }

  /** A round moves to the aligned target, and stays on the way. */
  lemma PhaseProgress(start: uint32, counter: uint32, target: uint32, j: nat)
    requires j < PARTS
    requires OnTheWay(start, counter, target, j)
    ensures Steps(counter, target, j) == 0 ==> OnTheWay(start, counter, target, j + 1)
    ensures Steps(counter, target, j) > 0 ==> OnTheWay(start, Aligned(target, j), target, j + 1)
    ensures Steps(counter, target, j) > 0
        ==> Wrap32(counter - start) + Wrap32(Aligned(target, j) - counter) == Wrap32(Aligned(target, j) - start)
  {
    hide Steps;
    hide Aligned;
    hide Period;
    if j == 0 {
      TopPhaseProgress(start, target);
    } else {
      InnerPhaseProgress(start, counter, target, j);
    }
  }

  lemma TopPhaseProgress(start: uint32, target: uint32)
    ensures Steps(start, target, 0) == 0 ==> OnTheWay(start, start, target, 1)
    ensures Steps(start, target, 0) > 0 ==> OnTheWay(start, Aligned(target, 0), target, 1)
  {
    AlignedQuotient(target, 0);
    NoSteps(start, target);
    hide Steps;
    if Steps(start, target, 0) > 0 {
      hide Aligned;
      hide Period;
      Around(start, Aligned(target, 0), target);
    }
  }

  lemma NoSteps(start: uint32, target: uint32)
    ensures Steps(start, target, 0) == 0 <==> start / Period(0) == target / Period(0) && start <= target
    ensures Steps(start, target, 0) > 0 ==> target < start || start <= Aligned(target, 0)
  {
    var a, b := start / 0x100_0000, target / 0x100_0000;
    assert a < 0x100 && b < 0x100;
    assert (b - a) % 0x100 == 0 <==> a == b;
  }

  lemma Around(start: uint32, mid: uint32, target: uint32)
    requires mid <= target && (target < start || start <= mid)
    ensures Wrap32(target - start) == Wrap32(mid - start) + (target - mid)
  {
  }

  lemma AlignedQuotient(c: uint32, j: nat)
    requires j < PARTS
    ensures Aligned(c, j) / Period(j) == c / Period(j)
  {
    if j == 0 {
    } else if j == 1 {
    } else if j == 2 {
    }
  }

  lemma InnerPhaseProgress(start: uint32, counter: uint32, target: uint32, j: nat)
    requires 0 < j < PARTS
    requires OnTheWay(start, counter, target, j)
    ensures Steps(counter, target, j) == 0 ==> OnTheWay(start, counter, target, j + 1)
    ensures Steps(counter, target, j) > 0 ==> OnTheWay(start, Aligned(target, j), target, j + 1)
    ensures Steps(counter, target, j) > 0
        ==> Wrap32(counter - start) + Wrap32(Aligned(target, j) - counter) == Wrap32(Aligned(target, j) - start)
  {
    AlignedQuotient(target, j);
    if Steps(counter, target, j) == 0 {
      SameQuotient(counter, target, j);
    } else {
      InnerPhaseBoundary(counter, target, j);
      DistanceSplits(start, counter, Aligned(target, j), target);
      SmallWrap(Aligned(target, j) - counter);
      hide Steps;
      hide Period;
      hide Aligned;
      hide Wrap32;
    }
  }

  lemma SmallWrap(x: int)
    requires 0 <= x < TWO_TO_THE_32
    ensures Wrap32(x) == x
  {
  }

  lemma SameQuotient(counter: uint32, target: uint32, j: nat)
    requires 0 < j < PARTS && counter <= target && counter / Period(j - 1) == target / Period(j - 1)
    requires Steps(counter, target, j) == 0
    ensures counter / Period(j) == target / Period(j)
  {
    SplitPeriod(counter, j);
    SplitPeriod(target, j);
    var a, b := counter / Period(j), target / Period(j);
    hide Period;
    assert (b - a) % 0x100 == 0;
  }

  lemma DistanceSplits(start: uint32, counter: uint32, mid: uint32, target: uint32)
    requires counter <= mid <= target
    requires Wrap32(target - start) == Wrap32(counter - start) + (target - counter)
    ensures Wrap32(mid - start) == Wrap32(counter - start) + (mid - counter)
  {
  }

  /** One round of the fast-forward keeps the ratchet an iteration of its start. */
  lemma RoundIsIteration(h: Hash, start: State, s: State, target: uint32, j: nat)
    requires j < PARTS
    requires OnTheWay(start.counter, s.counter, target, j)
    requires s == Iterate(h, start, Wrap32(s.counter - start.counter))
    ensures var steps := Steps(s.counter, target, j);
            var next := if steps == 0 then s
                        else State(RehashFrom(h, Bump(h, s.data, j, steps - 1), j), Aligned(target, j));
            && next == Iterate(h, start, Wrap32(next.counter - start.counter))
            && OnTheWay(start.counter, next.counter, target, j + 1)
  {
    hide Step;
    hide RehashFrom;
    hide Bump;
    hide Steps;
    hide Aligned;
    PhaseProgress(start.counter, s.counter, target, j);
    if Steps(s.counter, target, j) > 0 {
      Phase(h, s, target, j);
      IterateAdd(h, start, Wrap32(s.counter - start.counter), Wrap32(Aligned(target, j) - s.counter));
    }
  }

  lemma Arrived(start: uint32, counter: uint32, target: uint32)
    requires OnTheWay(start, counter, target, PARTS)
    ensures counter == target
  {
  }

  // ----- the cost of the fast-forward

  /** Byte j of a counter, most significant first. */
  function ByteOf(c: uint32, j: nat): (b: nat)
    requires j < PARTS
    ensures b < 0x100
  {
    c / Period(j) % 0x100
  }

  /** A bound on the hashes computed by the first j rounds. */
  ghost function CallBound(start: uint32, target: uint32, j: nat): nat
    requires j <= PARTS
  {
    if j == 0 then 0
    else if j == 1 then (if Steps(start, target, 0) == 0x100 then 259 else 258)
    else CallBound(start, target, j - 1) + ByteOf(target, j - 1) + (PARTS - j)
  }

  lemma SetOut(h: Hash, start: State, target: uint32)
    ensures OnTheWay(start.counter, start.counter, target, 0)
    ensures start == Iterate(h, start, Wrap32(start.counter - start.counter))
    ensures CallBound(start.counter, target, 0) == 0
  {
  }

  lemma RoundCalls(start: uint32, counter: uint32, target: uint32, j: nat)
    requires j < PARTS
    requires OnTheWay(start, counter, target, j)
    ensures Steps(counter, target, j) <= 0x100
    ensures Steps(counter, target, j) > 0 ==>
      CallBound(start, target, j) + (Steps(counter, target, j) - 1) + (PARTS - j) <= CallBound(start, target, j + 1)
    ensures CallBound(start, target, j) <= CallBound(start, target, j + 1)
  {
    if j > 0 && Steps(counter, target, j) > 0 {
      SplitPeriod(counter, j);
      SplitPeriod(target, j);
      InnerPhaseBoundary(counter, target, j);
      AlignedQuotient(target, j);
      var diff := target / Period(j) - counter / Period(j);
      assert 0 <= diff < 0x100 && Steps(counter, target, j) == diff;
    }
  }

  /** However far the target, at most 1026 hashes are computed. */
  lemma CallsAreFew(start: uint32, target: uint32)
    ensures CallBound(start, target, PARTS) <= 1026
  {
    assert CallBound(start, target, 2) == CallBound(start, target, 1) + ByteOf(target, 1) + 2;
    assert CallBound(start, target, 3) == CallBound(start, target, 2) + ByteOf(target, 2) + 1;
    assert CallBound(start, target, 4) == CallBound(start, target, 3) + ByteOf(target, 3);
    if Steps(start, target, 0) == 0x100 {
      var a, b := start / 0x100_0000, target / 0x100_0000;
      assert target < start && a == b;
      assert target % 0x100_0000 == 0x1_0000 * ByteOf(target, 1) + 0x100 * ByteOf(target, 2) + ByteOf(target, 3) by {
        SplitPeriod(target, 1);
        SplitPeriod(target, 2);
        SplitPeriod(target, 3);
      }
      assert target % 0x100_0000 < start % 0x100_0000;
    }
  }

  /** The ratchet as the library keeps it: four parts and a counter overwritten in place. */
  class Ratchet {
    var data: array<Part>
    var counter: uint32
    ghost var calls: nat  // rehash_part calls since creation

    ghost predicate Valid()
      reads this
    {
      data.Length == PARTS
    }

    ghost function Value(): State
      requires Valid()
      reads this, data
    {
      State(data[..], counter)
    }

    constructor ()
      ensures Valid() && fresh(data)
    {
      data := new Part[PARTS](_ => ZERO_PART);
      counter := 0;
      calls := 0;
    }

    method Init(parts: Parts, counter: uint32)
      requires Valid()
      modifies this`counter, data
      ensures Valid() && Value() == State(parts, counter)
    {
      this.counter := counter;
      for i := 0 to PARTS
        invariant Valid() && this.counter == counter
        invariant forall k :: 0 <= k < i ==> data[k] == parts[k]
      {
        data[i] := parts[i];
      }
      assert data[..] == parts;
    }

    /** Struct assignment. */
    method CopyFrom(other: Ratchet)
      requires Valid() && other.Valid() && data != other.data
      modifies this`counter, data
      ensures Valid() && Value() == other.Value()
    {
      Init(other.data[..], other.counter);
    }

    method RehashPart(h: Hash, from: nat, to: nat)
      requires Valid() && from < PARTS && to < PARTS
      modifies this`calls, data
      ensures Valid() && data[..] == old(data[..])[to := h(old(data[from]), to)]
      ensures calls == old(calls) + 1
    {
      data[to] := h(data[from], to);
      calls := calls + 1;
    }

    /** The last loop of both operations: part `level` rekeys everything from itself down. */
    method RehashDown(h: Hash, level: nat)
      requires Valid() && level < PARTS
      modifies this`calls, data
      ensures Valid() && data[..] == RehashFrom(h, old(data[..]), level)
      ensures calls == old(calls) + (PARTS - level)
    {
      var i := PARTS - 1;
      while i >= level
        invariant level - 1 <= i < PARTS && Valid()
        invariant calls == old(calls) + (PARTS - 1 - i)
        invariant forall k :: 0 <= k <= i ==> data[k] == old(data[k])
        invariant forall k :: i < k < PARTS ==> data[k] == h(old(data[level]), k)
      {
        RehashPart(h, level, i);
        i := i - 1;
      }
    }

    method Advance(h: Hash)
      requires Valid()
      modifies this`counter, this`calls, data
      ensures Valid() && Value() == Step(h, old(Value()))
    {
      var mask: uint32 := 0x00FF_FFFF;
      var level := 0;
      counter := Wrap32(counter + 1);
      while level < PARTS
        invariant level < PARTS && mask + 1 == Period(level)
        invariant forall i :: 0 <= i < level ==> counter % Period(i) != 0
      {
        if counter % (mask + 1) == 0 {  // counter & mask, the mask being a run of low one bits
          break;
        }
        level := level + 1;
        mask := mask / 0x100;
      }
      RehashDown(h, level);
    }

    /** One round of the fast-forward: all but the last hash touch part j alone. */
    method Round(h: Hash, j: nat, count: nat)
      requires Valid() && j < PARTS && count > 0
      modifies this`calls, data
      ensures Valid() && data[..] == RehashFrom(h, Bump(h, old(data[..]), j, count - 1), j)
      ensures calls == old(calls) + (count - 1) + (PARTS - j)
    {
      var steps := count;
      while steps > 1
        invariant 1 <= steps <= count && Valid()
        invariant data[..] == Bump(h, old(data[..]), j, count - steps)
        invariant calls == old(calls) + (count - steps)
      {
        RehashPart(h, j, j);
        steps := steps - 1;
      }
      RehashDown(h, j);
    }

    /** One round of the loop below: part j brought to where the target wants it. */
    method AdvancePart(h: Hash, target: uint32, j: nat)
      requires Valid() && j < PARTS
      modifies this`counter, this`calls, data
      ensures Valid()
      ensures var steps := Steps(old(counter), target, j);
              && Value() == (if steps == 0 then old(Value())
                             else State(RehashFrom(h, Bump(h, old(data[..]), j, steps - 1), j), Aligned(target, j)))
              && calls == old(calls) + (if steps == 0 then 0 else (steps - 1) + (PARTS - j))
    {
      hide RehashFrom;
      hide Bump;
      var period := Period(j);  // 1 << shift
      var steps := (target / period - counter / period) % 0x100;
      if steps == 0 {
        if target < counter {
          steps := 0x100;
        } else {
          return;
        }
      }
      Round(h, j, steps);
      counter := target - target % period;
    }

    /** The fast-forward is the iteration of the single step, over the distance modulo 2^32. */
    method AdvanceTo(h: Hash, target: uint32)
      requires Valid()
      modifies this`counter, this`calls, data
      ensures Valid() && Value() == Iterate(h, old(Value()), Wrap32(target - old(counter)))
      ensures counter == target
      ensures calls - old(calls) <= 1026
    {
      hide Step;
      hide CallBound;
      hide RehashFrom;
      hide Bump;
      hide OnTheWay;
      hide Iterate;
      hide Steps;
      hide Aligned;
      hide Wrap32;
      ghost var start := Value();
      SetOut(h, start, target);
      for j := 0 to PARTS
        invariant Valid() && OnTheWay(start.counter, counter, target, j)
        invariant Value() == Iterate(h, start, Wrap32(counter - start.counter))
        invariant calls - old(calls) <= CallBound(start.counter, target, j)
      {
        RoundIsIteration(h, start, Value(), target, j);
        RoundCalls(start.counter, counter, target, j);
        AdvancePart(h, target, j);
      }
      Arrived(start.counter, counter, target);
      CallsAreFew(start.counter, target);
    }
  }
}
