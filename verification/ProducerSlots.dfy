/**
 Which producer a slot belongs to, and where the next round starts:
 unittests/producer_schedule_tests.cpp, and the same rule in
 get_scheduled_producer of libraries/chain/block_header_state.cpp.
 */
module ProducerSlots {
  import opened Bits

  /** The schedule position of a slot: n producers of `reps` consecutive slots each. */
  function Position(n: nat, reps: nat, slot: nat): (p: nat)
    requires n > 0 && reps > 0
    ensures p < n
  {
    PositionInRange(n, reps, slot);
    (slot % (n * reps)) / reps
  }

  lemma PositionInRange(n: nat, reps: nat, slot: nat)
    requires n > 0 && reps > 0
    ensures n * reps > 0 && 0 <= (slot % (n * reps)) / reps < n
  {
    MulMono(1, n, reps);
    var s := slot % (n * reps);
    var q: nat := s / reps;
    if q >= n { MulMono(n, q, reps); }
  }

  /** get_expected_producer */
  function ExpectedProducer<T>(schedule: seq<T>, reps: nat, slot: nat): T
    requires schedule != [] && reps > 0
  {
    schedule[Position(|schedule|, reps, slot)]
  }

  /** How many of the `len` slots from `start` belong to position p. */
  function Count(n: nat, reps: nat, start: nat, len: nat, p: nat): nat
    requires n > 0 && reps > 0
  {
    if len == 0 then 0
    else Count(n, reps, start, len - 1, p) + Flag(Position(n, reps, start + len - 1) == p)
  }

  lemma PositionOf(n: nat, reps: nat, slot: nat, round: nat, p: nat, k: nat)
    requires n > 0 && reps > 0 && p < n && k < reps && slot == round * (n * reps) + (p * reps + k)
    ensures Position(n, reps, slot) == p
  {
    MulMono(p + 1, n, reps);
    assert (p + 1) * reps == p * reps + reps;
    MulMono(0, p, reps);
    DivModUnique(slot, n * reps, round, p * reps + k);
    DivModUnique(p * reps + k, reps, p, k);
  }

  /** Slot k of the p-th producer's turn in any round belongs to the p-th producer of the schedule. */
  lemma SlotOwner<T>(schedule: seq<T>, reps: nat, round: nat, p: nat, k: nat)
    requires p < |schedule| && k < reps
    ensures round * (|schedule| * reps) + (p * reps + k) >= 0
    ensures ExpectedProducer(schedule, reps, round * (|schedule| * reps) + (p * reps + k)) == schedule[p]
  {
    hide Position;
    MulMono(0, p, reps);
    MulMono(0, |schedule|, reps);
    MulMono(0, round, |schedule| * reps);
    PositionOf(|schedule|, reps, round * (|schedule| * reps) + (p * reps + k), round, p, k);
  }

  lemma PositionPeriodic(n: nat, reps: nat, slot: nat)
    requires n > 0 && reps > 0
    ensures n * reps > 0 && Position(n, reps, slot + n * reps) == Position(n, reps, slot)
  {
    PositionInRange(n, reps, slot);
    var d := n * reps;
    var q, r := slot / d, slot % d;
    assert (q + 1) * d == q * d + d;
    DivModUnique(slot + d, d, q + 1, r);
  }

  /** The first k producers' slots of round zero: reps for each of them, none for the others. */
  lemma {:induction false} CountFirst(n: nat, reps: nat, k: nat, p: nat)
    requires n > 0 && reps > 0 && k <= n
    ensures k * reps >= 0 && Count(n, reps, 0, k * reps, p) == if p < k then reps else 0
  {
    hide Position, Count;
    MulMono(0, k, reps);
    if k > 0 {
      CountFirst(n, reps, k - 1, p);
      CountBlock(n, reps, k - 1, reps, p);
      assert (k - 1) * reps + reps == k * reps;
    } else {
      NoSlots(n, reps, p);
    }
  }

  lemma NoSlots(n: nat, reps: nat, p: nat)
    requires n > 0 && reps > 0
    ensures Count(n, reps, 0, 0, p) == 0
  {}

  lemma {:induction false} CountBlock(n: nat, reps: nat, k: nat, m: nat, p: nat)
    requires n > 0 && reps > 0 && k < n && m <= reps
    ensures k * reps >= 0
    ensures Count(n, reps, 0, k * reps + m, p) == Count(n, reps, 0, k * reps, p) + if p == k then m else 0
  {
    MulMono(0, k, reps);
    if m > 0 {
      CountBlock(n, reps, k, m - 1, p);
      PositionOf(n, reps, k * reps + (m - 1), 0, k, m - 1);
    }
  }

  lemma {:induction false} CountFromSecond(n: nat, reps: nat, start: nat, len: nat, p: nat)
    requires n > 0 && reps > 0
    ensures Count(n, reps, start, len + 1, p) == Flag(Position(n, reps, start) == p) + Count(n, reps, start + 1, len, p)
  {
    if len > 0 { CountFromSecond(n, reps, start, len - 1, p); }
  }

  /** Every window of one round's length gives every producer exactly its repetitions. */
  lemma {:induction false} FairWindow(n: nat, reps: nat, start: nat, p: nat)
    requires n > 0 && reps > 0 && p < n
    ensures n * reps > 0 && Count(n, reps, start, n * reps, p) == reps
  {
    PositionPeriodic(n, reps, start);
    if start == 0 {
      CountFirst(n, reps, n, p);
    } else {
      var d := n * reps;
      FairWindow(n, reps, start - 1, p);
      PositionPeriodic(n, reps, start - 1);
      CountFromSecond(n, reps, start - 1, d, p);
    }
  }

  /** The first multiple of perRound after head. */
  function NextMultiple(head: nat, perRound: nat): nat
    requires perRound > 0
  {
    MulNonNegative(head / perRound + 1, perRound);
    (head / perRound + 1) * perRound
  }

  lemma MulNonNegative(a: nat, b: nat)
    ensures a * b >= 0
  {}

  lemma NextMultipleIsLeast(head: nat, perRound: nat)
    requires perRound > 0
    ensures var m := NextMultiple(head, perRound);
            head < m && m % perRound == 0 && forall k | head < k < m :: k % perRound != 0
  {
    var q := head / perRound;
    var m := NextMultiple(head, perRound);
    assert m == q * perRound + perRound;
    DivModUnique(m, perRound, q + 1, 0);
    forall k | head < k < m ensures k % perRound != 0 {
      DivModUnique(k, perRound, q, k - q * perRound);
    }
  }

  /**
   calc_block_num_of_next_round_first_block: counts up a 32-bit number. It finds
   the start of the next round, or 0 when that does not fit 32 bits any more.
   */
  method NextRoundFirstBlock(head: nat, perRound: nat) returns (res: nat)
    requires head < Pow2(32) && perRound > 0
    ensures res == if NextMultiple(head, perRound) < Pow2(32) then NextMultiple(head, perRound) else 0
    ensures res % perRound == 0
  {
    hide Pow2, NextMultiple;
    ghost var m := NextMultiple(head, perRound);
    NextMultipleIsLeast(head, perRound);
    ZeroIsMultiple(perRound);
    res := Increment(head);
    while res % perRound != 0
      invariant res == 0 || head < res <= m
      invariant res < Pow2(32) && (res == 0 ==> m >= Pow2(32))
      decreases if res == 0 then 0 else Pow2(32) - res
    {
      res := Increment(res);
    }
  }

  lemma ZeroIsMultiple(d: nat)
    requires d > 0
    ensures 0 % d == 0
  {
    DivModUnique(0, d, 0, 0);
  }

  /** A 32-bit increment. */
  function Increment(x: nat): nat
  {
    if x + 1 == Pow2(32) then 0 else x + 1
  }

  /** Taken as a slot, the first block of a round belongs to the first producer. */
  lemma RoundStartsAtFirst(n: nat, reps: nat, slot: nat)
    requires n > 0 && reps > 0 && n * reps > 0 && slot % (n * reps) == 0
    ensures Position(n, reps, slot) == 0
  {
    var q := slot / (n * reps);
    assert slot == q * (n * reps);
    PositionOf(n, reps, slot, q, 0, 0);
  }
}
