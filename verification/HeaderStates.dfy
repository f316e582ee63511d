/**
 The block header state machine of libraries/chain/block_header_state.cpp: who
 produces a block, which earlier blocks it confirms, and which block number
 becomes irreversible.
 */
module HeaderStates {
  import opened Common
  import opened OrderStatistic
  import opened ProducerSlots
  import opened ProducerTables

  type BlockId = nat
  type uint16 = x: nat | x < 0x1_0000

  const REPETITIONS: nat := 12
  const MAX_TRACKED: nat := 1024

  datatype Error =
    | NotInFuture | DoubleConfirm | TimestampMismatch | PreviousMismatch | WrongProducer | VersionMismatch
    | PromotedInSameBlock | WrongNewVersion | PendingUnconfirmed

  datatype Schedule = Schedule(version: nat, producers: seq<AccountName>)

  /** A proposed schedule and the block that must become irreversible before it takes over. */
  datatype Pending = Pending(version: nat, producers: seq<AccountName>, libNum: nat)

  datatype HeaderState = HeaderState(
    id: BlockId,
    blockNum: nat,
    slot: nat,
    proposed: nat,
    irreversible: nat,
    version: nat,
    schedule: seq<AccountName>,
    pending: Pending,
    lastProduced: map<AccountName, nat>,
    lastImplied: seq<Entry>,
    confirmCount: seq<nat>)

  datatype Header = Header(
    id: BlockId,
    previous: BlockId,
    slot: nat,
    producer: AccountName,
    confirmed: uint16,
    version: nat,
    newProducers: Option<Schedule>)

  /** A 32-bit difference. */
  function Sub32(a: nat, b: nat): nat
  {
    if b <= a then a - b else (a - b) % 0x1_0000_0000
  }

  // ------------------------------------------------------------ confirmations

  /** How many producers of a schedule of n must confirm a block. */
  function RequiredConfs(n: nat): nat { n * 2 / 3 + 1 }

  /** It is the least number above two thirds of them. */
  lemma RequiredIsLeast(n: nat, c: nat)
    ensures 3 * (RequiredConfs(n) - 1) <= 2 * n < 3 * RequiredConfs(n)
    ensures c >= RequiredConfs(n) <==> 3 * c > 2 * n
  {}

  /** One more block to confirm; the oldest is forgotten when the window is full. */
  function Tracked(counts: seq<nat>, required: nat): (r: seq<nat>)
    ensures r != []
  {
    (if |counts| < MAX_TRACKED then counts else counts[1..]) + [required % 256]
  }

  /** An eight-bit decrement. */
  function Less(x: nat): nat { (x + 255) % 256 }

  /** The last k counts lowered by one. */
  function Lowered(counts: seq<nat>, k: nat): (r: seq<nat>)
    ensures |r| == |counts|
  {
    seq(|counts|, i requires 0 <= i < |counts| => if i + k >= |counts| then Less(counts[i]) else counts[i])
  }

  /** The newest of the last k counts that lowering brings to zero, or -1. */
  function LastHit(counts: seq<nat>, k: nat): (i: int)
    requires k <= |counts|
    ensures -1 <= i < |counts|
    ensures i >= 0 ==> i + k >= |counts| && Less(counts[i]) == 0
    ensures forall j | i < j < |counts| && j + k >= |counts| :: Less(counts[j]) != 0
  {
    if k == 0 then -1
    else if Less(counts[|counts| - 1]) == 0 then |counts| - 1
    else LastHit(counts[..|counts| - 1], k - 1)
  }

  datatype Progress = Progress(counts: seq<nat>, proposed: nat)

  /**
   Lowers the counts of the newest toConfirm blocks. If some reach zero, the newest
   of those is proposed irreversible and everything up to it is dropped.
   */
  function Confirmed(counts: seq<nat>, proposed: nat, blockNum: nat, toConfirm: nat): Progress
  {
    var k := if toConfirm <= |counts| then toConfirm else |counts|;
    var hit := LastHit(counts, k);
    if hit < 0 then Progress(Lowered(counts, k), proposed)
    else Progress(Lowered(counts, k)[hit + 1..], Sub32(blockNum, |counts| - 1 - hit))
  }

  /** The loop of next, from the newest block down. */
  method ConfirmBlocks(counts: seq<nat>, proposed: nat, blockNum: nat, toConfirm: nat) returns (r: Progress)
    ensures r == Confirmed(counts, proposed, blockNum, toConfirm)
  {
    hide Less, LastHit, Sub32, Lowered, Confirmed;
    var current := counts;
    var i, blocksToConfirm := |counts| - 1, toConfirm;
    ghost var done := 0;
    LowerNone(counts);
    while i >= 0 && blocksToConfirm > 0
      invariant i == |counts| - 1 - done && 0 <= done <= |counts| && 0 <= blocksToConfirm == toConfirm - done
      invariant current == Lowered(counts, done)
      invariant forall j | i < j < |counts| :: Less(counts[j]) != 0
    {
      LowerOne(counts, done);
      current := current[i := Less(current[i])];
      done := done + 1;
      if current[i] == 0 {
        ConfirmedAt(counts, proposed, blockNum, toConfirm, done);
        return Progress(current[i + 1..], Sub32(blockNum, |counts| - 1 - i));
      }
      i := i - 1;
      blocksToConfirm := blocksToConfirm - 1;
    }
    ConfirmedNone(counts, proposed, blockNum, toConfirm, done);
    r := Progress(current, proposed);
  }

  lemma LowerNone(counts: seq<nat>)
    ensures Lowered(counts, 0) == counts
  {}

  /** The loop stops at the done-th newest count: that is the hit. */
  lemma ConfirmedAt(counts: seq<nat>, proposed: nat, blockNum: nat, toConfirm: nat, done: nat)
    requires 0 < done <= |counts| && done <= toConfirm && Less(counts[|counts| - done]) == 0
    requires forall j | |counts| - done < j < |counts| :: Less(counts[j]) != 0
    ensures Confirmed(counts, proposed, blockNum, toConfirm)
            == Progress(Lowered(counts, done)[|counts| - done + 1..], Sub32(blockNum, done - 1))
  {
    hide Less, LastHit, Sub32, Lowered;
    var k := if toConfirm <= |counts| then toConfirm else |counts|;
    HitFound(counts, k, |counts| - done);
    SameTail(counts, done, k);
  }

  lemma ConfirmedNone(counts: seq<nat>, proposed: nat, blockNum: nat, toConfirm: nat, done: nat)
    requires done == if toConfirm <= |counts| then toConfirm else |counts|
    requires forall j | |counts| - 1 - done < j < |counts| :: Less(counts[j]) != 0
    ensures Confirmed(counts, proposed, blockNum, toConfirm) == Progress(Lowered(counts, done), proposed)
  {
    hide Less, LastHit, Sub32, Lowered;
  }

  lemma LowerOne(counts: seq<nat>, done: nat)
    requires done < |counts|
    ensures var i := |counts| - 1 - done;
            && Lowered(counts, done + 1) == Lowered(counts, done)[i := Less(Lowered(counts, done)[i])]
            && Lowered(counts, done + 1)[i] == Less(counts[i])
  {
    hide Less;
  }

  /** Past what both lower, lowering more counts changes nothing. */
  lemma SameTail(counts: seq<nat>, a: nat, b: nat)
    requires 0 < a <= b <= |counts|
    ensures Lowered(counts, a)[|counts| - a + 1..] == Lowered(counts, b)[|counts| - a + 1..]
  {
    hide Less;
  }

  lemma HitFound(counts: seq<nat>, k: nat, i: nat)
    requires k <= |counts| && i < |counts| && i + k >= |counts| && Less(counts[i]) == 0
    requires forall j | i < j < |counts| :: Less(counts[j]) != 0
    ensures LastHit(counts, k) == i
  {
    hide LastHit, Less;
  }

  // ---------------------------------------------------------- irreversibility

  /** What each producer implies irreversible, the next block's producer with the number proposed now. */
  function ImpliedBlocks(entries: seq<Entry>, producer: AccountName, proposed: nat): (s: seq<nat>)
    ensures |s| == |entries|
  {
    seq(|entries|, i requires 0 <= i < |entries| =>
      if entries[i].producer == producer then proposed else entries[i].blockNum)
  }

  function LastIrreversible(entries: seq<Entry>, producer: AccountName, proposed: nat): nat
  {
    if entries == [] then 0 else Nth(ImpliedBlocks(entries, producer, proposed), (|entries| - 1) / 3)
  }

  /** calc_dpos_last_irreversible */
  method CalcLastIrreversible(entries: seq<Entry>, producer: AccountName, proposed: nat) returns (r: nat)
    ensures r == LastIrreversible(entries, producer, proposed)
    ensures entries != [] ==>
              forall w :: r >= w <==> 3 * CountAtLeast(ImpliedBlocks(entries, producer, proposed), w) > 2 * |entries|
  {
    var blockNums: seq<nat> := [];
    for i := 0 to |entries|
      invariant blockNums == ImpliedBlocks(entries, producer, proposed)[..i]
    {
      blockNums := blockNums + [if entries[i].producer == producer then proposed else entries[i].blockNum];
    }
    assert blockNums == ImpliedBlocks(entries, producer, proposed);
    if |blockNums| == 0 { return 0; }
    var index := (|blockNums| - 1) / 3;
    r := Nth(blockNums, index);
    forall w: nat ensures r >= w <==> 3 * CountAtLeast(blockNums, w) > 2 * |entries| {
      NthAtLeast(blockNums, index, w);
    }
  }

  // -------------------------------------------------------------------- tables

  /**
   Last produced blocks for a schedule that takes over: known producers keep theirs, new ones start at the
   irreversible block.
   */
  function PromotedProduced(known: map<AccountName, nat>, schedule: seq<AccountName>, irreversible: nat,
                            producer: AccountName, blockNum: nat): map<AccountName, nat>
  {
    (map p | p in schedule :: if p in known then known[p] else irreversible)[producer := blockNum]
  }

  method PromoteProduced(known: map<AccountName, nat>, schedule: seq<AccountName>, irreversible: nat,
                         producer: AccountName, blockNum: nat) returns (r: map<AccountName, nat>)
    ensures r == PromotedProduced(known, schedule, irreversible, producer, blockNum)
    ensures r.Keys == Members(schedule) + {producer} && r[producer] == blockNum
    ensures forall p | p in schedule && p != producer :: r[p] == if p in known then known[p] else irreversible
  {
    r := map[];
    for i := 0 to |schedule|
      invariant r.Keys == set p | p in schedule[..i]
      invariant forall p | p in r && p != producer :: r[p] == if p in known then known[p] else irreversible
    {
      var p := schedule[i];
      assert schedule[..i + 1] == schedule[..i] + [p];
      if p == producer { r := r[p := blockNum]; }
      else if p in known { r := r[p := known[p]]; }
      else { r := r[p := irreversible]; }
    }
    assert schedule[..|schedule|] == schedule;
    r := r[producer := blockNum];
  }

  function PromotedImplied(known: seq<Entry>, schedule: seq<AccountName>, irreversible: nat, producer: AccountName,
                           proposed: nat): seq<Entry>
  {
    if schedule == [] then []
    else
      var front, p := schedule[..|schedule| - 1], schedule[|schedule| - 1];
      Put(PromotedImplied(known, front, irreversible, producer, proposed), p,
          Starting(known, irreversible, producer, proposed, p))
  }

  /** What a producer of the new schedule starts with. */
  function Starting(known: seq<Entry>, irreversible: nat, producer: AccountName, proposed: nat, p: AccountName): nat
  {
    if p == producer then proposed else Lookup(known, p, irreversible)
  }

  /** As a map: the producers of the schedule, each with what it starts with. */
  lemma {:induction false} PromotedIs(known: seq<Entry>, schedule: seq<AccountName>, irreversible: nat,
                                      producer: AccountName, proposed: nat)
    ensures var t := PromotedImplied(known, schedule, irreversible, producer, proposed);
            && DistinctKeys(t) && Keys(t) == Members(schedule)
            && forall p | p in schedule :: Lookup(t, p, 0) == Starting(known, irreversible, producer, proposed, p)
  {
    hide Put, Lookup, Starting, DistinctKeys;
    if schedule == [] {
      NoEntries();
    } else {
      var front, p := schedule[..|schedule| - 1], schedule[|schedule| - 1];
      PromotedIs(known, front, irreversible, producer, proposed);
      var t := PromotedImplied(known, front, irreversible, producer, proposed);
      var n := Starting(known, irreversible, producer, proposed, p);
      PutKeys(t, p, n);
      assert schedule == front + [p];
      assert Members(schedule) == Members(front) + {p};
      forall q | q in schedule
        ensures Lookup(Put(t, p, n), q, 0) == Starting(known, irreversible, producer, proposed, q)
      {
        PutLookup(t, p, n, q, 0);
      }
    }
  }

  lemma NoEntries()
    ensures DistinctKeys([])
  {}

  function Members(schedule: seq<AccountName>): set<AccountName> { set p | p in schedule }

  method PromoteImplied(known: seq<Entry>, schedule: seq<AccountName>, irreversible: nat,
                        producer: AccountName, proposed: nat) returns (r: seq<Entry>)
    ensures r == PromotedImplied(known, schedule, irreversible, producer, proposed)
    ensures DistinctKeys(r) && Keys(r) == Members(schedule)
    ensures forall p | p in schedule ::
              Lookup(r, p, 0) == if p == producer then proposed else Lookup(known, p, irreversible)
  {
    r := [];
    for i := 0 to |schedule|
      invariant r == PromotedImplied(known, schedule[..i], irreversible, producer, proposed)
    {
      assert schedule[..i + 1][..i] == schedule[..i];
      if schedule[i] == producer { r := Put(r, schedule[i], proposed); }
      else { r := Put(r, schedule[i], Lookup(known, schedule[i], irreversible)); }
    }
    assert schedule[..|schedule|] == schedule;
    PromotedIs(known, schedule, irreversible, producer, proposed);
  }

  // ------------------------------------------------------------------ the step

  function ScheduledProducer(schedule: seq<AccountName>, slot: nat): AccountName
    requires schedule != []
  {
    ExpectedProducer(schedule, REPETITIONS, slot)
  }

  /** The guard against confirming a block twice. */
  predicate MayConfirm(last: nat, blockNum: nat, confirmed: nat) { last < Sub32(blockNum + 1, confirmed) }

  predicate Promotes(s: HeaderState, irreversible: nat)
  {
    s.pending.producers != [] && irreversible >= s.pending.libNum
  }

  /** The slot a block is built for: slot zero stands for the one after the head's. */
  function BuildSlot(s: HeaderState, slot: nat): nat
  {
    if slot == 0 then (s.slot + 1) % 0x1_0000_0000 else slot
  }

  /** next and finish_next: the state after an accepted header, or why it is refused. */
  function Next(s: HeaderState, h: Header): Result<HeaderState, Error>
    requires s.schedule != []
  {
    var slot := BuildSlot(s, h.slot);
    var producer := ScheduledProducer(s.schedule, slot);
    var irreversible := LastIrreversible(s.lastImplied, producer, s.proposed);
    if h.slot != 0 && h.slot <= s.slot then Err(NotInFuture)
    else if producer in s.lastProduced && !MayConfirm(s.lastProduced[producer], s.blockNum, h.confirmed)
    then Err(DoubleConfirm)
    else if h.slot != slot then Err(TimestampMismatch)
    else if h.previous != s.id then Err(PreviousMismatch)
    else if h.producer != producer then Err(WrongProducer)
    else if h.version != s.version then Err(VersionMismatch)
    else if h.newProducers.Some? && Promotes(s, irreversible) then Err(PromotedInSameBlock)
    else if h.newProducers.Some? && h.newProducers.value.version != NextVersion(s.version) then Err(WrongNewVersion)
    else if h.newProducers.Some? && s.pending.producers != [] then Err(PendingUnconfirmed)
    else Ok(Accepted(s, h, irreversible))
  }

  /** A 32-bit increment. */
  function NextVersion(version: nat): nat { (version + 1) % 0x1_0000_0000 }

  function NextProgress(s: HeaderState, h: Header): Progress
  {
    Confirmed(Tracked(s.confirmCount, RequiredConfs(|s.schedule|)), s.proposed, s.blockNum + 1, h.confirmed + 1)
  }

  function Accepted(s: HeaderState, h: Header, irreversible: nat): HeaderState
  {
    var blockNum := s.blockNum + 1;
    var progress := NextProgress(s, h);
    var promoted := Promotes(s, irreversible);
    HeaderState(
      h.id, blockNum, h.slot, progress.proposed, irreversible,
      if promoted then s.pending.version else s.version,
      if promoted then s.pending.producers else s.schedule,
      if h.newProducers.Some? then Pending(h.newProducers.value.version, h.newProducers.value.producers, blockNum)
      else if promoted then s.pending.(producers := [])
      else s.pending,
      if promoted then PromotedProduced(s.lastProduced, s.pending.producers, irreversible, h.producer, blockNum)
      else s.lastProduced[h.producer := blockNum],
      if promoted then PromotedImplied(s.lastImplied, s.pending.producers, irreversible, h.producer, s.proposed)
      else Put(s.lastImplied, h.producer, s.proposed),
      progress.counts)
  }

  /** next and finish_next as they run. */
  method BuildNext(s: HeaderState, h: Header) returns (r: Result<HeaderState, Error>)
    requires s.schedule != []
    ensures r == Next(s, h)
  {
    hide Confirmed, LastIrreversible, PromotedProduced, PromotedImplied, Put, ScheduledProducer, MayConfirm, Tracked;
    if h.slot != 0 && h.slot <= s.slot { return Err(NotInFuture); }
    var slot := BuildSlot(s, h.slot);
    var producer := ScheduledProducer(s.schedule, slot);
    if producer in s.lastProduced && !MayConfirm(s.lastProduced[producer], s.blockNum, h.confirmed) {
      return Err(DoubleConfirm);
    }

    var blockNum := s.blockNum + 1;
    var counts := Tracked(s.confirmCount, RequiredConfs(|s.schedule|));
    var progress := ConfirmBlocks(counts, s.proposed, blockNum, h.confirmed + 1);
    var irreversible := CalcLastIrreversible(s.lastImplied, producer, s.proposed);

    var promoted := s.pending.producers != [] && irreversible >= s.pending.libNum;
    var version, schedule, lastProduced, lastImplied := s.version, s.schedule, s.lastProduced, s.lastImplied;
    if promoted {
      version, schedule := s.pending.version, s.pending.producers;
      lastProduced := PromoteProduced(s.lastProduced, schedule, irreversible, producer, blockNum);
      lastImplied := PromoteImplied(s.lastImplied, schedule, irreversible, producer, s.proposed);
    } else {
      lastProduced := lastProduced[producer := blockNum];
      lastImplied := Put(lastImplied, producer, s.proposed);
    }

    if h.slot != slot { return Err(TimestampMismatch); }
    if h.previous != s.id { return Err(PreviousMismatch); }
    if h.producer != producer { return Err(WrongProducer); }
    if h.version != s.version { return Err(VersionMismatch); }
    var pending := if promoted then s.pending.(producers := []) else s.pending;
    if h.newProducers.Some? {
      if promoted { return Err(PromotedInSameBlock); }
      if h.newProducers.value.version != NextVersion(version) { return Err(WrongNewVersion); }
      if s.pending.producers != [] { return Err(PendingUnconfirmed); }
      pending := Pending(h.newProducers.value.version, h.newProducers.value.producers, blockNum);
    }
    r := Ok(HeaderState(h.id, blockNum, slot, progress.proposed, irreversible, version, schedule, pending,
                        lastProduced, lastImplied, progress.counts));
  }
}
