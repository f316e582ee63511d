/**
 Runs of the header state machine from a genesis state, and what stands behind a
 block that becomes proposed irreversible: the confirmations of more than two
 thirds of the schedule it was built under, each from a different producer.
 */
module DposQuorum {
  import opened Common
  import opened HeaderStates
  import opened ProducerTables

  /** A block of a run: its producer, how many blocks before it it confirms, and how many confirmations it needs. */
  datatype Block = Block(producer: AccountName, confirmed: nat, required: nat)

  /** The header state and the blocks that led to it; block k of the history is number base + 1 + k. */
  datatype Chain = Chain(state: HeaderState, history: seq<Block>)

  function Genesis(schedule: seq<AccountName>, base: nat, slot: nat, id: BlockId): Chain
  {
    Chain(HeaderState(id, base, slot, 0, 0, 0, schedule, Pending(0, schedule, 0), map[], [], []), [])
  }

  predicate IsGenesis(c: Chain)
  {
    c == Genesis(c.state.schedule, c.state.blockNum, c.state.slot, c.state.id) && c.state.schedule != []
  }

  function BlockOf(s: HeaderState, h: Header): Block
    requires s.schedule != []
  {
    Block(ScheduledProducer(s.schedule, BuildSlot(s, h.slot)), h.confirmed, RequiredConfs(|s.schedule|))
  }

  /** The chain one accepted block longer. */
  function Step(c: Chain, h: Header): Chain
    requires c.state.schedule != [] && Next(c.state, h).Ok?
  {
    Chain(Next(c.state, h).value, c.history + [BlockOf(c.state, h)])
  }

  /** A run: every header accepted by the state before it. */
  function Run(genesis: Chain, headers: seq<Header>): (r: Result<Chain, Error>)
    requires genesis.state.schedule != []
    ensures r.Ok? ==> r.value.state.schedule != []
  {
    if headers == [] then Ok(genesis)
    else
      var last := |headers| - 1;
      match Run(genesis, headers[..last])
      case Err(e) => Err(e)
      case Ok(c) =>
        match Next(c.state, headers[last])
        case Err(e) => Err(e)
        case Ok(_) => Ok(Step(c, headers[last]))
  }

  /** Block b is the block with this number or one of those it confirms. */
  predicate Covers(block: Block, number: nat, b: nat) { b <= number <= b + block.confirmed }

  /** The producers that have confirmed block b. */
  function Confirmers(history: seq<Block>, base: nat, b: nat): set<AccountName>
  {
    if history == [] then {}
    else
      var last := |history| - 1;
      Confirmers(history[..last], base, b)
      + if Covers(history[last], base + |history|, b) then {history[last].producer} else {}
  }

  lemma {:induction false} ConfirmerHasBlock(history: seq<Block>, base: nat, b: nat, p: AccountName) returns (k: nat)
    requires p in Confirmers(history, base, b)
    ensures k < |history| && history[k].producer == p && Covers(history[k], base + 1 + k, b)
  {
    var last := |history| - 1;
    if p in Confirmers(history[..last], base, b) {
      k := ConfirmerHasBlock(history[..last], base, b, p);
    } else {
      k := last;
    }
  }

  lemma {:induction false} BlockHasConfirmer(history: seq<Block>, base: nat, b: nat, k: nat)
    requires k < |history| && Covers(history[k], base + 1 + k, b)
    ensures history[k].producer in Confirmers(history, base, b)
  {
    if k < |history| - 1 { BlockHasConfirmer(history[..|history| - 1], base, b, k); }
  }

  /** The blocks the headers' producers have produced stay on record as long as they matter. */
  predicate Recorded(s: HeaderState, p: AccountName, number: nat)
  {
    if p in s.lastProduced then s.lastProduced[p] >= number
    else p !in s.schedule && (s.pending.producers != [] ==> number < s.pending.libNum)
  }

  predicate AllRecorded(c: Chain, base: nat)
  {
    forall k | 0 <= k < |c.history| :: Recorded(c.state, c.history[k].producer, base + 1 + k)
  }

  /** What holds of every accepted run, whatever its headers confirm. */
  predicate Grounded(c: Chain, base: nat)
  {
    c.state.blockNum == base + |c.history| && c.state.schedule != [] && AllRecorded(c, base)
  }

  /** A schedule of n producers needs no more confirmations than an eight-bit count can hold back. */
  predicate CountFits(n: nat) { RequiredConfs(n) <= 256 }

  predicate Sized(s: HeaderState)
  {
    s.schedule != [] && CountFits(|s.schedule|) && CountFits(|s.pending.producers|)
  }

  /** A count is what the block still needs, in eight bits. */
  predicate Counted(c: Chain, base: nat, count: nat, number: nat)
  {
    && base < number <= base + |c.history|
    && var missing := c.history[number - base - 1].required - |Confirmers(c.history, base, number)|;
       0 < missing <= 256 && count == missing % 256
  }

  predicate AllCounted(c: Chain, base: nat)
  {
    forall i | 0 <= i < |c.state.confirmCount| ::
      c.state.blockNum + 1 + i >= |c.state.confirmCount| &&
      Counted(c, base, c.state.confirmCount[i], c.state.blockNum + 1 + i - |c.state.confirmCount|)
  }

  predicate Bounded(c: Chain)
  {
    forall k | 0 <= k < |c.history| :: 0 < c.history[k].required <= 256
  }

  /** Block b is none at all, or enough different producers have confirmed it. */
  predicate QuorumAt(c: Chain, base: nat, b: nat)
  {
    b == 0 ||
    (base < b <= base + |c.history| && |Confirmers(c.history, base, b)| >= c.history[b - base - 1].required)
  }

  predicate Quorum(c: Chain, base: nat) { QuorumAt(c, base, c.state.proposed) }

  predicate Inv(c: Chain, base: nat)
  {
    && Grounded(c, base) && |c.state.confirmCount| <= |c.history|
    && Sized(c.state) && Bounded(c) && AllCounted(c, base) && Quorum(c, base)
  }

  /** The header confirms only blocks from number zero on, or its producer has made no block yet. */
  predicate ConfirmsOnce(c: Chain, h: Header)
    requires c.state.schedule != []
  {
    h.confirmed <= c.state.blockNum + 1 ||
    forall k | 0 <= k < |c.history| :: c.history[k].producer != BlockOf(c.state, h).producer
  }

  /** The header's producer has confirmed none of the blocks that the header confirms. */
  ghost predicate NewToAll(c: Chain, base: nat, h: Header)
    requires c.state.schedule != []
  {
    var block := BlockOf(c.state, h);
    forall b: nat | Covers(block, c.state.blockNum + 1, b) :: block.producer !in Confirmers(c.history, base, b)
  }

  /** What the quorum needs of a header beyond being accepted. */
  predicate Sensible(c: Chain, h: Header)
    requires c.state.schedule != []
  {
    ConfirmsOnce(c, h) && (h.newProducers.Some? ==> CountFits(|h.newProducers.value.producers|))
  }

  /**
   The guard refuses exactly the headers that confirm a block up to the producer's last one,
   precisely when they reach no further back than block zero: the difference is a 32-bit one.
   */
  lemma GuardExactIff(last: nat, number: nat, block: Block)
    requires last < number && block.confirmed < 0x1_0000
    ensures (MayConfirm(last, number - 1, block.confirmed) <==> forall b: nat | b <= last :: !Covers(block, number, b))
            <==> block.confirmed <= number
  {
    assert Covers(block, number, last) <==> number <= last + block.confirmed;
    if block.confirmed > number { assert Covers(block, number, 0); }
  }

  /** A count lowered j times. */
  function LoweredTimes(count: nat, j: nat): nat { if j == 0 then count else Less(LoweredTimes(count, j - 1)) }

  lemma {:induction false} LoweredBy(required: nat, j: nat)
    ensures LoweredTimes(required % 256, j) == (required - j) % 256
  {
    hide Less;
    if j > 0 {
      LoweredBy(required, j - 1);
      LessModulo(required - (j - 1));
    }
  }

  lemma LessModulo(x: int)
    ensures Less(x % 256) == (x - 1) % 256
  {
    var q, r := x / 256, x % 256;
    if r > 0 { assert x - 1 == 256 * q + (r - 1); } else { assert x - 1 == 256 * (q - 1) + 255; }
  }

  /**
   Kept in eight bits, a count first reaches zero after as many confirmations as are needed, if and only if
   that is at most 256.
   */
  lemma CountExactIff(n: nat)
    ensures (forall j | 0 < j < RequiredConfs(n) :: LoweredTimes(RequiredConfs(n) % 256, j) != 0) <==> CountFits(n)
    ensures LoweredTimes(RequiredConfs(n) % 256, RequiredConfs(n)) == 0
  {
    hide LoweredTimes, RequiredConfs;
    var required := RequiredConfs(n);
    forall j | 0 < j < required ensures LoweredTimes(required % 256, j) == (required - j) % 256 {
      LoweredBy(required, j);
    }
    LoweredBy(required, required);
    if required > 256 { assert LoweredTimes(required % 256, required - 256) == 0; }
  }

  // ----------------------------------------------------------------- one step

  /** An accepted header's producer is new to all the blocks it confirms, if and only if the header confirms once. */
  lemma NewConfirmerIff(c: Chain, base: nat, h: Header)
    requires Grounded(c, base) && Next(c.state, h).Ok?
    ensures NewToAll(c, base, h) <==> ConfirmsOnce(c, h)
  {
    hide Next, AllRecorded, Confirmers, BlockOf;
    var block := BlockOf(c.state, h);
    if ConfirmsOnce(c, h) {
      forall b: nat | Covers(block, c.state.blockNum + 1, b) ensures block.producer !in Confirmers(c.history, base, b) {
        NewConfirmer(c, base, h, b);
      }
    } else {
      var k :| 0 <= k < |c.history| && c.history[k].producer == block.producer;
      BlockHasConfirmer(c.history, base, base + 1 + k, k);
      ReachesBack(c, h, base + 1 + k);
    }
  }

  lemma ReachesBack(c: Chain, h: Header, b: nat)
    requires c.state.schedule != [] && h.confirmed > c.state.blockNum + 1 && b <= c.state.blockNum
    ensures Covers(BlockOf(c.state, h), c.state.blockNum + 1, b)
  {
    hide ScheduledProducer;
  }

  lemma NewConfirmer(c: Chain, base: nat, h: Header, b: nat)
    requires Grounded(c, base) && Next(c.state, h).Ok? && ConfirmsOnce(c, h)
    requires Covers(BlockOf(c.state, h), c.state.blockNum + 1, b)
    ensures BlockOf(c.state, h).producer !in Confirmers(c.history, base, b)
  {
    hide Confirmers, LastIrreversible, Accepted, ScheduledProducer;
    var p := BlockOf(c.state, h).producer;
    if p in Confirmers(c.history, base, b) {
      var k := ConfirmerHasBlock(c.history, base, b, p);
      assert Recorded(c.state, p, base + 1 + k);
      ScheduledIsMember(c.state.schedule, BuildSlot(c.state, h.slot));
      assert false;
    }
  }

  lemma ScheduledIsMember(schedule: seq<AccountName>, slot: nat)
    requires schedule != []
    ensures ScheduledProducer(schedule, slot) in schedule
  {}

  /** No block a producer has made is forgotten while it could be confirmed again. */
  lemma RecordedStep(c: Chain, base: nat, h: Header, k: nat)
    requires Grounded(c, base) && Next(c.state, h).Ok? && k < |c.history|
    ensures Recorded(Next(c.state, h).value, c.history[k].producer, base + 1 + k)
  {
    hide LastIrreversible, ScheduledProducer, PromotedImplied, Put, NextProgress, MayConfirm;
    assert Recorded(c.state, c.history[k].producer, base + 1 + k);
    ScheduledIsMember(c.state.schedule, BuildSlot(c.state, h.slot));
  }

  lemma GroundedStep(c: Chain, base: nat, h: Header)
    requires Grounded(c, base) && Next(c.state, h).Ok?
    ensures Grounded(Step(c, h), base)
  {
    var next := Step(c, h);
    forall k | 0 <= k < |next.history| ensures Recorded(next.state, next.history[k].producer, base + 1 + k) {
      if k < |c.history| {
        RecordedStep(c, base, h, k);
      } else {
        hide AllRecorded, PromotedImplied, Put, LastIrreversible, NextProgress, ScheduledProducer;
        assert next.state.lastProduced[next.history[k].producer] == c.state.blockNum + 1;
      }
    }
    hide PromotedImplied, PromotedProduced, Put, LastIrreversible, NextProgress, ScheduledProducer, MayConfirm;
  }

  lemma ConfirmersGrow(history: seq<Block>, base: nat, block: Block, b: nat)
    requires Covers(block, base + |history| + 1, b) ==> block.producer !in Confirmers(history, base, b)
    ensures Confirmers(history, base, b) <= Confirmers(history + [block], base, b)
    ensures |Confirmers(history + [block], base, b)|
            == |Confirmers(history, base, b)| + if Covers(block, base + |history| + 1, b) then 1 else 0
  {
    assert (history + [block])[..|history|] == history;
  }

  lemma {:induction false} NoConfirmersYet(history: seq<Block>, base: nat, b: nat)
    requires b > base + |history|
    ensures Confirmers(history, base, b) == {}
  {
    if history != [] { NoConfirmersYet(history[..|history| - 1], base, b); }
  }

  function TrackedNow(c: Chain): (r: seq<nat>)
    ensures r != []
  {
    Tracked(c.state.confirmCount, RequiredConfs(|c.state.schedule|))
  }

  /** The block number that position i of n counts stands for when the newest block is `newest`. */
  function NumberAt(newest: nat, n: nat, i: nat): nat
    requires i < n <= newest + 1
  {
    newest + 1 + i - n
  }

  /** What the block at position i of the counts still needs, given the confirmers in a history. */
  function Missing(c: Chain, base: nat, h: Header, history: seq<Block>, b: nat): int
    requires c.state.schedule != [] && base < b <= base + |c.history| + 1
  {
    (c.history + [BlockOf(c.state, h)])[b - base - 1].required - |Confirmers(history, base, b)|
  }

  /** Before its own confirmations are applied, the new block's counts agree with the old confirmers. */
  lemma TrackedCounted(c: Chain, base: nat, h: Header, i: nat)
    requires Inv(c, base) && i < |TrackedNow(c)|
    ensures |TrackedNow(c)| <= |c.history| + 1
    ensures var b := NumberAt(c.state.blockNum + 1, |TrackedNow(c)|, i);
            && base < b <= base + |c.history| + 1
            && 0 < Missing(c, base, h, c.history, b) <= 256
            && TrackedNow(c)[i] == Missing(c, base, h, c.history, b) % 256
  {
    hide Confirmers, AllRecorded, Quorum;
    var m := |TrackedNow(c)|;
    if i == m - 1 {
      NoConfirmersYet(c.history, base, c.state.blockNum + 1);
    } else {
      var j := |c.state.confirmCount| - (m - 1) + i;
      assert TrackedNow(c)[i] == c.state.confirmCount[j];
      assert Counted(c, base, c.state.confirmCount[j], c.state.blockNum + 1 + j - |c.state.confirmCount|);
    }
  }

  /** How many of n counts a header lowers. */
  function Depth(h: Header, n: nat): (k: nat)
    ensures k <= n
  {
    if h.confirmed + 1 <= n then h.confirmed + 1 else n
  }

  /** Lowering a count and gaining a confirmer go together. */
  lemma LoweredCounted(c: Chain, base: nat, h: Header, i: nat)
    requires Inv(c, base) && Next(c.state, h).Ok? && Sensible(c, h) && i < |TrackedNow(c)|
    ensures |TrackedNow(c)| <= |c.history| + 1
    ensures var b := NumberAt(c.state.blockNum + 1, |TrackedNow(c)|, i);
            var lowered := i + Depth(h, |TrackedNow(c)|) >= |TrackedNow(c)|;
            && base < b <= base + |c.history| + 1
            && var missing := Missing(c, base, h, Step(c, h).history, b);
               && 0 <= missing <= 256
               && Lowered(TrackedNow(c), Depth(h, |TrackedNow(c)|))[i] == missing % 256
               && (missing == 0 <==> lowered && Less(TrackedNow(c)[i]) == 0)
  {
    hide Confirmers, AllRecorded, AllCounted, Quorum, Bounded, TrackedNow, Next, Less;
    TrackedCounted(c, base, h, i);
    var m := |TrackedNow(c)|;
    var b := NumberAt(c.state.blockNum + 1, m, i);
    var block := BlockOf(c.state, h);
    assert Covers(block, c.state.blockNum + 1, b) <==> i + Depth(h, m) >= m;
    if Covers(block, c.state.blockNum + 1, b) { NewConfirmer(c, base, h, b); }
    ConfirmersGrow(c.history, base, block, b);
    LessOfRest(Missing(c, base, h, c.history, b));
  }

  lemma LessOfRest(x: nat)
    requires 0 < x <= 256
    ensures Less(x % 256) == (x - 1) % 256 == x - 1
  {}

  lemma ProgressIs(c: Chain, h: Header)
    requires c.state.schedule != [] && Next(c.state, h).Ok?
    ensures var progress := Confirmed(TrackedNow(c), c.state.proposed, c.state.blockNum + 1, h.confirmed + 1);
            var next := Step(c, h).state;
            && next.confirmCount == progress.counts && next.proposed == progress.proposed
            && next.blockNum == c.state.blockNum + 1
  {
    hide Confirmed, Tracked, LastIrreversible, Promotes, PromotedProduced, PromotedImplied, Put;
  }

  lemma CountedStep(c: Chain, base: nat, h: Header, i: nat)
    requires Inv(c, base) && Next(c.state, h).Ok? && Sensible(c, h)
    requires i < |Step(c, h).state.confirmCount|
    ensures |Step(c, h).state.confirmCount| <= |c.history| + 1
    ensures Counted(Step(c, h), base, Step(c, h).state.confirmCount[i],
                    NumberAt(c.state.blockNum + 1, |Step(c, h).state.confirmCount|, i))
  {
    hide Confirmers, AllRecorded, AllCounted, Quorum, Bounded, TrackedNow, Next, Less, LastHit;
    ProgressIs(c, h);
    var m := |TrackedNow(c)|;
    var hit := LastHit(TrackedNow(c), Depth(h, m));
    LoweredCounted(c, base, h, hit + 1 + i);
  }

  lemma QuorumStep(c: Chain, base: nat, h: Header)
    requires Inv(c, base) && Next(c.state, h).Ok? && Sensible(c, h)
    ensures Quorum(Step(c, h), base)
  {
    hide Confirmers, AllRecorded, AllCounted, Bounded, TrackedNow, Next, Less, LastHit;
    ProgressIs(c, h);
    var m := |TrackedNow(c)|;
    var hit := LastHit(TrackedNow(c), Depth(h, m));
    if hit >= 0 {
      LoweredCounted(c, base, h, hit);
      LessIsLowered(TrackedNow(c), Depth(h, m), hit);
    } else {
      QuorumStays(c, base, h, c.state.proposed);
    }
  }

  /** Confirmations are never lost. */
  lemma QuorumStays(c: Chain, base: nat, h: Header, b: nat)
    requires Inv(c, base) && Next(c.state, h).Ok? && Sensible(c, h) && QuorumAt(c, base, b)
    ensures QuorumAt(Step(c, h), base, b)
  {
    hide Confirmers, AllRecorded, AllCounted, Bounded, Next;
    var block := BlockOf(c.state, h);
    if Covers(block, c.state.blockNum + 1, b) { NewConfirmer(c, base, h, b); }
    ConfirmersGrow(c.history, base, block, b);
  }

  lemma LessIsLowered(counts: seq<nat>, k: nat, i: nat)
    requires i < |counts| && i + k >= |counts| && Less(counts[i]) == 0
    ensures Lowered(counts, k)[i] == 0
  {}

  lemma SizedStep(c: Chain, base: nat, h: Header)
    requires Inv(c, base) && Next(c.state, h).Ok? && Sensible(c, h)
    ensures Sized(Step(c, h).state) && Bounded(Step(c, h))
  {
    hide Confirmed, Tracked, LastIrreversible, PromotedProduced, PromotedImplied, Put, AllRecorded, AllCounted, Quorum,
         ScheduledProducer;
  }

  lemma StepKeeps(c: Chain, base: nat, h: Header)
    requires Inv(c, base) && Next(c.state, h).Ok? && Sensible(c, h)
    ensures Inv(Step(c, h), base)
  {
    hide Next, AllRecorded, AllCounted, Quorum, Sized, Bounded, Step;
    GroundedStep(c, base, h);
    CountedAllStep(c, base, h);
    QuorumStep(c, base, h);
    SizedStep(c, base, h);
  }

  lemma CountedAllStep(c: Chain, base: nat, h: Header)
    requires Inv(c, base) && Next(c.state, h).Ok? && Sensible(c, h)
    ensures var next := Step(c, h);
            && AllCounted(next, base) && |next.state.confirmCount| <= |next.history|
            && next.state.blockNum == base + |next.history|
  {
    hide Next, AllRecorded, AllCounted, Quorum, Bounded, Counted;
    ProgressIs(c, h);
    var next := Step(c, h);
    forall i | 0 <= i < |next.state.confirmCount|
      ensures |next.state.confirmCount| <= |next.history|
      ensures Counted(next, base, next.state.confirmCount[i],
                      NumberAt(c.state.blockNum + 1, |next.state.confirmCount|, i))
    {
      CountedStep(c, base, h, i);
    }
    AllCountedFrom(next, base);
  }

  lemma AllCountedFrom(c: Chain, base: nat)
    requires |c.state.confirmCount| <= |c.history| && c.state.blockNum == base + |c.history|
    requires forall i | 0 <= i < |c.state.confirmCount| ::
               Counted(c, base, c.state.confirmCount[i], NumberAt(c.state.blockNum, |c.state.confirmCount|, i))
    ensures AllCounted(c, base)
  {
    hide Counted;
  }

  /**
   Where one confirmation clears the eight-bit count although more are needed, every block is proposed by
   itself alone.
   */
  lemma QuorumLost(c: Chain, base: nat, h: Header)
    requires Grounded(c, base) && Next(c.state, h).Ok?
    requires RequiredConfs(|c.state.schedule|) % 256 == 1 && !CountFits(|c.state.schedule|)
    ensures var next, b := Step(c, h), c.state.blockNum + 1;
            && next.state.proposed == b && Confirmers(next.history, base, b) == {BlockOf(c.state, h).producer}
            && !QuorumAt(next, base, b)
  {
    hide Next, AllRecorded, ScheduledProducer, LastHit, RequiredConfs, Lowered;
    ProgressIs(c, h);
    var counts := TrackedNow(c);
    HitFound(counts, Depth(h, |counts|), |counts| - 1);
    NoConfirmersYet(c.history, base, c.state.blockNum + 1);
    assert Step(c, h).history[..|c.history|] == c.history;
  }

  // ---------------------------------------------------------------- whole runs

  predicate AllSensible(genesis: Chain, headers: seq<Header>)
    requires genesis.state.schedule != []
  {
    forall k | 0 <= k < |headers| && Run(genesis, headers[..k]).Ok? ::
      Sensible(Run(genesis, headers[..k]).value, headers[k])
  }

  lemma AllSensibleFront(genesis: Chain, headers: seq<Header>)
    requires genesis.state.schedule != [] && headers != [] && AllSensible(genesis, headers)
    ensures var front := headers[..|headers| - 1];
            && AllSensible(genesis, front)
            && (Run(genesis, front).Ok? ==> Sensible(Run(genesis, front).value, headers[|headers| - 1]))
  {
    hide Run, Sensible;
    var front := headers[..|headers| - 1];
    forall k | 0 <= k < |front| && Run(genesis, front[..k]).Ok?
      ensures Sensible(Run(genesis, front[..k]).value, front[k])
    {
      assert front[..k] == headers[..k];
    }
  }

  predicate NoNewSchedule(headers: seq<Header>)
  {
    forall k | 0 <= k < |headers| :: headers[k].newProducers == None
  }

  /** A run from a genesis state, accepted and sensible throughout. */
  predicate SensibleRun(genesis: Chain, headers: seq<Header>)
  {
    && IsGenesis(genesis) && CountFits(|genesis.state.schedule|)
    && Run(genesis, headers).Ok? && AllSensible(genesis, headers)
  }

  lemma {:induction false} RunKeeps(genesis: Chain, headers: seq<Header>)
    requires SensibleRun(genesis, headers)
    ensures Inv(Run(genesis, headers).value, genesis.state.blockNum)
            && |Run(genesis, headers).value.history| == |headers|
  {
    hide Next, Step, AllRecorded, AllCounted, Quorum, Sensible, AllSensible, CountFits;
    var base := genesis.state.blockNum;
    if headers == [] {
      GenesisInv(genesis);
    } else {
      var last := |headers| - 1;
      AllSensibleFront(genesis, headers);
      RunKeeps(genesis, headers[..last]);
      var c := Run(genesis, headers[..last]).value;
      StepKeeps(c, base, headers[last]);
      StepLength(c, headers[last]);
    }
  }

  lemma StepLength(c: Chain, h: Header)
    requires c.state.schedule != [] && Next(c.state, h).Ok?
    ensures |Step(c, h).history| == |c.history| + 1
  {}

  lemma GenesisInv(genesis: Chain)
    requires IsGenesis(genesis) && CountFits(|genesis.state.schedule|)
    ensures Inv(genesis, genesis.state.blockNum)
  {}

  lemma {:induction false} RunGrounded(genesis: Chain, headers: seq<Header>)
    requires IsGenesis(genesis) && Run(genesis, headers).Ok?
    ensures Grounded(Run(genesis, headers).value, genesis.state.blockNum)
  {
    hide Next, Step, AllRecorded;
    if headers == [] {
      GenesisGrounded(genesis);
    } else {
      var last := |headers| - 1;
      RunGrounded(genesis, headers[..last]);
      GroundedStep(Run(genesis, headers[..last]).value, genesis.state.blockNum, headers[last]);
    }
  }

  lemma GenesisGrounded(genesis: Chain)
    requires IsGenesis(genesis)
    ensures Grounded(genesis, genesis.state.blockNum)
  {}

  /** After every accepted run, for every further header that is accepted. */
  lemma RunNewConfirmerIff(genesis: Chain, headers: seq<Header>, h: Header)
    requires IsGenesis(genesis) && Run(genesis, headers).Ok? && Next(Run(genesis, headers).value.state, h).Ok?
    ensures var c := Run(genesis, headers).value;
            NewToAll(c, genesis.state.blockNum, h) <==> ConfirmsOnce(c, h)
  {
    hide Run, Next, NewToAll, ConfirmsOnce, AllRecorded;
    RunGrounded(genesis, headers);
    NewConfirmerIff(Run(genesis, headers).value, genesis.state.blockNum, h);
  }

  /** Every prefix of an accepted run is accepted, and the block after it needs two thirds of its schedule. */
  lemma {:induction false} PrefixSchedule(genesis: Chain, headers: seq<Header>, k: nat)
    requires genesis.state.schedule != [] && genesis.history == [] && Run(genesis, headers).Ok? && k < |headers|
    ensures Run(genesis, headers[..k]).Ok? && |Run(genesis, headers).value.history| == |headers|
    ensures Run(genesis, headers).value.history[k].required
            == RequiredConfs(|Run(genesis, headers[..k]).value.state.schedule|)
  {
    hide Next, RequiredConfs, ScheduledProducer;
    var last := |headers| - 1;
    RunLength(genesis, headers);
    if k < last {
      PrefixSchedule(genesis, headers[..last], k);
      assert headers[..last][..k] == headers[..k];
    }
  }

  lemma {:induction false} RunLength(genesis: Chain, headers: seq<Header>)
    requires genesis.state.schedule != [] && genesis.history == [] && Run(genesis, headers).Ok?
    ensures |Run(genesis, headers).value.history| == |headers|
  {
    hide Next, BlockOf;
    if headers != [] { RunLength(genesis, headers[..|headers| - 1]); }
  }

  /**
   Block b of the run was built under a schedule of which more than two thirds, as different producers, have
   confirmed it.
   */
  predicate HasQuorum(genesis: Chain, headers: seq<Header>, b: nat)
    requires genesis.state.schedule != []
  {
    var base := genesis.state.blockNum;
    && base < b <= base + |headers|
    && Run(genesis, headers).Ok? && Run(genesis, headers[..b - base - 1]).Ok?
    && 3 * |Confirmers(Run(genesis, headers).value.history, base, b)|
       > 2 * |Run(genesis, headers[..b - base - 1]).value.state.schedule|
  }

  lemma QuorumMeans(genesis: Chain, headers: seq<Header>, b: nat)
    requires SensibleRun(genesis, headers) && b != 0 && QuorumAt(Run(genesis, headers).value, genesis.state.blockNum, b)
    ensures HasQuorum(genesis, headers, b)
  {
    hide Run, Confirmers, AllRecorded, AllCounted, AllSensible, Quorum, Bounded;
    RunKeeps(genesis, headers);
    PrefixSchedule(genesis, headers, b - genesis.state.blockNum - 1);
  }

  /** Over every sensible run, a block that is proposed irreversible has its quorum. */
  lemma ProposedHasQuorum(genesis: Chain, headers: seq<Header>)
    requires SensibleRun(genesis, headers)
    ensures var b := Run(genesis, headers).value.state.proposed; b == 0 || HasQuorum(genesis, headers, b)
  {
    hide Run, Confirmers, AllRecorded, AllCounted, AllSensible;
    RunKeeps(genesis, headers);
    var b := Run(genesis, headers).value.state.proposed;
    if b != 0 { QuorumMeans(genesis, headers, b); }
  }
}
