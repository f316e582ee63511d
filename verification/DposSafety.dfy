/**
 What stands behind an irreversible block: over every run, its number is zero or
 that of a block confirmed by different producers numbering more than two thirds of
 the schedule it was built under.
 */
module DposSafety {
  import opened OrderStatistic
  import opened HeaderStates
  import opened ProducerTables
  import opened DposQuorum

  // ------------------------------------------------- where the numbers come from

  lemma {:induction false} InsertMember(s: seq<nat>, x: nat)
    ensures forall y | y in Insert(s, x) :: y in s || y == x
  {
    if s != [] && x > s[0] { InsertMember(s[1..], x); }
  }

  lemma {:induction false} SortedMember(s: seq<nat>)
    ensures forall y | y in Sorted(s) :: y in s
  {
    if s != [] {
      SortedMember(s[1..]);
      InsertMember(Sorted(s[1..]), s[0]);
    }
  }

  lemma IrreversibleWithin(entries: seq<Entry>, producer: AccountName, proposed: nat, numbers: set<nat>)
    requires Within(entries, numbers) && proposed in numbers && 0 in numbers
    ensures LastIrreversible(entries, producer, proposed) in numbers
  {
    var s := ImpliedBlocks(entries, producer, proposed);
    SortedMember(s);
    assert forall y | y in s :: y in numbers;
  }

  lemma {:induction false} PromotedWithin(known: seq<Entry>, schedule: seq<AccountName>, irreversible: nat,
                                          producer: AccountName, proposed: nat, numbers: set<nat>)
    requires Within(known, numbers) && irreversible in numbers && proposed in numbers
    ensures Within(PromotedImplied(known, schedule, irreversible, producer, proposed), numbers)
  {
    hide Put, Lookup;
    if schedule != [] {
      var front, p := schedule[..|schedule| - 1], schedule[|schedule| - 1];
      PromotedWithin(known, front, irreversible, producer, proposed, numbers);
      LookupWithin(known, p, irreversible, numbers);
      PutWithin(PromotedImplied(known, front, irreversible, producer, proposed), p,
                Starting(known, irreversible, producer, proposed, p), numbers);
    }
  }

  lemma StepWithin(s: HeaderState, h: Header, numbers: set<nat>)
    requires s.schedule != [] && Next(s, h).Ok?
    requires Within(s.lastImplied, numbers) && s.proposed in numbers && 0 in numbers
    ensures Next(s, h).value.irreversible in numbers && Within(Next(s, h).value.lastImplied, numbers)
  {
    hide LastIrreversible, NextProgress, PromotedImplied, PromotedProduced, Put, MayConfirm, ScheduledProducer, Within;
    var producer := ScheduledProducer(s.schedule, BuildSlot(s, h.slot));
    IrreversibleWithin(s.lastImplied, producer, s.proposed, numbers);
    var irreversible := LastIrreversible(s.lastImplied, producer, s.proposed);
    PromotedWithin(s.lastImplied, s.pending.producers, irreversible, producer, s.proposed, numbers);
    PutWithin(s.lastImplied, producer, s.proposed, numbers);
  }

  // ------------------------------------------------------------ backed numbers

  /** Zero, and the numbers of the blocks with enough confirmations. */
  function Backed(c: Chain, base: nat): set<nat>
  {
    set b | 0 <= b <= base + |c.history| && QuorumAt(c, base, b)
  }

  lemma BackedGrows(c: Chain, base: nat, h: Header)
    requires Inv(c, base) && Next(c.state, h).Ok? && Sensible(c, h)
    ensures Backed(c, base) <= Backed(Step(c, h), base)
  {
    hide AllRecorded, AllCounted, Bounded, Next, QuorumAt;
    forall b | b in Backed(c, base) ensures b in Backed(Step(c, h), base) {
      QuorumStays(c, base, h, b);
    }
  }

  predicate Safe(c: Chain, base: nat)
  {
    c.state.irreversible in Backed(c, base) && Within(c.state.lastImplied, Backed(c, base))
  }

  lemma SafeStep(c: Chain, base: nat, h: Header)
    requires Inv(c, base) && Next(c.state, h).Ok? && Sensible(c, h) && Safe(c, base)
    ensures Safe(Step(c, h), base)
  {
    hide Next, AllRecorded, AllCounted, Bounded;
    assert c.state.proposed in Backed(c, base);
    StepWithin(c.state, h, Backed(c, base));
    BackedGrows(c, base, h);
  }

  lemma {:induction false} RunSafe(genesis: Chain, headers: seq<Header>)
    requires SensibleRun(genesis, headers)
    ensures Safe(Run(genesis, headers).value, genesis.state.blockNum)
  {
    hide Next, Step, Inv, Safe, Sensible, AllSensible, CountFits;
    if headers == [] {
      GenesisSafe(genesis);
    } else {
      var last := |headers| - 1;
      AllSensibleFront(genesis, headers);
      RunKeeps(genesis, headers[..last]);
      RunSafe(genesis, headers[..last]);
      SafeStep(Run(genesis, headers[..last]).value, genesis.state.blockNum, headers[last]);
    }
  }

  lemma GenesisSafe(genesis: Chain)
    requires IsGenesis(genesis)
    ensures Safe(genesis, genesis.state.blockNum)
  {}

  /** Over every sensible run, so does the block that is irreversible. */
  lemma IrreversibleHasQuorum(genesis: Chain, headers: seq<Header>)
    requires SensibleRun(genesis, headers)
    ensures var b := Run(genesis, headers).value.state.irreversible; b == 0 || HasQuorum(genesis, headers, b)
  {
    hide Run, Confirmers, Inv, AllSensible;
    RunSafe(genesis, headers);
    var b := Run(genesis, headers).value.state.irreversible;
    if b != 0 { QuorumMeans(genesis, headers, b); }
  }
}
