/**
 Concrete runs of the header state machine: the first blocks after genesis, a run in
 which a producer confirms a block more than once, and a run in which the irreversible
 number falls.
 */
module DposRuns {
  import opened Common
  import opened OrderStatistic
  import opened HeaderStates
  import opened ProducerTables
  import opened DposQuorum

  // --------------------------------------------------------- evaluating a step

  /** An accepted header that leaves the schedule alone. */
  lemma NextIs(s: HeaderState, h: Header, irreversible: nat, progress: Progress)
    requires s.schedule != [] && h.slot > s.slot && h.previous == s.id && h.version == s.version
    requires h.producer == ScheduledProducer(s.schedule, h.slot)
    requires h.producer in s.lastProduced && MayConfirm(s.lastProduced[h.producer], s.blockNum, h.confirmed)
    requires LastIrreversible(s.lastImplied, h.producer, s.proposed) == irreversible && NextProgress(s, h) == progress
    requires !Promotes(s, irreversible)
    requires h.newProducers.Some? ==>
               s.pending.producers == [] && h.newProducers.value.version == NextVersion(s.version)
    ensures Next(s, h) == Ok(HeaderState(
      h.id, s.blockNum + 1, h.slot, progress.proposed, irreversible, s.version, s.schedule,
      if h.newProducers.Some?
      then Pending(h.newProducers.value.version, h.newProducers.value.producers, s.blockNum + 1) else s.pending,
      s.lastProduced[h.producer := s.blockNum + 1], Put(s.lastImplied, h.producer, s.proposed), progress.counts))
  {
    hide ScheduledProducer, MayConfirm, LastIrreversible, NextProgress, Put;
  }

  /** An accepted header that brings in the pending schedule. */
  lemma NextPromotes(s: HeaderState, h: Header, irreversible: nat, progress: Progress)
    requires s.schedule != [] && h.slot > s.slot && h.previous == s.id && h.version == s.version
             && h.newProducers == None
    requires h.producer == ScheduledProducer(s.schedule, h.slot)
    requires h.producer in s.lastProduced ==> MayConfirm(s.lastProduced[h.producer], s.blockNum, h.confirmed)
    requires LastIrreversible(s.lastImplied, h.producer, s.proposed) == irreversible && NextProgress(s, h) == progress
    requires Promotes(s, irreversible)
    ensures Next(s, h) == Ok(HeaderState(
      h.id, s.blockNum + 1, h.slot, progress.proposed, irreversible, s.pending.version, s.pending.producers,
      s.pending.(producers := []),
      PromotedProduced(s.lastProduced, s.pending.producers, irreversible, h.producer, s.blockNum + 1),
      PromotedImplied(s.lastImplied, s.pending.producers, irreversible, h.producer, s.proposed), progress.counts))
  {
    hide ScheduledProducer, MayConfirm, LastIrreversible, NextProgress, PromotedProduced, PromotedImplied;
  }

  /** The counts of the first blocks of four producers, when every header confirms all that is still counted. */
  lemma FourProgress(s: HeaderState, h: Header)
    requires |s.schedule| == 4 && h.confirmed >= |s.confirmCount| && s.blockNum >= 1
    ensures s.confirmCount == [] ==> NextProgress(s, h) == Progress([2], s.proposed)
    ensures s.confirmCount == [2] ==> NextProgress(s, h) == Progress([1, 2], s.proposed)
    ensures s.confirmCount == [1, 2] ==> NextProgress(s, h) == Progress([1, 2], s.blockNum - 1)
  {
    hide Confirmed, Tracked;
    FirstCount(s.proposed, s.blockNum + 1, h.confirmed + 1);
    if s.confirmCount == [2] { SecondCount(s.proposed, s.blockNum + 1, h.confirmed + 1); }
    if s.confirmCount == [1, 2] { LaterCount(s.proposed, s.blockNum + 1, h.confirmed + 1); }
  }

  lemma FirstCount(proposed: nat, blockNum: nat, toConfirm: nat)
    requires toConfirm > 0
    ensures Confirmed(Tracked([], 3), proposed, blockNum, toConfirm) == Progress([2], proposed)
  {
    hide Confirmed, LastHit;
    assert Tracked([], 3) == [3];
    assert Lowered([3], 1) == [2];
    ConfirmedNone([3], proposed, blockNum, toConfirm, 1);
  }

  lemma SecondCount(proposed: nat, blockNum: nat, toConfirm: nat)
    requires toConfirm > 1
    ensures Confirmed(Tracked([2], 3), proposed, blockNum, toConfirm) == Progress([1, 2], proposed)
  {
    hide Confirmed, LastHit;
    assert Tracked([2], 3) == [2, 3];
    assert Lowered([2, 3], 2) == [1, 2];
    ConfirmedNone([2, 3], proposed, blockNum, toConfirm, 2);
  }

  lemma LaterCount(proposed: nat, blockNum: nat, toConfirm: nat)
    requires toConfirm > 2 && blockNum >= 2
    ensures Confirmed(Tracked([1, 2], 3), proposed, blockNum, toConfirm) == Progress([1, 2], blockNum - 2)
  {
    hide Confirmed, LastHit;
    assert Tracked([1, 2], 3) == [1, 2, 3];
    assert Lowered([1, 2, 3], 3) == [0, 1, 2];
    assert [0, 1, 2][1..] == [1, 2];
    ConfirmedAt([1, 2, 3], proposed, blockNum, toConfirm, 3);
  }

  // ------------------------------------------------------- four producers, a to d

  function Four(): (s: seq<AccountName>)
    ensures |s| == 4
  {
    ["a", "b", "c", "d"]
  }

  /** One number for each of the four. */
  type Row = r: seq<nat> | |r| == 4 witness [0, 0, 0, 0]

  function Entries(row: Row): seq<Entry>
  {
    [Entry("a", row[0]), Entry("b", row[1]), Entry("c", row[2]), Entry("d", row[3])]
  }

  function Produced(row: Row): map<AccountName, nat>
  {
    map["a" := row[0], "b" := row[1], "c" := row[2], "d" := row[3]]
  }

  lemma PutFour(row: Row, i: nat, n: nat)
    requires i < 4
    ensures Put(Entries(row), Four()[i], n) == Entries(row[i := n])
    ensures ImpliedBlocks(Entries(row), Four()[i], n) == row[i := n]
  {
    hide Put;
    var s := Entries(row);
    assert s[i].producer == Four()[i];
    PutKnown(s, Four()[i], n);
  }

  lemma MadeFour(row: Row, i: nat, n: nat)
    requires i < 4
    ensures Four()[i] in Produced(row) && Produced(row)[Four()[i]] == row[i]
    ensures Produced(row)[Four()[i] := n] == Produced(row[i := n])
  {}

  function Reaches(x: nat, w: nat): nat { if x >= w then 1 else 0 }

  lemma CountFour(a: nat, b: nat, c: nat, d: nat, w: nat)
    ensures CountAtLeast([a, b, c, d], w) == Reaches(a, w) + Reaches(b, w) + Reaches(c, w) + Reaches(d, w)
  {
    assert [a, b, c, d][1..] == [b, c, d] && [b, c, d][1..] == [c, d] && [c, d][1..] == [d] && [d][1..] == [];
    assert CountAtLeast([d], w) == Reaches(d, w);
    assert CountAtLeast([c, d], w) == Reaches(c, w) + Reaches(d, w);
  }

  function Reaching4(row: Row, w: nat): nat
  {
    Reaches(row[0], w) + Reaches(row[1], w) + Reaches(row[2], w) + Reaches(row[3], w)
  }

  /** Of four numbers, r is the second smallest. */
  predicate IsSecond(row: Row, r: nat) { Reaching4(row, r) >= 3 && Reaching4(row, r + 1) < 3 }

  lemma SecondOfFour(row: Row, i: nat, proposed: nat, r: nat)
    requires i < 4 && IsSecond(row[i := proposed], r)
    ensures LastIrreversible(Entries(row), Four()[i], proposed) == r
  {
    hide Nth, CountAtLeast, Reaches, Put;
    PutFour(row, i, proposed);
    var after := row[i := proposed];
    assert after == [after[0], after[1], after[2], after[3]];
    CountFour(after[0], after[1], after[2], after[3], r);
    CountFour(after[0], after[1], after[2], after[3], r + 1);
    NthAtLeast(after, 1, r);
    NthAtLeast(after, 1, r + 1);
  }

  function State4(n: nat, slot: nat, proposed: nat, irreversible: nat, pending: Pending, made: Row, implied: Row,
                  counts: seq<nat>): HeaderState
  {
    HeaderState(n, n, slot, proposed, irreversible, 0, Four(), pending, Produced(made), Entries(implied), counts)
  }

  /** Block n on top of block n - 1, with block numbers for ids. */
  function At(n: nat, slot: nat, producer: AccountName, confirmed: uint16, newProducers: Option<Schedule>): Header
    requires n > 0
  {
    Header(n, n - 1, slot, producer, confirmed, 0, newProducers)
  }

  /** The table that the first block sets up for the schedule of the genesis state. */
  lemma {:induction false} ZeroTable(schedule: seq<AccountName>, p: AccountName)
    requires forall i, j | 0 <= i < j < |schedule| :: schedule[i] != schedule[j]
    ensures PromotedImplied([], schedule, 0, p, 0)
            == seq(|schedule|, i requires 0 <= i < |schedule| => Entry(schedule[i], 0))
  {
    hide Put;
    if schedule != [] {
      var front, name := schedule[..|schedule| - 1], schedule[|schedule| - 1];
      ZeroTable(front, p);
      PromotedIs([], front, 0, p, 0);
      PutNew(PromotedImplied([], front, 0, p, 0), name, 0);
    }
  }

  lemma FirstTables(i: nat)
    requires i < 4
    ensures PromotedImplied([], Four(), 0, Four()[i], 0) == Entries([0, 0, 0, 0])
    ensures PromotedProduced(map[], Four(), 0, Four()[i], 2) == Produced([0, 0, 0, 0][i := 2])
  {
    hide PromotedImplied;
    ZeroTable(Four(), Four()[i]);
    MadeFour([0, 0, 0, 0], i, 2);
  }

  /** The first block after genesis. */
  lemma FirstOfFour(slot: nat, i: nat, confirmed: uint16)
    requires slot > 0 && i < 4 && Four()[i] == ScheduledProducer(Four(), slot)
    ensures Next(Genesis(Four(), 1, 0, 1).state, At(2, slot, Four()[i], confirmed, None))
            == Ok(State4(2, slot, 0, 0, Pending(0, [], 0), [0, 0, 0, 0][i := 2], [0, 0, 0, 0], [2]))
  {
    hide ScheduledProducer, NextProgress, PromotedProduced, PromotedImplied, Next, Produced, Entries, Four;
    var s, h := Genesis(Four(), 1, 0, 1).state, At(2, slot, Four()[i], confirmed, None);
    FourProgress(s, h);
    FirstTables(i);
    NextPromotes(s, h, 0, Progress([2], 0));
  }

  /** A later block that confirms all that is still counted. */
  lemma NextOfFour(n: nat, slot: nat, proposed: nat, irreversible: nat, pending: Pending, made: Row, implied: Row,
                   counts: seq<nat>, next: nat, i: nat, confirmed: uint16, newProducers: Option<Schedule>, r: nat)
    requires n > 0 && next > slot && i < 4 && Four()[i] == ScheduledProducer(Four(), next)
    requires confirmed >= |counts| && (counts == [2] || counts == [1, 2])
    requires MayConfirm(made[i], n, confirmed) && IsSecond(implied[i := proposed], r)
    requires pending.producers == [] || (r < pending.libNum && newProducers == None)
    requires newProducers.Some? ==> newProducers.value.version == 1
    ensures Next(State4(n, slot, proposed, irreversible, pending, made, implied, counts),
                 At(n + 1, next, Four()[i], confirmed, newProducers))
            == Ok(State4(n + 1, next, if counts == [2] then proposed else n - 1, r,
                         if newProducers.Some? then Pending(1, newProducers.value.producers, n + 1) else pending,
                         made[i := n + 1], implied[i := proposed], [1, 2]))
  {
    hide ScheduledProducer, NextProgress, LastIrreversible, Next, Put, Produced, Entries, MayConfirm, IsSecond, Four;
    var s := State4(n, slot, proposed, irreversible, pending, made, implied, counts);
    var h := At(n + 1, next, Four()[i], confirmed, newProducers);
    FourProgress(s, h);
    MadeFour(made, i, n + 1);
    PutFour(implied, i, proposed);
    SecondOfFour(implied, i, proposed, r);
    NextIs(s, h, r, Progress([1, 2], if counts == [2] then proposed else n - 1));
  }

  lemma FourSlots()
    ensures var s := Four();
            && ScheduledProducer(s, 1) == ScheduledProducer(s, 2) == ScheduledProducer(s, 3) == s[0]
            && ScheduledProducer(s, 12) == ScheduledProducer(s, 60) == ScheduledProducer(s, 108) == s[1]
            && ScheduledProducer(s, 24) == ScheduledProducer(s, 72) == s[2]
            && ScheduledProducer(s, 36) == ScheduledProducer(s, 84) == s[3]
  {}

  // ------------------------------------------------------------------ whole runs

  predicate Reached(genesis: Chain, headers: seq<Header>, s: HeaderState)
    requires genesis.state.schedule != []
  {
    Run(genesis, headers).Ok? && Run(genesis, headers).value.state == s
  }

  lemma ReachedNext(genesis: Chain, headers: seq<Header>, s: HeaderState, h: Header, next: HeaderState)
    requires genesis.state.schedule != [] && Reached(genesis, headers, s) && s.schedule != [] && Next(s, h) == Ok(next)
    ensures Reached(genesis, headers + [h], next)
    ensures Run(genesis, headers + [h]).value.history == Run(genesis, headers).value.history + [BlockOf(s, h)]
  {
    hide Next, BlockOf;
    assert (headers + [h])[..|headers|] == headers;
  }

  /** Headers that confirm no more blocks than there are numbers are sensible, whatever the run. */
  lemma ShortReachIsSensible(genesis: Chain, headers: seq<Header>)
    requires IsGenesis(genesis)
    requires forall k | 0 <= k < |headers| :: headers[k].confirmed <= genesis.state.blockNum + k + 1
    requires forall k | 0 <= k < |headers| && headers[k].newProducers.Some? ::
               CountFits(|headers[k].newProducers.value.producers|)
    ensures AllSensible(genesis, headers)
  {
    hide Run, CountFits, BlockOf;
    forall k | 0 <= k < |headers| && Run(genesis, headers[..k]).Ok?
      ensures Sensible(Run(genesis, headers[..k]).value, headers[k])
    {
      RunNumber(genesis, headers[..k]);
    }
  }

  lemma {:induction false} RunNumber(genesis: Chain, headers: seq<Header>)
    requires genesis.state.schedule != [] && Run(genesis, headers).Ok?
    ensures Run(genesis, headers).value.state.blockNum == genesis.state.blockNum + |headers|
  {
    if headers != [] {
      RunNumber(genesis, headers[..|headers| - 1]);
      hide ScheduledProducer, NextProgress, LastIrreversible, PromotedProduced, PromotedImplied, Put;
    }
  }

  function FourGenesis(): Chain { Genesis(Four(), 1, 0, 1) }

  lemma FirstReached(slot: nat, i: nat, confirmed: uint16)
    requires slot > 0 && i < 4 && Four()[i] == ScheduledProducer(Four(), slot)
    ensures var headers := [At(2, slot, Four()[i], confirmed, None)];
            && Reached(FourGenesis(), headers,
                       State4(2, slot, 0, 0, Pending(0, [], 0), [0, 0, 0, 0][i := 2], [0, 0, 0, 0], [2]))
            && Run(FourGenesis(), headers).value.history == [Block(Four()[i], confirmed, 3)]
  {
    hide Next, ScheduledProducer, State4, Four;
    var g, h := FourGenesis(), At(2, slot, Four()[i], confirmed, None);
    FirstOfFour(slot, i, confirmed);
    ReachedNext(g, [], g.state, h, State4(2, slot, 0, 0, Pending(0, [], 0), [0, 0, 0, 0][i := 2], [0, 0, 0, 0], [2]));
    assert [] + [h] == [h];
    assert [] + [BlockOf(g.state, h)] == [BlockOf(g.state, h)];
  }

  /** A run in which all four keep the schedule, one block longer. */
  lemma NextReached(headers: seq<Header>,
                    n: nat, slot: nat, proposed: nat, irreversible: nat, pending: Pending, made: Row, implied: Row,
                    counts: seq<nat>, next: nat, i: nat, confirmed: uint16, newProducers: Option<Schedule>, r: nat)
    requires n > 0 && next > slot && i < 4 && Four()[i] == ScheduledProducer(Four(), next)
    requires confirmed >= |counts| && (counts == [2] || counts == [1, 2])
    requires MayConfirm(made[i], n, confirmed) && IsSecond(implied[i := proposed], r)
    requires pending.producers == [] || (r < pending.libNum && newProducers == None)
    requires newProducers.Some? ==> newProducers.value.version == 1
    requires Reached(FourGenesis(), headers, State4(n, slot, proposed, irreversible, pending, made, implied, counts))
    ensures var after := headers + [At(n + 1, next, Four()[i], confirmed, newProducers)];
            && Reached(FourGenesis(), after, State4(n + 1, next, if counts == [2] then proposed else n - 1, r,
                 if newProducers.Some? then Pending(1, newProducers.value.producers, n + 1) else pending,
                 made[i := n + 1], implied[i := proposed], [1, 2]))
            && Run(FourGenesis(), after).value.history
               == Run(FourGenesis(), headers).value.history + [Block(Four()[i], confirmed, 3)]
  {
    hide Next, ScheduledProducer, MayConfirm, IsSecond, Reached, Four, Produced, Entries;
    NextOfFour(n, slot, proposed, irreversible, pending, made, implied, counts, next, i, confirmed, newProducers, r);
    var s := State4(n, slot, proposed, irreversible, pending, made, implied, counts);
    var h := At(n + 1, next, Four()[i], confirmed, newProducers);
    ReachedNext(FourGenesis(), headers, s, h, Next(s, h).value);
  }

  // ------------------------------------------------------------ confirming twice

  /** Three blocks by one producer, each of which claims to confirm 65535 earlier ones. */
  function TwiceRun(): seq<Header>
  {
    [At(2, 1, "a", 0xFFFF, None), At(3, 2, "a", 0xFFFF, None), At(4, 3, "a", 0xFFFF, None)]
  }

  lemma TwiceReached()
    ensures Reached(FourGenesis(), TwiceRun(),
                    State4(4, 3, 2, 0, Pending(0, [], 0), [4, 0, 0, 0], [0, 0, 0, 0], [1, 2]))
    ensures Run(FourGenesis(), TwiceRun()).value.history
            == [Block("a", 0xFFFF, 3), Block("a", 0xFFFF, 3), Block("a", 0xFFFF, 3)]
  {
    hide Next, ScheduledProducer, State4, Reached, Run;
    var hs, settled, zeros: Row := TwiceRun(), Pending(0, [], 0), [0, 0, 0, 0];
    FourSlots();
    FirstReached(1, 0, 0xFFFF);
    assert zeros[0 := 2] == [2, 0, 0, 0] && zeros[0 := 0] == zeros;
    NextReached([hs[0]], 2, 1, 0, 0, settled, [2, 0, 0, 0], zeros, [2], 2, 0, 0xFFFF, None, 0);
    assert [2, 0, 0, 0][0 := 3] == [3, 0, 0, 0] && [hs[0]] + [hs[1]] == [hs[0], hs[1]];
    NextReached([hs[0], hs[1]], 3, 2, 0, 0, settled, [3, 0, 0, 0], zeros, [1, 2], 3, 0, 0xFFFF, None, 0);
    assert [3, 0, 0, 0][0 := 4] == [4, 0, 0, 0] && [hs[0], hs[1]] + [hs[2]] == hs;
  }

  /** Block 2 is proposed irreversible with one confirmer, where four producers need three. */
  lemma ConfirmedTwice()
    ensures IsGenesis(FourGenesis()) && CountFits(4) && Run(FourGenesis(), TwiceRun()).Ok?
    ensures var c := Run(FourGenesis(), TwiceRun()).value;
            c.state.proposed == 2 && Confirmers(c.history, 1, 2) == {"a"} && !QuorumAt(c, 1, 2)
  {
    hide Next, Run;
    TwiceReached();
    var c := Run(FourGenesis(), TwiceRun()).value;
    OneConfirmer(c.history, 1, 2, "a");
    BlockHasConfirmer(c.history, 1, 2, 0);
  }

  lemma {:induction false} OneConfirmer(history: seq<Block>, base: nat, b: nat, p: AccountName)
    requires forall k | 0 <= k < |history| :: history[k].producer == p
    ensures Confirmers(history, base, b) <= {p}
  {
    if history != [] { OneConfirmer(history[..|history| - 1], base, b, p); }
  }

  // ------------------------------------------------- falling behind a new schedule

  /** Four producers, the second of whose blocks proposes a schedule of one of them and a newcomer. */
  function FallRun(): seq<Header>
  {
    [At(2, 12, "b", 0, None), At(3, 24, "c", 1, Some(Schedule(1, ["a", "h"]))), At(4, 36, "d", 2, None),
     At(5, 60, "b", 2, None), At(6, 72, "c", 2, None), At(7, 84, "d", 2, None), At(8, 108, "b", 2, None),
     Header(9, 8, 132, "h", 0, 1, None)]
  }

  lemma FallStart()
    ensures Reached(FourGenesis(), FallRun()[..3],
                    State4(4, 36, 2, 0, Pending(1, ["a", "h"], 3), [0, 2, 3, 4], [0, 0, 0, 0], [1, 2]))
  {
    hide Next, ScheduledProducer, State4, Reached, Run;
    var hs, settled, zeros: Row := FallRun(), Pending(0, [], 0), [0, 0, 0, 0];
    FourSlots();
    FirstReached(12, 1, 0);
    assert zeros[1 := 2] == [0, 2, 0, 0] && zeros[2 := 0] == zeros && zeros[3 := 0] == zeros;
    NextReached([hs[0]], 2, 12, 0, 0, settled, [0, 2, 0, 0], zeros, [2], 24, 2, 1, Some(Schedule(1, ["a", "h"])), 0);
    assert [0, 2, 0, 0][2 := 3] == [0, 2, 3, 0] && [hs[0]] + [hs[1]] == hs[..2];
    NextReached(hs[..2], 3, 24, 0, 0, Pending(1, ["a", "h"], 3), [0, 2, 3, 0], zeros, [1, 2], 36, 3, 2, None, 0);
    assert [0, 2, 3, 0][3 := 4] == [0, 2, 3, 4] && hs[..2] + [hs[2]] == hs[..3];
  }

  lemma FallMiddle()
    ensures Reached(FourGenesis(), FallRun()[..6],
                    State4(7, 84, 5, 2, Pending(1, ["a", "h"], 3), [0, 5, 6, 7], [0, 2, 3, 4], [1, 2]))
  {
    hide Next, ScheduledProducer, State4, Reached, Run;
    var hs, waiting := FallRun(), Pending(1, ["a", "h"], 3);
    FourSlots();
    FallStart();
    assert [0, 0, 0, 0][1 := 2] == [0, 2, 0, 0] && [0, 2, 3, 4][1 := 5] == [0, 5, 3, 4] && hs[..3] + [hs[3]] == hs[..4];
    NextReached(hs[..3], 4, 36, 2, 0, waiting, [0, 2, 3, 4], [0, 0, 0, 0], [1, 2], 60, 1, 2, None, 0);
    assert [0, 2, 0, 0][2 := 3] == [0, 2, 3, 0] && [0, 5, 3, 4][2 := 6] == [0, 5, 6, 4] && hs[..4] + [hs[4]] == hs[..5];
    NextReached(hs[..4], 5, 60, 3, 0, waiting, [0, 5, 3, 4], [0, 2, 0, 0], [1, 2], 72, 2, 2, None, 0);
    assert [0, 2, 3, 0][3 := 4] == [0, 2, 3, 4] && [0, 5, 6, 4][3 := 7] == [0, 5, 6, 7] && hs[..5] + [hs[5]] == hs[..6];
    NextReached(hs[..5], 6, 72, 4, 0, waiting, [0, 5, 6, 4], [0, 2, 3, 0], [1, 2], 84, 3, 2, None, 2);
  }

  /** The state in which the new schedule has taken over. */
  function Changed(): HeaderState
  {
    HeaderState(8, 8, 108, 6, 3, 1, ["a", "h"], Pending(1, [], 3), map["a" := 0, "h" := 3, "b" := 8],
                [Entry("a", 0), Entry("h", 3)], [1, 2])
  }

  lemma ChangeImplied()
    ensures PromotedImplied(Entries([0, 2, 3, 4]), ["a", "h"], 3, "b", 5) == [Entry("a", 0), Entry("h", 3)]
  {
    hide Put, Lookup;
    var known := Entries([0, 2, 3, 4]);
    assert ["a", "h"][..1] == ["a"] && ["a"][..0] == [];
    LookupMissing(known, "h", 3);
    LookupAt(known, 0, 3);
    PutNew([], "a", 0);
    PutNew([Entry("a", 0)], "h", 3);
    assert PromotedImplied(known, ["a"], 3, "b", 5) == [Entry("a", 0)];
  }

  lemma ChangeProduced()
    ensures PromotedProduced(Produced([0, 5, 6, 7]), ["a", "h"], 3, "b", 8) == map["a" := 0, "h" := 3, "b" := 8]
  {}

  lemma FallChanges()
    ensures Reached(FourGenesis(), FallRun()[..7], Changed())
  {
    hide Next, ScheduledProducer, Reached, Run, NextProgress, PromotedImplied, PromotedProduced, LastIrreversible;
    var hs, s := FallRun(), State4(7, 84, 5, 2, Pending(1, ["a", "h"], 3), [0, 5, 6, 7], [0, 2, 3, 4], [1, 2]);
    FourSlots();
    FallMiddle();
    FourProgress(s, hs[6]);
    assert [0, 2, 3, 4][1 := 5] == [0, 5, 3, 4];
    SecondOfFour([0, 2, 3, 4], 1, 5, 3);
    ChangeImplied();
    ChangeProduced();
    NextPromotes(s, hs[6], 3, Progress([1, 2], 6));
    ReachedNext(FourGenesis(), hs[..6], s, hs[6], Changed());
    assert hs[..6] + [hs[6]] == hs[..7];
  }

  /** Of two producers, the smaller implied block is irreversible. */
  lemma LastAccepted()
    ensures Next(Changed(), FallRun()[7]).Ok? && Next(Changed(), FallRun()[7]).value.irreversible == 0
  {
    hide NextProgress, Put, LastIrreversible;
    var s := Changed();
    assert ImpliedBlocks(s.lastImplied, "h", 6) == [0, 6];
    assert ScheduledProducer(["a", "h"], 132) == "h";
    assert LastIrreversible(s.lastImplied, "h", 6) == 0 by { SmallerOfTwo(s.lastImplied, "h", 6); }
  }

  lemma SmallerOfTwo(entries: seq<Entry>, p: AccountName, proposed: nat)
    requires |entries| == 2 && ImpliedBlocks(entries, p, proposed) == [0, proposed]
    ensures LastIrreversible(entries, p, proposed) == 0
  {
    assert [0, proposed][1..] == [proposed];
    NthAtLeast([0, proposed], 0, 1);
  }

  /** Every header of the run is accepted and sensible, and the last one lowers the irreversible number from 3 to 0. */
  lemma FallsBehindChange()
    ensures SensibleRun(FourGenesis(), FallRun()) && Run(FourGenesis(), FallRun()[..7]).Ok?
    ensures Run(FourGenesis(), FallRun()[..7]).value.state.irreversible == 3
    ensures Run(FourGenesis(), FallRun()).value.state.irreversible == 0
  {
    hide Next, Run;
    var hs := FallRun();
    FallChanges();
    LastAccepted();
    ReachedNext(FourGenesis(), hs[..7], Changed(), hs[7], Next(Changed(), hs[7]).value);
    assert hs[..7] + [hs[7]] == hs;
    ShortReachIsSensible(FourGenesis(), hs);
  }

  // ---------------------------------------------------------------- one producer

  /** A single producer has made the newest block, which is proposed irreversible. */
  predicate Sole(s: HeaderState, p: AccountName)
  {
    && s.schedule == [p] && s.pending.producers == []
    && s.proposed == s.blockNum && s.confirmCount == []
    && p in s.lastProduced && s.lastProduced[p] == s.blockNum
    && |s.lastImplied| == 1 && s.lastImplied[0].producer == p
  }

  lemma SoleProgress(proposed: nat, blockNum: nat, toConfirm: nat)
    requires toConfirm > 0
    ensures Confirmed(Tracked([], 1), proposed, blockNum, toConfirm) == Progress([], blockNum)
  {
    hide Confirmed, LastHit;
    assert Tracked([], 1) == [1];
    assert Lowered([1], 1) == [0];
    ConfirmedAt([1], proposed, blockNum, toConfirm, 1);
  }

  lemma SoleImplied(e: Entry, proposed: nat)
    ensures LastIrreversible([e], e.producer, proposed) == proposed
    ensures Put([e], e.producer, proposed) == [Entry(e.producer, proposed)]
  {
    assert ImpliedBlocks([e], e.producer, proposed) == [proposed];
    assert [proposed][1..] == [];
  }

  lemma SoleFirst(s: HeaderState, h: Header, p: AccountName)
    requires s.schedule == [p] && s.pending.producers == [p] && s.pending.libNum == 0
    requires s.lastImplied == [] && s.confirmCount == [] && s.proposed == 0
    requires Next(s, h).Ok? && h.newProducers == None
    ensures Sole(Next(s, h).value, p) && Next(s, h).value.irreversible == 0
  {
    hide Confirmed, Tracked, PromotedImplied, ScheduledProducer, MayConfirm;
    SoleProgress(0, s.blockNum + 1, h.confirmed + 1);
    ScheduledIsMember([p], BuildSlot(s, h.slot));
    ZeroTable([p], p);
  }

  lemma SoleNext(s: HeaderState, h: Header, p: AccountName)
    requires Sole(s, p) && Next(s, h).Ok? && h.newProducers == None
    ensures Sole(Next(s, h).value, p) && Next(s, h).value.irreversible == s.blockNum
  {
    hide Confirmed, Tracked, LastIrreversible, Put, PromotedImplied, ScheduledProducer, MayConfirm;
    SoleProgress(s.proposed, s.blockNum + 1, h.confirmed + 1);
    ScheduledIsMember([p], BuildSlot(s, h.slot));
    assert s.lastImplied == [s.lastImplied[0]];
    SoleImplied(s.lastImplied[0], s.proposed);
  }

  /**
   Over every accepted run of a genesis state with one producer and no new schedule, the newest block
   is proposed irreversible, and from the second block on the one before it is irreversible.
   */
  lemma {:induction false} SoleProducer(genesis: Chain, headers: seq<Header>)
    requires IsGenesis(genesis) && |genesis.state.schedule| == 1 && NoNewSchedule(headers) && Run(genesis, headers).Ok?
    ensures var s := Run(genesis, headers).value.state;
            && s.blockNum == genesis.state.blockNum + |headers|
            && (headers != [] ==>
                  && Sole(s, genesis.state.schedule[0]) && s.proposed == s.blockNum
                  && s.irreversible == if |headers| == 1 then 0 else s.blockNum - 1)
  {
    hide Next, BlockOf;
    RunNumber(genesis, headers);
    var p := genesis.state.schedule[0];
    assert genesis.state.schedule == [p];
    if |headers| == 1 {
      assert headers[..0] == [];
      SoleFirst(genesis.state, headers[0], p);
    } else if headers != [] {
      var last := |headers| - 1;
      SoleProducer(genesis, headers[..last]);
      SoleNext(Run(genesis, headers[..last]).value.state, headers[last], p);
    }
  }

  /** Such a run goes on with every header for a later slot that names its place and confirms no other block. */
  lemma SoleContinues(s: HeaderState, h: Header, p: AccountName)
    requires Sole(s, p) && h.slot > s.slot && h.previous == s.id && h.producer == p && h.version == s.version
    requires h.confirmed == 0 && h.newProducers == None
    ensures Next(s, h).Ok?
  {
    hide LastIrreversible, Accepted, ScheduledProducer;
    ScheduledIsMember([p], h.slot);
  }
}
