/**
 Which headers a header state accepts, how the accepted ones hang together, and where the
 schedules come from that produce them.
 */
module HeaderRules {
  import opened Common
  import opened HeaderStates
  import opened ProducerSlots
  import opened ProducerTables
  import opened DposQuorum

  // ------------------------------------------------------------------ acceptance

  /** A later slot, or slot zero after the last 32-bit one. */
  predicate LaterSlot(slot: nat, head: nat)
  {
    slot > head || (slot == 0 && (head + 1) % 0x1_0000_0000 == 0)
  }

  /** The producer's last block is before the first one confirmed, or the 32-bit difference wraps. */
  predicate PassesGuard(last: nat, number: nat, confirmed: nat)
  {
    last + confirmed < number || (confirmed > number && last + confirmed < number + 0x1_0000_0000)
  }

  predicate Acceptable(s: HeaderState, h: Header)
    requires s.schedule != []
  {
    && LaterSlot(h.slot, s.slot) && h.previous == s.id
    && h.producer == ExpectedProducer(s.schedule, 12, h.slot)
    && (h.producer in s.lastProduced ==> PassesGuard(s.lastProduced[h.producer], s.blockNum + 1, h.confirmed))
    && h.version == s.version
    && (h.newProducers.Some? ==>
          s.pending.producers == [] && h.newProducers.value.version == (s.version + 1) % 0x1_0000_0000)
  }

  /** A header is accepted exactly when it is in its place, by the right producer, and may propose what it proposes. */
  lemma AcceptedIff(s: HeaderState, h: Header)
    requires s.schedule != []
    ensures Next(s, h).Ok? <==> Acceptable(s, h)
  {
    hide LastIrreversible, Accepted, ExpectedProducer;
    var producer := ScheduledProducer(s.schedule, BuildSlot(s, h.slot));
    if producer in s.lastProduced { GuardIs(s.lastProduced[producer], s.blockNum + 1, h.confirmed); }
  }

  lemma GuardIs(last: nat, number: nat, confirmed: uint16)
    requires number > 0
    ensures MayConfirm(last, number - 1, confirmed) <==> PassesGuard(last, number, confirmed)
  {
    if confirmed > number { WrappedDifference(number, confirmed); }
  }

  lemma WrappedDifference(a: nat, b: uint16)
    requires a < b
    ensures (a - b) % 0x1_0000_0000 == a - b + 0x1_0000_0000
  {}

  /** What is wrong with a header that is refused for this reason. */
  predicate Faulty(s: HeaderState, h: Header, e: Error)
    requires s.schedule != []
  {
    match e
    case NotInFuture => 0 < h.slot <= s.slot
    case DoubleConfirm =>
      var p := ExpectedProducer(s.schedule, 12, if h.slot == 0 then (s.slot + 1) % 0x1_0000_0000 else h.slot);
      p in s.lastProduced && !PassesGuard(s.lastProduced[p], s.blockNum + 1, h.confirmed)
    case TimestampMismatch => h.slot == 0 && (s.slot + 1) % 0x1_0000_0000 != 0
    case PreviousMismatch => h.previous != s.id
    case WrongProducer => h.producer != ExpectedProducer(s.schedule, 12, h.slot)
    case VersionMismatch => h.version != s.version
    case PromotedInSameBlock | PendingUnconfirmed => h.newProducers.Some? && s.pending.producers != []
    case WrongNewVersion =>
      h.newProducers.Some? && h.newProducers.value.version != (s.version + 1) % 0x1_0000_0000
  }

  lemma RefusedIsFaulty(s: HeaderState, h: Header)
    requires s.schedule != [] && Next(s, h).Err?
    ensures Faulty(s, h, Next(s, h).error)
  {
    hide LastIrreversible, Accepted, ExpectedProducer;
    var producer := ScheduledProducer(s.schedule, BuildSlot(s, h.slot));
    if producer in s.lastProduced { GuardIs(s.lastProduced[producer], s.blockNum + 1, h.confirmed); }
  }

  // --------------------------------------------------------------------- linking

  /** What the state and the history keep of the headers of a run. */
  lemma {:induction false} RunHead(genesis: Chain, headers: seq<Header>)
    requires IsGenesis(genesis) && Run(genesis, headers).Ok?
    ensures var c, last := Run(genesis, headers).value, |headers| - 1;
            && |c.history| == |headers| && c.state.blockNum == genesis.state.blockNum + |headers|
            && c.state.id == (if headers == [] then genesis.state.id else headers[last].id)
            && c.state.slot == (if headers == [] then genesis.state.slot else headers[last].slot)
            && forall k | 0 <= k < |headers| ::
                 c.history[k].producer == headers[k].producer && c.history[k].confirmed == headers[k].confirmed
  {
    hide Next, Step;
    if headers != [] {
      var last := |headers| - 1;
      RunHead(genesis, headers[..last]);
      StepHead(Run(genesis, headers[..last]).value, headers[last]);
    }
  }

  lemma StepHead(c: Chain, h: Header)
    requires c.state.schedule != [] && Next(c.state, h).Ok?
    ensures var n := Step(c, h);
            && n.state.id == h.id && n.state.slot == h.slot && n.state.blockNum == c.state.blockNum + 1
            && exists required :: n.history == c.history + [Block(h.producer, h.confirmed, required)]
  {
    hide NextProgress, LastIrreversible, PromotedProduced, PromotedImplied, Put, MayConfirm, ScheduledProducer,
         RequiredConfs;
    assert BlockOf(c.state, h) == Block(h.producer, h.confirmed, RequiredConfs(|c.state.schedule|));
  }

  /**
   Over every accepted run, each header names the block before it, has a later slot, and is by the producer of
   its slot.
   */
  lemma {:induction false} RunLinked(genesis: Chain, headers: seq<Header>, k: nat)
    requires IsGenesis(genesis) && Run(genesis, headers).Ok? && k < |headers|
    ensures headers[k].previous == if k == 0 then genesis.state.id else headers[k - 1].id
    ensures LaterSlot(headers[k].slot, if k == 0 then genesis.state.slot else headers[k - 1].slot)
    ensures Run(genesis, headers[..k]).Ok?
    ensures headers[k].producer == ExpectedProducer(Run(genesis, headers[..k]).value.state.schedule, 12,
                                                    headers[k].slot)
  {
    hide Next, Step, LaterSlot, ExpectedProducer;
    var last := |headers| - 1;
    var front := headers[..last];
    if k < last {
      RunLinked(genesis, front, k);
      assert front[..k] == headers[..k];
    } else {
      RunHead(genesis, front);
      AcceptedIff(Run(genesis, front).value.state, headers[last]);
    }
  }

  // ------------------------------------------------------------------- schedules

  /** The waiting schedule takes over exactly when the block that proposed it is irreversible. */
  lemma TakeoverIff(s: HeaderState, h: Header)
    requires s.schedule != [] && Next(s, h).Ok?
    ensures var n := Next(s, h).value;
            if s.pending.producers != [] && n.irreversible >= s.pending.libNum
            then n.schedule == s.pending.producers && n.version == s.pending.version && n.pending.producers == []
            else
              && n.schedule == s.schedule && n.version == s.version
              && match h.newProducers
                 case None => n.pending == s.pending
                 case Some(p) => n.pending == Pending(p.version, p.producers, s.blockNum + 1)
  {
    hide NextProgress, LastIrreversible, PromotedProduced, PromotedImplied, Put, MayConfirm, ScheduledProducer;
  }

  /** Header k proposed the schedule, and after header j its block was irreversible. */
  predicate Adopted(genesis: Chain, headers: seq<Header>, schedule: Schedule, k: nat, j: nat)
    requires genesis.state.schedule != []
  {
    && k < j < |headers| && headers[k].newProducers == Some(schedule)
    && Run(genesis, headers[..j + 1]).Ok?
    && Run(genesis, headers[..j + 1]).value.state.irreversible >= genesis.state.blockNum + 1 + k
  }

  /** Header k proposed the schedule that is waiting. */
  predicate Waiting(genesis: Chain, headers: seq<Header>, pending: Pending, k: nat)
  {
    && k < |headers| && headers[k].newProducers == Some(Schedule(pending.version, pending.producers))
    && pending.libNum == genesis.state.blockNum + 1 + k
  }

  ghost predicate WellSourced(genesis: Chain, headers: seq<Header>, s: HeaderState)
    requires genesis.state.schedule != []
  {
    && ((s.version == 0 && s.schedule == genesis.state.schedule) ||
        exists k: nat, j: nat :: Adopted(genesis, headers, Schedule(s.version, s.schedule), k, j))
    && (s.pending.producers != [] && headers != [] ==>
          && s.pending.version == (s.version + 1) % 0x1_0000_0000
          && exists k: nat :: Waiting(genesis, headers, s.pending, k))
  }

  lemma AdoptedLater(genesis: Chain, headers: seq<Header>, h: Header, schedule: Schedule, k: nat, j: nat)
    requires genesis.state.schedule != [] && Adopted(genesis, headers, schedule, k, j)
    ensures Adopted(genesis, headers + [h], schedule, k, j)
  {
    hide Run;
    assert (headers + [h])[..j + 1] == headers[..j + 1];
  }

  lemma WaitingLater(genesis: Chain, headers: seq<Header>, h: Header, pending: Pending, k: nat)
    requires Waiting(genesis, headers, pending, k)
    ensures Waiting(genesis, headers + [h], pending, k)
  {}

  /**
   Over every accepted run, the schedule in force is the genesis one or was proposed by a header whose block
   had become irreversible when it took over, and the one waiting was proposed by a header, with the next version.
   */
  lemma {:induction false} RunSchedules(genesis: Chain, headers: seq<Header>)
    requires IsGenesis(genesis) && Run(genesis, headers).Ok?
    ensures WellSourced(genesis, headers, Run(genesis, headers).value.state)
  {
    hide Next, Step, Adopted, Waiting, WellSourced;
    if headers == [] {
      GenesisSourced(genesis);
    } else {
      var last := |headers| - 1;
      RunSchedules(genesis, headers[..last]);
      assert headers == headers[..last] + [headers[last]];
      SourcedStep(genesis, headers[..last], headers[last]);
    }
  }

  lemma GenesisSourced(genesis: Chain)
    requires IsGenesis(genesis)
    ensures WellSourced(genesis, [], genesis.state)
  {}

  lemma SourcedStep(genesis: Chain, front: seq<Header>, h: Header)
    requires IsGenesis(genesis) && Run(genesis, front).Ok?
             && WellSourced(genesis, front, Run(genesis, front).value.state)
    requires Run(genesis, front + [h]).Ok?
    ensures WellSourced(genesis, front + [h], Run(genesis, front + [h]).value.state)
  {
    hide Next, Step, Adopted, Waiting, NextVersion;
    assert (front + [h])[..|front|] == front;
    var s, n := Run(genesis, front).value.state, Run(genesis, front + [h]).value.state;
    assert Next(s, h) == Ok(n) by { StepState(Run(genesis, front).value, h); }
    TakeoverIff(s, h);
    AcceptedIff(s, h);
    RunHead(genesis, front);
    if s.pending.producers != [] && n.irreversible >= s.pending.libNum {
      if front != [] {
        var k: nat :| Waiting(genesis, front, s.pending, k);
        TakesOver(genesis, front, h, s.pending, k);
      } else {
        GenesisTakesOver(genesis);
      }
    } else {
      StaysInForce(genesis, front, h, s);
      if h.newProducers.Some? {
        assert Waiting(genesis, front + [h], n.pending, |front|) by { ProposedNow(genesis, front, h, n.pending); }
      } else if s.pending.producers != [] {
        assert front != [] by { GenesisTakesOver(genesis); }
        var k: nat :| Waiting(genesis, front, s.pending, k);
        WaitingLater(genesis, front, h, s.pending, k);
      }
    }
  }

  lemma StepState(c: Chain, h: Header)
    requires c.state.schedule != [] && Next(c.state, h).Ok?
    ensures Step(c, h).state == Next(c.state, h).value
  {}

  lemma GenesisTakesOver(genesis: Chain)
    requires IsGenesis(genesis)
    ensures Run(genesis, []) == Ok(genesis) && genesis.state.pending.libNum == 0
    ensures genesis.state.pending.producers == genesis.state.schedule && genesis.state.pending.version == 0
  {}

  lemma TakesOver(genesis: Chain, front: seq<Header>, h: Header, pending: Pending, k: nat)
    requires genesis.state.schedule != [] && Waiting(genesis, front, pending, k) && Run(genesis, front + [h]).Ok?
    requires Run(genesis, front + [h]).value.state.irreversible >= pending.libNum
    ensures Adopted(genesis, front + [h], Schedule(pending.version, pending.producers), k, |front|)
  {
    hide Run;
    assert (front + [h])[..|front| + 1] == front + [h];
  }

  lemma StaysInForce(genesis: Chain, front: seq<Header>, h: Header, s: HeaderState)
    requires genesis.state.schedule != [] && WellSourced(genesis, front, s)
    ensures (s.version == 0 && s.schedule == genesis.state.schedule) ||
            exists k: nat, j: nat :: Adopted(genesis, front + [h], Schedule(s.version, s.schedule), k, j)
  {
    hide Adopted, Waiting;
    if !(s.version == 0 && s.schedule == genesis.state.schedule) {
      var k: nat, j: nat :| Adopted(genesis, front, Schedule(s.version, s.schedule), k, j);
      AdoptedLater(genesis, front, h, Schedule(s.version, s.schedule), k, j);
    }
  }

  lemma ProposedNow(genesis: Chain, front: seq<Header>, h: Header, pending: Pending)
    requires h.newProducers == Some(Schedule(pending.version, pending.producers))
    requires pending.libNum == genesis.state.blockNum + 1 + |front|
    ensures Waiting(genesis, front + [h], pending, |front|)
  {}
}
