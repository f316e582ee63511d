/**
 Two chains that fork under one schedule. More than a third of its producers have
 confirmed both a later block that one of them makes irreversible and a later block
 that the other does.
 */
module DposForks {
  import opened Common
  import opened HeaderStates
  import opened ProducerTables
  import opened DposQuorum
  import opened DposSafety

  lemma {:induction false} SubsetSize<T>(a: set<T>, b: set<T>)
    requires a <= b
    ensures |a| <= |b|
  {
    if a != {} {
      var x :| x in a;
      SubsetSize(a - {x}, b - {x});
    }
  }

  lemma {:induction false} MembersSize(schedule: seq<AccountName>)
    ensures |Members(schedule)| <= |schedule|
  {
    if schedule != [] {
      var front, p := schedule[..|schedule| - 1], schedule[|schedule| - 1];
      MembersSize(front);
      assert Members(schedule) == Members(front) + {p};
    }
  }

  /** No other schedule is waiting. */
  predicate Settled(s: HeaderState) { s.pending.producers == s.schedule || s.pending.producers == [] }

  /** From a block of the history on, only this schedule has produced. */
  predicate OneSchedule(c: Chain, schedule: seq<AccountName>, from: nat)
  {
    && c.state.schedule == schedule && Settled(c.state)
    && forall k | from <= k < |c.history| ::
         c.history[k].producer in schedule && c.history[k].required == RequiredConfs(|schedule|)
  }

  lemma OneScheduleStep(c: Chain, schedule: seq<AccountName>, from: nat, h: Header)
    requires schedule != [] && OneSchedule(c, schedule, from) && h.newProducers == None && Next(c.state, h).Ok?
    ensures OneSchedule(Step(c, h), schedule, from)
  {
    hide NextProgress, LastIrreversible, PromotedProduced, PromotedImplied, Put, MayConfirm, ScheduledProducer,
         RequiredConfs;
    ScheduledIsMember(schedule, BuildSlot(c.state, h.slot));
  }

  lemma {:induction false} RunOneSchedule(genesis: Chain, prefix: seq<Header>, more: seq<Header>)
    requires IsGenesis(genesis) && NoNewSchedule(more) && Run(genesis, prefix + more).Ok?
    requires Run(genesis, prefix).Ok? && Settled(Run(genesis, prefix).value.state)
    ensures OneSchedule(Run(genesis, prefix + more).value, Run(genesis, prefix).value.state.schedule, |prefix|)
  {
    hide Next, Step, OneSchedule, Settled;
    var schedule := Run(genesis, prefix).value.state.schedule;
    if more == [] {
      assert prefix + more == prefix;
      RunLength(genesis, prefix);
      StartsSchedule(Run(genesis, prefix).value);
    } else {
      var last := |more| - 1;
      assert (prefix + more)[..|prefix| + last] == prefix + more[..last];
      RunOneSchedule(genesis, prefix, more[..last]);
      OneScheduleStep(Run(genesis, prefix + more[..last]).value, schedule, |prefix|, more[last]);
    }
  }

  lemma StartsSchedule(c: Chain)
    requires Settled(c.state)
    ensures OneSchedule(c, c.state.schedule, |c.history|)
  {}

  lemma ConfirmersScheduled(c: Chain, schedule: seq<AccountName>, from: nat, base: nat, b: nat)
    requires OneSchedule(c, schedule, from) && b > base + from
    ensures Confirmers(c.history, base, b) <= Members(schedule)
  {
    hide Confirmers;
    forall p | p in Confirmers(c.history, base, b) ensures p in schedule {
      var k := ConfirmerHasBlock(c.history, base, b, p);
    }
  }

  lemma QuorumsMeet(a: set<AccountName>, b: set<AccountName>, schedule: seq<AccountName>)
    requires a <= Members(schedule) && b <= Members(schedule)
    requires |a| >= RequiredConfs(|schedule|) && |b| >= RequiredConfs(|schedule|)
    ensures 3 * |a * b| > |schedule|
  {
    SubsetSize(a + b, Members(schedule));
    MembersSize(schedule);
    assert |a + b| + |a * b| == |a| + |b|;
  }

  /**
   Two runs with a common prefix and no new schedule after it, of which one has, at some point, made the
   later block b proposed irreversible or irreversible and the other b'. The current irreversible numbers
   are such numbers.
   */
  lemma SharedConfirmers(genesis: Chain, prefix: seq<Header>, more: seq<Header>, others: seq<Header>, b: nat, b': nat)
    requires SensibleRun(genesis, prefix + more) && NoNewSchedule(more)
    requires SensibleRun(genesis, prefix + others) && NoNewSchedule(others)
    requires Run(genesis, prefix).Ok? && Settled(Run(genesis, prefix).value.state)
    ensures var c, d := Run(genesis, prefix + more).value, Run(genesis, prefix + others).value;
            var base, schedule := genesis.state.blockNum, Run(genesis, prefix).value.state.schedule;
            && c.state.irreversible in Backed(c, base) && d.state.irreversible in Backed(d, base)
            && (b in Backed(c, base) && b' in Backed(d, base) && base + |prefix| < b && base + |prefix| < b' ==>
                  3 * |Confirmers(c.history, base, b) * Confirmers(d.history, base, b')| > |schedule|)
  {
    hide Run, Confirmers, RequiredConfs, AllSensible;
    RunSafe(genesis, prefix + more);
    RunSafe(genesis, prefix + others);
    RunOneSchedule(genesis, prefix, more);
    RunOneSchedule(genesis, prefix, others);
    var c, d := Run(genesis, prefix + more).value, Run(genesis, prefix + others).value;
    var base, schedule := genesis.state.blockNum, Run(genesis, prefix).value.state.schedule;
    if b in Backed(c, base) && b' in Backed(d, base) && base + |prefix| < b && base + |prefix| < b' {
      ConfirmersScheduled(c, schedule, |prefix|, base, b);
      ConfirmersScheduled(d, schedule, |prefix|, base, b');
      QuorumsMeet(Confirmers(c.history, base, b), Confirmers(d.history, base, b'), schedule);
    }
  }
}
