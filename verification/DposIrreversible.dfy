/**
 The order of the numbers a header state keeps: irreversible, proposed irreversible,
 newest. Over every run the first never passes the second nor the second the third,
 the proposed number never falls, and the irreversible number falls only behind a
 change of schedule, under an exact condition.
 */
module DposIrreversible {
  import opened OrderStatistic
  import opened HeaderStates
  import opened ProducerTables
  import opened DposQuorum
  import opened DposSafety

  function UpTo(bound: nat): (s: set<nat>)
    ensures forall n: nat :: n in s <==> n <= bound
  {
    if bound == 0 then {0} else UpTo(bound - 1) + {bound}
  }

  // ------------------------------------------------------------- the invariant

  predicate Ordered(s: HeaderState)
  {
    && s.irreversible <= s.proposed
    && s.proposed + |s.confirmCount| <= s.blockNum
    && DistinctKeys(s.lastImplied) && Within(s.lastImplied, UpTo(s.proposed))
  }

  /** Every scheduled producer has an entry, or the first block is about to give it one. */
  predicate Keyed(s: HeaderState)
  {
    (s.pending.producers != [] && s.pending.libNum == 0) || Members(s.schedule) <= Keys(s.lastImplied)
  }

  /** More than two thirds of the producers imply a block irreversible exactly when the computed number reaches it. */
  lemma ReachedIff(entries: seq<Entry>, producer: AccountName, proposed: nat, w: nat)
    requires entries != []
    ensures LastIrreversible(entries, producer, proposed) >= w
            <==> 3 * CountAtLeast(ImpliedBlocks(entries, producer, proposed), w) > 2 * |entries|
  {
    hide Nth, CountAtLeast;
    NthAtLeast(ImpliedBlocks(entries, producer, proposed), (|entries| - 1) / 3, w);
  }

  /** The proposed number moves up, past every block it leaves out of the counts. */
  lemma ProgressOrdered(s: HeaderState, h: Header)
    requires s.proposed + |s.confirmCount| <= s.blockNum
    ensures s.proposed <= NextProgress(s, h).proposed
    ensures NextProgress(s, h).proposed + |NextProgress(s, h).counts| <= s.blockNum + 1
  {
    hide LastHit, Less, RequiredConfs;
  }

  /** One accepted header keeps the order and never lowers the proposed number. */
  lemma StepOrdered(s: HeaderState, h: Header)
    requires s.schedule != [] && Ordered(s) && Next(s, h).Ok?
    ensures Ordered(Next(s, h).value) && s.proposed <= Next(s, h).value.proposed
    ensures Next(s, h).value.irreversible <= s.proposed
  {
    hide NextProgress, LastIrreversible, Put, PromotedImplied, PromotedProduced, DistinctKeys, Within, MayConfirm,
         ScheduledProducer, Keys;
    StepWithin(s, h, UpTo(s.proposed));
    ProgressOrdered(s, h);
    PromotedIs(s.lastImplied, s.pending.producers, Next(s, h).value.irreversible, h.producer, s.proposed);
    PutKeys(s.lastImplied, h.producer, s.proposed);
    WithinGrows(Next(s, h).value.lastImplied, s.proposed, NextProgress(s, h).proposed);
  }

  lemma WithinGrows(entries: seq<Entry>, a: nat, b: nat)
    requires a <= b && Within(entries, UpTo(a))
    ensures Within(entries, UpTo(b))
  {}

  lemma StepKeyed(s: HeaderState, h: Header)
    requires s.schedule != [] && Ordered(s) && Keyed(s) && Next(s, h).Ok?
    ensures Members(Next(s, h).value.schedule) <= Keys(Next(s, h).value.lastImplied)
  {
    hide NextProgress, LastIrreversible, Put, PromotedImplied, PromotedProduced, DistinctKeys, Within, MayConfirm,
         ScheduledProducer, Keys;
    PromotedIs(s.lastImplied, s.pending.producers, Next(s, h).value.irreversible, h.producer, s.proposed);
    PutKeys(s.lastImplied, h.producer, s.proposed);
  }

  /** Over every accepted run: irreversible <= proposed <= newest. */
  lemma {:induction false} RunOrdered(genesis: Chain, headers: seq<Header>)
    requires IsGenesis(genesis) && Run(genesis, headers).Ok?
    ensures var s := Run(genesis, headers).value.state;
            Ordered(s) && Keyed(s) && s.irreversible <= s.proposed <= s.blockNum
  {
    hide Next, Ordered, Keyed;
    if headers == [] {
      GenesisOrdered(genesis);
    } else {
      var last := |headers| - 1;
      RunOrdered(genesis, headers[..last]);
      var s := Run(genesis, headers[..last]).value.state;
      StepOrdered(s, headers[last]);
      StepKeyed(s, headers[last]);
      OrderedMeans(Next(s, headers[last]).value);
      KeyedFrom(Next(s, headers[last]).value);
    }
  }

  lemma GenesisOrdered(genesis: Chain)
    requires IsGenesis(genesis)
    ensures Ordered(genesis.state) && Keyed(genesis.state)
  {}

  lemma OrderedMeans(s: HeaderState)
    requires Ordered(s)
    ensures s.irreversible <= s.proposed <= s.blockNum
  {}

  lemma KeyedFrom(s: HeaderState)
    requires Members(s.schedule) <= Keys(s.lastImplied)
    ensures Keyed(s)
  {}

  // ---------------------------------------------- does irreversibility advance?

  /** With the schedule unchanged, the next producer's entry can only raise what the last one left. */
  lemma SameScheduleAdvances(entries: seq<Entry>, p: AccountName, q: AccountName, first: nat, second: nat)
    requires p in Keys(entries) && DistinctKeys(entries) && Within(entries, UpTo(first)) && first <= second
    ensures LastIrreversible(entries, p, first) <= LastIrreversible(Put(entries, p, first), q, second)
  {
    hide Put, Nth, UpTo;
    PutKnown(entries, p, first);
    NthMonotone(ImpliedBlocks(entries, p, first), ImpliedBlocks(Put(entries, p, first), q, second),
                (|entries| - 1) / 3);
  }

  function ImpliedBy(e: Entry, q: AccountName, second: nat): nat { if e.producer == q then second else e.blockNum }

  /** The producers whose implied block is at least w. */
  function Reaching(entries: seq<Entry>, q: AccountName, second: nat, w: nat): set<AccountName>
  {
    set e | e in entries && ImpliedBy(e, q, second) >= w :: e.producer
  }

  lemma {:induction false} CountAppend(s: seq<nat>, x: nat, w: nat)
    ensures CountAtLeast(s + [x], w) == CountAtLeast(s, w) + if x >= w then 1 else 0
  {
    if s != [] {
      assert (s + [x])[1..] == s[1..] + [x];
      CountAppend(s[1..], x, w);
    }
  }

  /** Counting implied blocks is counting producers. */
  lemma {:induction false} CountIsSize(entries: seq<Entry>, q: AccountName, second: nat, w: nat)
    requires DistinctKeys(entries)
    ensures CountAtLeast(ImpliedBlocks(entries, q, second), w) == |Reaching(entries, q, second, w)|
  {
    hide CountAtLeast;
    var s := ImpliedBlocks(entries, q, second);
    if entries == [] {
      CountOfAll(s, w);
    } else {
      var last := |entries| - 1;
      var front := entries[..last];
      CountIsSize(front, q, second, w);
      assert s == ImpliedBlocks(front, q, second) + [s[last]];
      CountAppend(ImpliedBlocks(front, q, second), s[last], w);
      ReachingNext(entries, q, second, w);
    }
  }

  lemma ReachingNext(entries: seq<Entry>, q: AccountName, second: nat, w: nat)
    requires entries != [] && DistinctKeys(entries)
    ensures var last := |entries| - 1;
            |Reaching(entries, q, second, w)|
            == |Reaching(entries[..last], q, second, w)| + if ImpliedBy(entries[last], q, second) >= w then 1 else 0
  {
    var last := |entries| - 1;
    var front, e := entries[..last], entries[last];
    assert entries == front + [e];
    var before, after := Reaching(front, q, second, w), Reaching(entries, q, second, w);
    assert e.producer !in before by {
      assert forall d | d in front :: d.producer != e.producer;
    }
    assert after == if ImpliedBy(e, q, second) >= w then before + {e.producer} else before;
  }

  lemma TableSize(entries: seq<Entry>)
    requires DistinctKeys(entries)
    ensures |entries| == |Keys(entries)|
  {
    CountIsSize(entries, "", 0, 0);
    CountOfAll(ImpliedBlocks(entries, "", 0), 0);
    assert Reaching(entries, "", 0, 0) == Keys(entries) by {
      forall p | p in Keys(entries) ensures p in Reaching(entries, "", 0, 0) {
        var i :| 0 <= i < |entries| && entries[i].producer == p;
        assert entries[i] in entries;
      }
    }
  }

  /**
   The producers of a schedule that takes over that back the irreversible number: the two
   producing around the change, the newcomers, and those whose old entry already reaches it.
   */
  function Backers(known: seq<Entry>, schedule: seq<AccountName>, irreversible: nat, p: AccountName,
                   q: AccountName): set<AccountName>
  {
    set x | x in schedule && (x == p || x == q || Lookup(known, x, irreversible) >= irreversible)
  }

  lemma PromotedReaching(known: seq<Entry>, schedule: seq<AccountName>, irreversible: nat,
                         p: AccountName, first: nat, q: AccountName, second: nat)
    requires irreversible <= first && irreversible <= second
    ensures Reaching(PromotedImplied(known, schedule, irreversible, p, first), q, second, irreversible)
            == Backers(known, schedule, irreversible, p, q)
  {
    hide PromotedImplied, Lookup;
    PromotedIs(known, schedule, irreversible, p, first);
    var t := PromotedImplied(known, schedule, irreversible, p, first);
    forall i | 0 <= i < |t|
      ensures t[i].producer in schedule && t[i].blockNum == Starting(known, irreversible, p, first, t[i].producer)
    {
      LookupAt(t, i, 0);
      assert t[i].producer in Keys(t);
    }
    forall x | x in Backers(known, schedule, irreversible, p, q) ensures x in Reaching(t, q, second, irreversible) {
      assert x in Keys(t);
      var i :| 0 <= i < |t| && t[i].producer == x;
      assert t[i] in t;
    }
  }

  /**
   Two accepted headers in a row. The irreversible number does not fall, unless the first
   header brought in a new schedule of whose producers two thirds or less back the number.
   */
  lemma AdvancesIff(s: HeaderState, h: Header, g: Header)
    requires s.schedule != [] && Ordered(s) && Keyed(s)
    requires Next(s, h).Ok? && Next(s, h).value.schedule != [] && Next(Next(s, h).value, g).Ok?
    ensures var mid, schedule := Next(s, h).value, s.pending.producers;
            mid.irreversible <= Next(mid, g).value.irreversible
            <==> (Promotes(s, mid.irreversible) ==>
                    3 * |Backers(s.lastImplied, schedule, mid.irreversible, h.producer, g.producer)|
                    > 2 * |Members(schedule)|)
  {
    hide NextProgress, LastIrreversible, Put, PromotedImplied, PromotedProduced, DistinctKeys, Within,
         MayConfirm, ScheduledProducer, Keys, CountAtLeast, Backers, Reaching, Members;
    var mid, schedule := Next(s, h).value, s.pending.producers;
    StepOrdered(s, h);
    if Promotes(s, mid.irreversible) {
      PromotedIs(s.lastImplied, schedule, mid.irreversible, h.producer, s.proposed);
      PromotedReaching(s.lastImplied, schedule, mid.irreversible, h.producer, s.proposed, g.producer, mid.proposed);
      CountIsSize(mid.lastImplied, g.producer, mid.proposed, mid.irreversible);
      TableSize(mid.lastImplied);
      MembersNonEmpty(schedule);
      ReachedIff(mid.lastImplied, g.producer, mid.proposed, mid.irreversible);
    } else {
      ScheduledHasEntry(s, h);
      SameScheduleAdvances(s.lastImplied, h.producer, g.producer, s.proposed, mid.proposed);
    }
  }

  lemma MembersNonEmpty(schedule: seq<AccountName>)
    requires schedule != []
    ensures |Members(schedule)| > 0
  {
    assert schedule[0] in Members(schedule);
  }

  lemma ScheduledHasEntry(s: HeaderState, h: Header)
    requires s.schedule != [] && Keyed(s) && Next(s, h).Ok? && !Promotes(s, Next(s, h).value.irreversible)
    ensures h.producer in Keys(s.lastImplied)
  {
    hide NextProgress, LastIrreversible, Put, PromotedImplied, PromotedProduced, MayConfirm, ScheduledProducer, Keys;
    ScheduledIsMember(s.schedule, BuildSlot(s, h.slot));
  }
}
