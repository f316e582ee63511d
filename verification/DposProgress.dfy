/**
 The other half of the quorum: a block that has its confirmations does not wait. Among the
 newest 1024 blocks, none that has its quorum is newer than the proposed irreversible one.
 */
module DposProgress {
  import opened HeaderStates
  import opened DposQuorum

  /** Every block that is newer than the proposed one and among the newest 1024 is counted. */
  predicate Windowed(c: Chain, base: nat)
  {
    var newest, counts := c.state.blockNum, |c.state.confirmCount|;
    newest - counts <= base || newest - counts <= c.state.proposed || newest - counts <= newest - 1024
  }

  lemma WindowStep(c: Chain, base: nat, h: Header)
    requires Inv(c, base) && Windowed(c, base) && Next(c.state, h).Ok?
    ensures Windowed(Step(c, h), base)
  {
    hide Next, AllRecorded, AllCounted, Quorum, Bounded, LastHit, Less, Lowered, RequiredConfs;
    ProgressIs(c, h);
  }

  lemma {:induction false} RunWindowed(genesis: Chain, headers: seq<Header>)
    requires SensibleRun(genesis, headers)
    ensures Windowed(Run(genesis, headers).value, genesis.state.blockNum)
  {
    hide Next, Step, Inv, Windowed, Sensible, AllSensible, CountFits;
    if headers == [] {
      GenesisWindowed(genesis);
    } else {
      var last := |headers| - 1;
      AllSensibleFront(genesis, headers);
      RunKeeps(genesis, headers[..last]);
      RunWindowed(genesis, headers[..last]);
      WindowStep(Run(genesis, headers[..last]).value, genesis.state.blockNum, headers[last]);
    }
  }

  lemma GenesisWindowed(genesis: Chain)
    requires IsGenesis(genesis)
    ensures Windowed(genesis, genesis.state.blockNum)
  {}

  /** A counted block has not got its quorum. */
  lemma CountedHasNoQuorum(c: Chain, base: nat, b: nat)
    requires Inv(c, base) && Windowed(c, base)
    requires base < b <= c.state.blockNum < b + 1024 && b > c.state.proposed
    ensures b - base - 1 < |c.history| && |Confirmers(c.history, base, b)| < c.history[b - base - 1].required
  {
    hide Confirmers, AllRecorded, Quorum, Bounded, Sized;
    var i := b + |c.state.confirmCount| - c.state.blockNum - 1;
    assert 0 <= i < |c.state.confirmCount|;
    assert Counted(c, base, c.state.confirmCount[i], c.state.blockNum + 1 + i - |c.state.confirmCount|);
  }

  /**
   Over every sensible run, a block of the newest 1024 that has its quorum is proposed or older than the
   proposed one.
   */
  lemma ProposedIsGreatest(genesis: Chain, headers: seq<Header>, b: nat)
    requires SensibleRun(genesis, headers) && HasQuorum(genesis, headers, b)
    requires genesis.state.blockNum + |headers| < b + 1024
    ensures b <= Run(genesis, headers).value.state.proposed
  {
    hide Run, Confirmers, Inv, AllSensible, RequiredConfs, Windowed;
    var c, base := Run(genesis, headers).value, genesis.state.blockNum;
    RunKeeps(genesis, headers);
    RunWindowed(genesis, headers);
    RunGrounded(genesis, headers);
    if b > c.state.proposed {
      CountedHasNoQuorum(c, base, b);
      PrefixSchedule(genesis, headers, b - base - 1);
      RequiredIsLeast(|Run(genesis, headers[..b - base - 1]).value.state.schedule|, |Confirmers(c.history, base, b)|);
    }
  }

  lemma {:induction false} RunTracks(genesis: Chain, headers: seq<Header>)
    requires IsGenesis(genesis) && Run(genesis, headers).Ok?
    ensures |Run(genesis, headers).value.state.confirmCount| <= 1024
  {
    if headers != [] {
      var last := |headers| - 1;
      RunTracks(genesis, headers[..last]);
      hide Next, LastHit, Less, Lowered, RequiredConfs;
      ProgressIs(Run(genesis, headers[..last]).value, headers[last]);
    }
  }

  /** Older blocks are given up: a header that moves the proposed number moves it to one of the newest 1024 blocks. */
  lemma ProposedIsRecent(genesis: Chain, headers: seq<Header>, h: Header)
    requires SensibleRun(genesis, headers) && Next(Run(genesis, headers).value.state, h).Ok?
    ensures var s := Run(genesis, headers).value.state;
            var proposed := Next(s, h).value.proposed;
            proposed == s.proposed || genesis.state.blockNum + |headers| + 1 < proposed + 1024
  {
    hide Run, Next, AllRecorded, AllCounted, Quorum, Bounded, LastHit, Less, Lowered, RequiredConfs, AllSensible;
    RunKeeps(genesis, headers);
    RunTracks(genesis, headers);
    ProgressIs(Run(genesis, headers).value, h);
  }
}
