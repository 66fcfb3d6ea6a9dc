/**
 Particular runs: progress of the compare-and-swap loops, and the runs that
 need the hypotheses of the theorems.
 */
module IsochRuns {
  import opened IrmRegisters
  import opened IsochAutomaton
  import opened IsochObject
  import opened IsochWorld
  import opened IsochRefund
  import opened IsochTheorems

  lemma RunOfSum(w: World, a: seq<Action>, b: seq<Action>)
    requires |w.accounts| == |w.chans|
    ensures Run(w, a + b) == Run(Run(w, a), b)
  {
    if b == [] {
      assert a + b == a;
    } else {
      var n := |b| - 1;
      assert (a + b)[..|a + b| - 1] == a + b[..n];
      RunOfSum(w, a, b[..n]);
    }
  }

  // ----- progress of the compare-and-swap loops -----

  // A step that changes the register, or gives it a new generation.
  predicate Updates(w: World, a: Action, reg: Register) {
    && Enabled(w, a)
    && match a
       case BusReset => true
       case Foreign(op) => op.reg == reg
       case Serve(i) =>
         w.chans[i].wire.op.Cas? && w.chans[i].wire.op.reg == reg && w.chans[i].wire.op.cmp == Value(w, reg)
       case _ => false
  }

  ghost predicate SomeUpdate(w: World, acts: seq<Action>, reg: Register)
    requires |w.accounts| == |w.chans|
  {
    exists k :: 0 <= k < |acts| && Updates(Run(w, acts[..k]), acts[k], reg)
  }

  lemma SomeUpdateLonger(w: World, acts: seq<Action>, n: nat, reg: Register)
    requires |w.accounts| == |w.chans| && n <= |acts| && SomeUpdate(w, acts[..n], reg)
    ensures SomeUpdate(w, acts, reg)
  {
    var k :| 0 <= k < n && Updates(Run(w, acts[..n][..k]), acts[..n][k], reg);
    assert acts[..n][..k] == acts[..k];
    assert Updates(Run(w, acts[..k]), acts[k], reg);
  }

  lemma StepChange(w: World, a: Action, reg: Register)
    requires |w.accounts| == |w.chans|
    ensures Step(w, a).gen >= w.gen
    ensures Value(Step(w, a), reg) != Value(w, reg) || Step(w, a).gen != w.gen ==> Updates(w, a, reg)
  {
  }

  // A register changes, or the generation does, only by somebody's update.
  lemma ChangeIsAnUpdate(w: World, acts: seq<Action>, reg: Register)
    requires |w.accounts| == |w.chans|
    ensures Run(w, acts).gen >= w.gen
    ensures Value(Run(w, acts), reg) != Value(w, reg) || Run(w, acts).gen != w.gen ==> SomeUpdate(w, acts, reg)
  {
    if acts != [] {
      var n := |acts| - 1;
      var w' := Run(w, acts[..n]);
      ChangeIsAnUpdate(w, acts[..n], reg);
      StepChange(w', acts[n], reg);
      if SomeUpdate(w, acts[..n], reg) {
        SomeUpdateLonger(w, acts, n, reg);
      }
    }
  }

  lemma OthersLeaveObject(w: World, acts: seq<Action>, i: nat)
    requires |w.accounts| == |w.chans| && i < |w.chans|
    requires forall k :: 0 <= k < |acts| ==> !acts[k].Of(i)
    ensures Run(w, acts).chans[i] == w.chans[i]
  {
    if acts != [] {
      OthersLeaveObject(w, acts[..|acts| - 1], i);
    }
  }

  // The next compare value of a loop is the value just read.
  lemma NextCompareIsLastRead(ch: Channel, gen: nat)
    requires Shape(ch, gen) && ch.wire.Answered? && !ch.wire.Landed()
    requires ch.pc.Reallocating() || ch.pc.Releasing()
    ensures var op := Resume(ch, gen).wire;
            op.Sent? && op.op.Cas? && op.op.reg == ch.wire.op.reg ==> op.op.cmp == ch.wire.old_
  {
  }

  // One turn of a retry loop: the register is read (by a read, or by a
  // compare-and-swap that missed), others run, the new value is computed,
  // others run again, and the compare-and-swap reaches the responder.
  function BeforeSwap(w: World, i: nat, b: seq<Action>, c: seq<Action>): World
    requires |w.accounts| == |w.chans|
  {
    Run(Step(Run(Step(w, Serve(i)), b), Proceed(i)), c)
  }

  // If the turn's compare-and-swap misses, somebody else updated the register
  // (or reset the bus) during the turn.
  lemma FailedTurnIsAnothersProgress(w: World, i: nat, b: seq<Action>, c: seq<Action>)
    requires SoundWorld(w) && Enabled(w, Serve(i))
    requires w.chans[i].pc.Reallocating() || w.chans[i].pc.Releasing()
    requires forall k :: 0 <= k < |b| ==> !b[k].Of(i)
    requires forall k :: 0 <= k < |c| ==> !c[k].Of(i)
    requires var w' := BeforeSwap(w, i, b, c);
             && Enabled(w', Serve(i)) && w'.chans[i].wire.op.Cas?
             && w'.chans[i].wire.op.reg == w.chans[i].wire.op.reg
             && !Step(w', Serve(i)).chans[i].wire.Landed()
    requires !Step(w, Serve(i)).chans[i].wire.Landed()
    ensures var reg := w.chans[i].wire.op.reg;
            var w1 := Step(w, Serve(i));
            SomeUpdate(w1, b, reg) || SomeUpdate(Step(Run(w1, b), Proceed(i)), c, reg)
  {
    var reg := w.chans[i].wire.op.reg;
    var w1 := Step(w, Serve(i));
    var w2 := Run(w1, b);
    var w3 := Step(w2, Proceed(i));
    var w4 := Run(w3, c);
    OthersLeaveObject(w1, b, i);
    OthersLeaveObject(w3, c, i);
    ChangeIsAnUpdate(w1, b, reg);
    ChangeIsAnUpdate(w3, c, reg);
    FirstRead(w, i);
    ProceedIsLocal(w2, i);
    NextCompareIsLastRead(w1.chans[i], w2.gen);
    MissedSwap(w4, i);
  }

  lemma ProceedIsLocal(w: World, i: nat)
    requires |w.accounts| == |w.chans| && Enabled(w, Proceed(i))
    ensures var w' := Step(w, Proceed(i));
            w'.chans[i] == Resume(w.chans[i], w.gen) && w'.gen == w.gen && forall reg :: Value(w', reg) == Value(w, reg)
  {
  }

  lemma MissedSwap(w: World, i: nat)
    requires |w.accounts| == |w.chans| && Enabled(w, Serve(i)) && w.chans[i].wire.op.Cas?
    requires !Step(w, Serve(i)).chans[i].wire.Landed()
    ensures w.chans[i].wire.op.cmp != Value(w, w.chans[i].wire.op.reg)
  {
  }

  lemma FirstRead(w: World, i: nat)
    requires SoundWorld(w) && Enabled(w, Serve(i))
    ensures var w1 := Step(w, Serve(i));
            && w1.chans[i].wire.Answered? && w1.chans[i].pc == w.chans[i].pc && w1.gen == w.gen
            && w1.chans[i].wire.old_ == Value(w, w.chans[i].wire.op.reg)
            && (!w1.chans[i].wire.Landed() ==> Value(w1, w.chans[i].wire.op.reg) == w1.chans[i].wire.old_)
            && forall gen :: gen >= w.gen ==> Shape(w1.chans[i], gen)
  {
    ServeSound(w, i);
    ServeBooks(w, i);
    assert Sound(Step(w, Serve(i)).chans[i], w.gen, Step(w, Serve(i)).accounts[i]);
  }

  // ----- allocation with nobody else on the bus -----

  function ClaimedChannel(w: World, job: Job): nat
    requires job.allowed * (w.hi + w.lo) != {}
  {
    Lowest(job.allowed * (w.hi + w.lo))
  }

  // Sample the generation and read the three registers.
  function ReadAlone(w: World, i: nat, job: Job): World
    requires |w.accounts| == |w.chans|
  {
    Transact(Transact(Transact(Step(Step(w, Allocate(i, job)), Sample(i)), i), i), i)
  }

  lemma SetTwice(w: World, i: nat, a: Channel, b: Channel)
    requires i < |w.chans|
    ensures SetChannel(SetChannel(w, i, a), i, b) == SetChannel(w, i, b)
  {
    assert w.chans[i := a][i := b] == w.chans[i := b];
  }

  lemma ReadStep(w: World, i: nat, ch: Channel, job: Job, got: seq<Word>)
    requires Books(w) && i < |w.chans| && |got| < 2
    requires forall k :: 0 <= k < |got| ==> Fits(AllocReadRegister(k), got[k])
    ensures Transact(SetChannel(w, i, ch.At(AllocRead(w.gen, job, got), Sent(Read(AllocReadRegister(|got|))))), i) ==
            SetChannel(w, i, ch.At(AllocRead(w.gen, job, got + [Value(w, AllocReadRegister(|got|))]),
                                   Sent(Read(AllocReadRegister(|got| + 1)))))
  {
    var w1 := SetChannel(w, i, ch.At(AllocRead(w.gen, job, got), Sent(Read(AllocReadRegister(|got|)))));
    TransactRead(w1, i);
    SetTwice(w, i, w1.chans[i], Resume(AfterAnswer(w1, i), w.gen));
  }

  lemma LastReadStep(w: World, i: nat, ch: Channel, job: Job)
    requires Books(w) && i < |w.chans|
    ensures var got := [Units(w.bandwidth), Bits(w.hi)];
            Transact(SetChannel(w, i, ch.At(AllocRead(w.gen, job, got), Sent(Read(ChannelsLo)))), i) ==
            SetChannel(w, i, AllocAfterRead(ch.At(AllocRead(w.gen, job, got), Answered(Read(ChannelsLo), Bits(w.lo))),
                                            w.gen, w.gen, job, w.bandwidth, w.hi, w.lo))
  {
    var got := [Units(w.bandwidth), Bits(w.hi)];
    var w1 := SetChannel(w, i, ch.At(AllocRead(w.gen, job, got), Sent(Read(ChannelsLo))));
    TransactRead(w1, i);
    SetTwice(w, i, w1.chans[i], Resume(AfterAnswer(w1, i), w.gen));
  }

  lemma SampleIs(w: World, i: nat, job: Job)
    requires Books(w) && Enabled(w, Allocate(i, job))
    ensures Step(Step(w, Allocate(i, job)), Sample(i)) ==
            SetChannel(w, i, w.chans[i].At(AllocRead(w.gen, job, []), Sent(Read(BandwidthAvailable))))
  {
    var ch := w.chans[i];
    SetTwice(w, i, ch.At(AllocStart(job), Quiet), ch.At(AllocRead(w.gen, job, []), Sent(Read(BandwidthAvailable))));
  }

  lemma ReadAloneIs(w: World, i: nat, job: Job)
    requires Books(w) && Enabled(w, Allocate(i, job)) && w.chans[i].Empty() && job.want <= w.bandwidth
    ensures ReadAlone(w, i, job) ==
            SetChannel(w, i, Channel(0, NO_CHANNEL, w.chans[i].fGeneration, AllocBandwidth(w.gen, job, w.hi, w.lo),
                                     Sent(Cas(BandwidthAvailable, Units(w.bandwidth), Units(w.bandwidth - job.want)))))
  {
    hide Books, Transact, Step;
    var ch := w.chans[i];
    SampleIs(w, i, job);
    ReadStep(w, i, ch, job, []);
    assert [] + [Units(w.bandwidth)] == [Units(w.bandwidth)];
    ReadStep(w, i, ch, job, [Units(w.bandwidth)]);
    assert [Units(w.bandwidth)] + [Bits(w.hi)] == [Units(w.bandwidth), Bits(w.hi)];
    LastReadStep(w, i, ch, job);
  }

  // The bandwidth swap, and what follows it.
  function ClaimAlone(w: World, i: nat, job: Job): World
    requires |w.accounts| == |w.chans|
  {
    Transact(ReadAlone(w, i, job), i)
  }

  lemma ClaimStep(w: World, i: nat, ch: Channel, job: Job)
    requires Books(w) && i < |w.chans| && job.want <= w.bandwidth
    requires ch.pc == AllocBandwidth(w.gen, job, w.hi, w.lo)
    requires ch.wire == Sent(Cas(BandwidthAvailable, Units(w.bandwidth), Units(w.bandwidth - job.want)))
    ensures var answered := Answer(ch, Units(w.bandwidth)).(fBandwidth := job.want);
            Transact(SetChannel(w, i, ch), i) ==
            SetChannel(w, i, AllocClaimChannel(answered, w.gen, w.gen, job, w.hi, w.lo)).(
              bandwidth := w.bandwidth - job.want,
              accounts := w.accounts[i := w.accounts[i].(units := w.accounts[i].units + job.want)])
  {
    var w1 := SetChannel(w, i, ch);
    TransactSwap(w1, i);
    SetTwice(w, i, ch, Resume(AfterAnswer(w1, i), w.gen));
  }

  lemma ClaimAloneIs(w: World, i: nat, job: Job)
    requires Books(w) && Enabled(w, Allocate(i, job)) && w.chans[i].Empty() && job.want <= w.bandwidth
    ensures var w' := ClaimAlone(w, i, job);
            && w'.bandwidth == w.bandwidth - job.want
            && w'.accounts == w.accounts[i := w.accounts[i].(units := w.accounts[i].units + job.want)]
            && w' == w.(bandwidth := w'.bandwidth, accounts := w'.accounts, chans := w'.chans)
            && exists wire :: w'.chans == w.chans[i := AllocClaimChannel(
                 Channel(job.want, NO_CHANNEL, w.chans[i].fGeneration, AllocBandwidth(w.gen, job, w.hi, w.lo), wire),
                 w.gen, w.gen, job, w.hi, w.lo)]
  {
    ReadAloneIs(w, i, job);
    ClaimStep(w, i, ReadAlone(w, i, job).chans[i], job);
  }

  // With bandwidth and an allowed channel free, the call succeeds at once and
  // takes the lowest allowed free channel.
  lemma AllocationSucceeds(w: World, i: nat, job: Job)
    requires Books(w) && Enabled(w, Allocate(i, job)) && w.chans[i].Empty() && job.want <= w.bandwidth
    requires job.allowed * (w.hi + w.lo) != {}
    ensures var c, acc := ClaimedChannel(w, job), w.accounts[i];
            Transact(ClaimAlone(w, i, job), i) ==
            w.(bandwidth := w.bandwidth - job.want, hi := w.hi - {c}, lo := w.lo - {c},
               chans := w.chans[i := Channel(job.want, c, w.gen, Idle, Quiet)],
               accounts := w.accounts[i := acc.(units := acc.units + job.want, channels := acc.channels + {c})])
  {
    assert |w.accounts| == |w.chans| && i < |w.chans|;
    hide *;
    ClaimedIs(w, i, job);
    ClaimBooks(w, i, job);
    ThenSwap(w, i, job, job.allowed * (w.hi + w.lo), ClaimedChannel(w, job), ClaimAlone(w, i, job));
  }

  // The bandwidth is claimed in w1; now the channel is, which is free.
  lemma ThenSwap(w: World, i: nat, job: Job, masked: set<nat>, c: nat, w1: World)
    requires i < |w.chans| == |w.accounts| && job.want <= w.bandwidth && c in w.hi + w.lo && Books(w1)
    requires var word := if c < 32 then w.hi else w.lo;
             w1 == SetChannel(w, i, Channel(job.want, NO_CHANNEL, w.chans[i].fGeneration,
                                            AllocChannel(w.gen, Job(job.want, masked), c),
                                            Sent(Cas(ChannelRegister(c), Bits(word), Bits(word - {c}))))).(
                     bandwidth := w.bandwidth - job.want,
                     accounts := w.accounts[i := w.accounts[i].(units := w.accounts[i].units + job.want)])
    ensures var acc := w.accounts[i];
            Transact(w1, i) ==
            w.(bandwidth := w.bandwidth - job.want, hi := w.hi - {c}, lo := w.lo - {c},
               chans := w.chans[i := Channel(job.want, c, w.gen, Idle, Quiet)],
               accounts := w.accounts[i := acc.(units := acc.units + job.want, channels := acc.channels + {c})])
  {
    hide Transact, Books;
    ChannelSwap(w1, i, Job(job.want, masked), c);
  }

  lemma ClaimedIs(w: World, i: nat, job: Job)
    requires Books(w) && Enabled(w, Allocate(i, job)) && w.chans[i].Empty() && job.want <= w.bandwidth
    requires job.allowed * (w.hi + w.lo) != {}
    ensures var c, w' := ClaimedChannel(w, job), ClaimAlone(w, i, job);
            var word := if c < 32 then w.hi else w.lo;
            && c in w.hi + w.lo
            && w' == SetChannel(w, i, Channel(job.want, NO_CHANNEL, w.chans[i].fGeneration,
                                              AllocChannel(w.gen, Job(job.want, job.allowed * (w.hi + w.lo)), c),
                                              Sent(Cas(ChannelRegister(c), Bits(word), Bits(word - {c}))))).(
                       bandwidth := w.bandwidth - job.want,
                       accounts := w.accounts[i := w.accounts[i].(units := w.accounts[i].units + job.want)])
  {
    hide ClaimAlone, Books;
    ClaimAloneIs(w, i, job);
  }

  // The swap for a channel that is free.
  lemma ChannelSwap(w: World, i: nat, job: Job, c: nat)
    requires Books(w) && i < |w.chans| && c in w.hi + w.lo
    requires w.chans[i].pc == AllocChannel(w.gen, job, c)
    requires var word := if c < 32 then w.hi else w.lo;
             w.chans[i].wire == Sent(Cas(ChannelRegister(c), Bits(word), Bits(word - {c})))
    ensures var acc := w.accounts[i];
            Transact(w, i) == w.(hi := w.hi - {c}, lo := w.lo - {c},
                                 chans := w.chans[i := Channel(w.chans[i].fBandwidth, c, w.gen, Idle, Quiet)],
                                 accounts := w.accounts[i := acc.(channels := acc.channels + {c})])
  {
    var word := if c < 32 then w.hi else w.lo;
    assert Fits(ChannelsHi, Bits(w.hi)) && Fits(ChannelsLo, Bits(w.lo));
    TransactSwap(w, i);
    OneTaken(w.accounts[i], word, c);
  }

  // The account after a swap that takes one free channel.
  lemma OneTaken(acc: Account, word: set<nat>, c: nat)
    requires c in word
    ensures forall reg :: Charged(acc, Cas(reg, Bits(word), Bits(word - {c}))) == acc.(channels := acc.channels + {c})
  {
    assert acc.channels - ((word - {c}) - word) + (word - (word - {c})) == acc.channels + {c};
  }

  lemma ClaimBooks(w: World, i: nat, job: Job)
    requires Books(w) && Enabled(w, Allocate(i, job)) && w.chans[i].Empty() && job.want <= w.bandwidth
    ensures Books(ClaimAlone(w, i, job))
  {
    ClaimAloneIs(w, i, job);
    SumUpdate(w.accounts, i, ClaimAlone(w, i, job).accounts[i]);
  }

  // ----- reallocation with nobody else on the bus -----

  function ReallocBandwidthAlone(w: World, i: nat): World
    requires |w.accounts| == |w.chans|
  {
    var w1 := Step(w, Realloc(i, w.gen));
    if i < |w1.chans| && w1.chans[i].pc.ReallocReadBandwidth? then
      var w2 := Transact(w1, i);
      if w2.chans[i].pc.ReallocSwapBandwidth? then Transact(w2, i) else w2
    else
      w1
  }

  function ReallocChannelAlone(w: World, i: nat): World
    requires |w.accounts| == |w.chans|
  {
    if i < |w.chans| && w.chans[i].pc.ReallocReadChannel? then
      var w1 := Transact(w, i);
      if w1.chans[i].pc.ReallocSwapChannel? then Transact(w1, i) else w1
    else
      w
  }

  function ReallocateAlone(w: World, i: nat): World
    requires |w.accounts| == |w.chans|
  {
    ReallocChannelAlone(ReallocBandwidthAlone(w, i), i)
  }

  // The object is at rest with what it held before the bus reset.
  predicate Survived(w: World, i: nat) {
    i < |w.chans| && Shape(w.chans[i], w.gen) && w.chans[i].pc.Idle? && w.chans[i].fGeneration != w.gen
  }

  // The object with its bandwidth claimed again, if it had any: it goes on to
  // the channel, or is done.
  function AtChannel(ch: Channel, gen: nat): Channel {
    if ch.fChannel == NO_CHANNEL then Channel(ch.fBandwidth, NO_CHANNEL, gen, Idle, Quiet)
    else ch.At(ReallocReadChannel(gen), Sent(Read(ChannelRegister(ch.fChannel))))
  }

  lemma ReallocStarts(w: World, i: nat)
    requires Books(w) && Survived(w, i)
    ensures var ch, w1 := w.chans[i], Step(w, Realloc(i, w.gen));
            && w1 == SetChannel(w, i, w1.chans[i]) && Shape(w1.chans[i], w.gen)
            && w1.chans[i] == if ch.fBandwidth == 0 then AtChannel(ch, w.gen)
                              else ch.At(ReallocReadBandwidth(w.gen), Sent(Read(BandwidthAvailable)))
  {
    assert w.accounts[i := w.accounts[i]] == w.accounts;
  }

  // The register's part: all of fBandwidth or, if that is not there, nothing.
  lemma ReallocUnitsPart(w: World, i: nat)
    requires Books(w) && i < |w.chans| && Shape(w.chans[i], w.gen)
    requires w.chans[i].pc == ReallocReadBandwidth(w.gen) && w.chans[i].wire.Sent?
    ensures var ch, w1 := w.chans[i], Transact(w, i);
            if w.bandwidth < ch.fBandwidth then
              w1 == SetChannel(w, i, Channel(0, NO_CHANNEL, w.gen, Idle, Quiet))
            else
              && w1.chans[i].pc.ReallocSwapBandwidth?
              && Transact(w1, i) == SetChannel(w, i, AtChannel(ch, w.gen)).(
                   bandwidth := w.bandwidth - ch.fBandwidth,
                   accounts := w.accounts[i := w.accounts[i].(units := w.accounts[i].units + ch.fBandwidth)])
  {
    TransactRead(w, i);
    if w.chans[i].fBandwidth <= w.bandwidth {
      TransactSwap(Transact(w, i), i);
    }
  }

  // The channel's part: its bit or, if that is not one, nothing.
  lemma ReallocChannelLast(w: World, i: nat)
    requires Books(w) && i < |w.chans| && Shape(w.chans[i], w.gen)
    requires w.chans[i].pc == ReallocReadChannel(w.gen) && w.chans[i].wire.Sent?
    ensures var ch, acc, w' := w.chans[i], w.accounts[i], ReallocChannelAlone(w, i);
            if ch.fChannel !in w.hi + w.lo then
              w' == SetChannel(w, i, Channel(ch.fBandwidth, NO_CHANNEL, w.gen, Idle, Quiet))
            else
              w' == SetChannel(w, i, Channel(ch.fBandwidth, ch.fChannel, w.gen, Idle, Quiet)).(
                      hi := w.hi - {ch.fChannel}, lo := w.lo - {ch.fChannel},
                      accounts := w.accounts[i := acc.(channels := acc.channels + {ch.fChannel})])
  {
    var c := w.chans[i].fChannel;
    assert Fits(ChannelsHi, Bits(w.hi)) && Fits(ChannelsLo, Bits(w.lo));
    TransactRead(w, i);
    if c in w.hi + w.lo {
      var word, acc := if c < 32 then w.hi else w.lo, w.accounts[i];
      assert acc.channels - ((word - {c}) - word) + (word - (word - {c})) == acc.channels + {c};
      TransactSwap(Transact(w, i), i);
    }
  }

  lemma TakenBooks(w: World, i: nat, units: nat, ch: Channel)
    requires Books(w) && i < |w.chans| && units <= w.bandwidth
    ensures Books(SetChannel(w, i, ch).(
              bandwidth := w.bandwidth - units,
              accounts := w.accounts[i := w.accounts[i].(units := w.accounts[i].units + units)]))
  {
    SumUpdate(w.accounts, i, w.accounts[i].(units := w.accounts[i].units + units));
  }

  lemma ReallocBandwidthFirst(w: World, i: nat)
    requires Books(w) && Survived(w, i)
    ensures var ch, w2 := w.chans[i], ReallocBandwidthAlone(w, i);
            if w.bandwidth < ch.fBandwidth then
              w2 == SetChannel(w, i, Channel(0, NO_CHANNEL, w.gen, Idle, Quiet))
            else
              w2 == SetChannel(w, i, AtChannel(ch, w.gen)).(
                      bandwidth := w.bandwidth - ch.fBandwidth,
                      accounts := w.accounts[i := w.accounts[i].(units := w.accounts[i].units + ch.fBandwidth)])
  {
    ReallocStarts(w, i);
    var ch, w1 := w.chans[i], Step(w, Realloc(i, w.gen));
    RelabelBooks(w, i, w1.chans[i], w.accounts[i]);
    assert w.accounts[i := w.accounts[i]] == w.accounts && |w.accounts| == |w.chans|;
    hide Transact, Books, Step;
    if ch.fBandwidth != 0 {
      ReallocUnitsPart(w1, i);
      if ch.fBandwidth <= w.bandwidth {
        SetTwice(w, i, w1.chans[i], AtChannel(ch, w.gen));
      }
    }
  }

  lemma ThenChannel(w: World, i: nat, w2: World)
    requires Books(w) && Survived(w, i) && w.chans[i].fBandwidth <= w.bandwidth && w.chans[i].fChannel != NO_CHANNEL
    requires var ch, acc := w.chans[i], w.accounts[i];
             w2 == SetChannel(w, i, AtChannel(ch, w.gen)).(
                     bandwidth := w.bandwidth - ch.fBandwidth,
                     accounts := w.accounts[i := acc.(units := acc.units + ch.fBandwidth)])
    ensures var ch, acc, w' := w.chans[i], w.accounts[i], ReallocChannelAlone(w2, i);
            if ch.fChannel !in w.hi + w.lo then
              w' == w2.(chans := w.chans[i := Channel(ch.fBandwidth, NO_CHANNEL, w.gen, Idle, Quiet)])
            else
              w' == w2.(hi := w.hi - {ch.fChannel}, lo := w.lo - {ch.fChannel},
                        chans := w.chans[i := Channel(ch.fBandwidth, ch.fChannel, w.gen, Idle, Quiet)],
                        accounts := w.accounts[i := acc.(units := acc.units + ch.fBandwidth,
                                                         channels := acc.channels + {ch.fChannel})])
  {
    TakenBooks(w, i, w.chans[i].fBandwidth, AtChannel(w.chans[i], w.gen));
    hide Transact, Books, ReallocChannelAlone;
    ReallocChannelLast(w2, i);
  }

  // With nobody else on the bus, reallocBandwidth takes the bandwidth and the
  // channel again: neither if the bandwidth is not there, the bandwidth alone
  // if the channel is not free, both otherwise.
  lemma ReallocationTakes(w: World, i: nat)
    requires Books(w) && Survived(w, i)
    ensures var ch, acc, w' := w.chans[i], w.accounts[i], ReallocateAlone(w, i);
            if w.bandwidth < ch.fBandwidth then
              w' == w.(chans := w.chans[i := Channel(0, NO_CHANNEL, w.gen, Idle, Quiet)])
            else if ch.fChannel != NO_CHANNEL && ch.fChannel !in w.hi + w.lo then
              w' == w.(bandwidth := w.bandwidth - ch.fBandwidth,
                       chans := w.chans[i := Channel(ch.fBandwidth, NO_CHANNEL, w.gen, Idle, Quiet)],
                       accounts := w.accounts[i := acc.(units := acc.units + ch.fBandwidth)])
            else
              w' == w.(bandwidth := w.bandwidth - ch.fBandwidth, hi := w.hi - {ch.fChannel}, lo := w.lo - {ch.fChannel},
                       chans := w.chans[i := Channel(ch.fBandwidth, ch.fChannel, w.gen, Idle, Quiet)],
                       accounts := w.accounts[i := acc.(units := acc.units + ch.fBandwidth,
                                                        channels := acc.channels + Held(ch))])
  {
    var ch, w2 := w.chans[i], ReallocBandwidthAlone(w, i);
    assert w.hi - {NO_CHANNEL} == w.hi && w.lo - {NO_CHANNEL} == w.lo;
    assert w.accounts[i].channels + {} == w.accounts[i].channels && |w.accounts| == |w.chans|;
    ReallocBandwidthFirst(w, i);
    if ch.fBandwidth <= w.bandwidth && ch.fChannel != NO_CHANNEL {
      ThenChannel(w, i, w2);
    }
  }

  // ----- runs that need the hypotheses -----

  // The actions take w0 to w; calm says that none is a reset, an error or a
  // foreign node's.
  ghost predicate Reaches(w0: World, acts: seq<Action>, w: World, calm: bool) {
    && |w0.accounts| == |w0.chans|
    && Run(w0, acts) == w
    && (calm ==> forall k :: 0 <= k < |acts| ==> !acts[k].Foreign? && !acts[k].BusReset? && !acts[k].Break?)
  }

  lemma Then(w0: World, acts: seq<Action>, w: World, calm: bool, a: Action)
    requires Reaches(w0, acts, w, calm) && (calm ==> !a.Foreign? && !a.BusReset? && !a.Break?)
    ensures Reaches(w0, acts + [a], Step(w, a), calm)
  {
    assert (acts + [a])[..|acts + [a]| - 1] == acts;
  }

  lemma ThenTransact(w0: World, acts: seq<Action>, w: World, calm: bool, i: nat)
    requires Reaches(w0, acts, w, calm)
    ensures Reaches(w0, acts + [Serve(i)] + [Proceed(i)], Transact(w, i), calm)
  {
    Then(w0, acts, w, calm, Serve(i));
    Then(w0, acts + [Serve(i)], Step(w, Serve(i)), calm, Proceed(i));
  }

  lemma ThenClaim(w0: World, acts: seq<Action>, w: World, calm: bool, i: nat, job: Job) returns (acts': seq<Action>)
    requires Reaches(w0, acts, w, calm)
    ensures Reaches(w0, acts', ClaimAlone(w, i, job), calm)
  {
    Then(w0, acts, w, calm, Allocate(i, job));
    acts' := acts + [Allocate(i, job)];
    Then(w0, acts', Step(w, Allocate(i, job)), calm, Sample(i));
    acts' := acts' + [Sample(i)];
    var w' := Step(Step(w, Allocate(i, job)), Sample(i));
    ThenTransact(w0, acts', w', calm, i);
    acts' := acts' + [Serve(i)] + [Proceed(i)];
    ThenTransact(w0, acts', Transact(w', i), calm, i);
    acts' := acts' + [Serve(i)] + [Proceed(i)];
    ThenTransact(w0, acts', Transact(Transact(w', i), i), calm, i);
    acts' := acts' + [Serve(i)] + [Proceed(i)];
    ThenTransact(w0, acts', ReadAlone(w, i, job), calm, i);
    acts' := acts' + [Serve(i)] + [Proceed(i)];
  }

  // A bus on which n objects have just been made, in generation gen.
  function FreshWorld(gen: nat, n: nat): World {
    World(gen, INITIAL_BANDWIDTH, AllHi(), AllLo(),
          seq(n, k => Channel(0, NO_CHANNEL, 0, Idle, Quiet)), seq(n, k => CLEAN), CLEAN)
  }

  lemma FreshIsInitial(gen: nat, n: nat)
    ensures Initial(FreshWorld(gen, n)) && Books(FreshWorld(gen, n))
    ensures Reaches(FreshWorld(gen, n), [], FreshWorld(gen, n), true)
  {
    InitialExact(FreshWorld(gen, n));
  }

  // A claim on behalf of ports that allow no channel: the bandwidth is claimed
  // and refunded, and the object keeps the number.
  lemma ThenClaimInVain(w0: World, acts: seq<Action>, w: World, calm: bool, want: nat)
    returns (acts': seq<Action>, w': World)
    requires Reaches(w0, acts, w, calm) && |w.chans| == 1 && Books(w)
    requires Enabled(w, Allocate(0, Job(want, {}))) && w.chans[0].Empty() && 0 < want <= w.bandwidth < TWO_TO_32
    ensures Reaches(w0, acts', w', calm) && |w'.chans| == 1 && w'.gen == w.gen && w'.bandwidth == w.bandwidth
    ensures w'.chans[0].pc.Idle? && w'.chans[0].fBandwidth == want && w'.chans[0].fGeneration == w.chans[0].fGeneration
    ensures w'.chans[0].fChannel == NO_CHANNEL && w'.chans[0].wire.Quiet? && Books(w')
  {
    var job := Job(want, {});
    ClaimAloneIs(w, 0, job);
    ClaimBooks(w, 0, job);
    acts' := ThenClaim(w0, acts, w, calm, 0, job);
    w' := ClaimAlone(w, 0, job);
    assert job.allowed * (w.hi + w.lo) == {};
    assert w'.chans[0].pc == Refund(w.gen, job, 2, false) && w'.chans[0].wire == Sent(RefundOp(0, want));
    RefundIsComplete(w', 0);
    SumUpdate(w'.accounts, 0, w'.accounts[0].(units := w'.accounts[0].units - want));
    ThenTransact(w0, acts', w', calm, 0);
    acts' := acts' + [Serve(0)] + [Proceed(0)];
    w' := Transact(w', 0);
    if w'.chans[0].pc.Refund? {
      ThenTransact(w0, acts', w', calm, 0);
      acts' := acts' + [Serve(0)] + [Proceed(0)];
      w' := Transact(w', 0);
    }
  }

  // Releasing an object that holds nothing stores the current generation.
  function ReleasedFresh(gen: nat): World {
    Step(FreshWorld(gen, 1), Release(0))
  }

  lemma ReleaseOfEmpty(w: World)
    requires Books(w) && |w.chans| == 1 && w.chans[0].pc.Idle? && w.chans[0].fGeneration != w.gen
    ensures var w' := Step(w, Release(0));
            Books(w') && w' == SetChannel(w, 0, Channel(0, NO_CHANNEL, w.gen, Idle, Quiet))
  {
  }

  lemma ReleasedFreshIs(gen: nat)
    requires gen > 0
    ensures var w := ReleasedFresh(gen);
            Books(w) && |w.chans| == 1 && w.gen == gen && w.bandwidth == INITIAL_BANDWIDTH
            && w.chans[0] == Channel(0, NO_CHANNEL, gen, Idle, Quiet)
  {
    FreshIsInitial(gen, 1);
    ReleaseOfEmpty(FreshWorld(gen, 1));
  }

  // One object, no resets, no errors, nobody else on the bus: the register
  // ends above its reset value.
  lemma BandwidthReturnedTwice(gen: nat, want: nat) returns (acts: seq<Action>)
    requires gen > 0 && 0 < want <= INITIAL_BANDWIDTH
    ensures Initial(FreshWorld(gen, 1))
    ensures forall k :: 0 <= k < |acts| ==> !acts[k].Foreign? && !acts[k].BusReset? && !acts[k].Break?
    ensures Run(FreshWorld(gen, 1), acts).bandwidth == INITIAL_BANDWIDTH + want
  {
    hide Step, Books, Run, Initial;
    var w0 := FreshWorld(gen, 1);
    FreshIsInitial(gen, 1);
    Then(w0, [], w0, true, Release(0));
    var w1 := ReleasedFresh(gen);
    ReleasedFreshIs(gen);
    var w2;
    acts, w2 := ThenClaimInVain(w0, [] + [Release(0)], w1, true, want);
    ReleaseReturnsWhatIsHeld(w2, 0);
    acts := ThenRelease(w0, acts, w2, true, 0);
  }

  lemma ThenRelease(w0: World, acts: seq<Action>, w: World, calm: bool, i: nat) returns (acts': seq<Action>)
    requires Reaches(w0, acts, w, calm) && |w.accounts| == |w.chans|
    ensures Reaches(w0, acts', ReleaseAlone(w, i), calm)
  {
    hide Run, Step;
    Then(w0, acts, w, calm, Release(i));
    acts' := acts + [Release(i)];
    var w1 := Step(w, Release(i));
    if i < |w1.chans| && w1.chans[i].pc.ReleaseReadBandwidth? {
      acts' := ThenTwice(w0, acts', w1, calm, i);
    }
    var w2 := ReleaseBandwidthAlone(w, i);
    if i < |w2.chans| && w2.chans[i].pc.ReleaseReadChannel? {
      acts' := ThenTwice(w0, acts', w2, calm, i);
    }
  }

  lemma ThenTwice(w0: World, acts: seq<Action>, w: World, calm: bool, i: nat) returns (acts': seq<Action>)
    requires Reaches(w0, acts, w, calm) && |w.accounts| == |w.chans|
    ensures Reaches(w0, acts', Transact(Transact(w, i), i), calm)
  {
    ThenTransact(w0, acts, w, calm, i);
    acts' := acts + [Serve(i)] + [Proceed(i)];
    ThenTransact(w0, acts', Transact(w, i), calm, i);
    acts' := acts' + [Serve(i)] + [Proceed(i)];
  }

  // A transaction of a current reallocation fails before object i's channel is
  // charged to it. The object holds the channel all the same; if the channel
  // is free, any empty object j can allocate it, and both hold it.
  lemma FailedReallocationLetsTwoHold(w: World, i: nat, j: nat, junk: nat) returns (acts: seq<Action>)
    requires SoundWorld(w) && i < |w.chans| && j < |w.chans| && i != j
    requires Enabled(w, Break(i, false, junk)) && !Reliable(w, Break(i, false, junk))
    requires w.chans[i].fChannel in w.hi + w.lo
    requires w.chans[j].pc.Idle? && w.chans[j].Empty()
    ensures var c, w' := w.chans[i].fChannel, Run(w, acts);
            && Holds(w', i, c) && Holds(w', j, c)
            && w'.chans[i].pc.Idle? && w'.chans[j].pc.Idle?
    ensures acts[0] == Break(i, false, junk)
    ensures forall k :: 0 < k < |acts| ==> !acts[k].Foreign? && !acts[k].BusReset? && !acts[k].Break?
  {
    var c, w1 := w.chans[i].fChannel, Step(w, Break(i, false, junk));
    assert Sound(w.chans[j], w.gen, w.accounts[j]);
    assert w1 == SetChannel(w, i, ReallocDone(w.chans[i], w.gen)) && Books(w1);
    assert Reaches(w1, [], w1, true);
    var rest, w' := ThenAllocate(w1, [], w1, true, j, 0, c);
    acts := [Break(i, false, junk)] + rest;
    assert Run(w, [Break(i, false, junk)]) == w1 by {
      assert [Break(i, false, junk)][..0] == [];
    }
    RunOfSum(w, [Break(i, false, junk)], rest);
  }

  // An allocation on an object that still has its channel of an older
  // generation claims no channel: it only stores the new generation.
  lemma StaleAllocationIs(w: World, i: nat)
    requires Books(w) && Enabled(w, Allocate(i, Job(0, {}))) && w.chans[i].fChannel < NO_CHANNEL
    ensures ClaimAlone(w, i, Job(0, {})) == SetChannel(w, i, w.chans[i].(fGeneration := w.gen).At(Idle, Quiet))
  {
    hide Books, Transact, Step;
    var ch, job := w.chans[i], Job(0, {});
    SampleIs(w, i, job);
    ReadStep(w, i, ch, job, []);
    assert [] + [Units(w.bandwidth)] == [Units(w.bandwidth)];
    ReadStep(w, i, ch, job, [Units(w.bandwidth)]);
    assert [Units(w.bandwidth)] + [Bits(w.hi)] == [Units(w.bandwidth), Bits(w.hi)];
    LastReadStep(w, i, ch, job);
    StaleClaim(w, i, ReadAlone(w, i, job).chans[i]);
  }

  lemma StaleClaim(w: World, i: nat, ch: Channel)
    requires Books(w) && i < |w.chans| && w.chans[i].fChannel < NO_CHANNEL
    requires var read := w.chans[i].At(AllocRead(w.gen, Job(0, {}), [Units(w.bandwidth), Bits(w.hi)]),
                                       Answered(Read(ChannelsLo), Bits(w.lo)));
             ch == AllocAfterRead(read, w.gen, w.gen, Job(0, {}), w.bandwidth, w.hi, w.lo)
    ensures Transact(SetChannel(w, i, ch), i) ==
            SetChannel(w, i, w.chans[i].(fGeneration := w.gen).At(Idle, Quiet))
  {
    if w.chans[i].fBandwidth == 0 {
      ClaimStep(w, i, ch, Job(0, {}));
      assert w.accounts[i := w.accounts[i]] == w.accounts;
    }
  }

  // So if the channel is not charged to object i but free, any empty object j
  // can allocate it too, and both hold it.
  lemma StaleAllocationLetsTwoHold(w: World, i: nat, j: nat) returns (acts: seq<Action>)
    requires SoundWorld(w) && i < |w.chans| && j < |w.chans| && i != j
    requires w.chans[i].pc.Idle? && w.chans[i].fChannel in w.hi + w.lo
    requires w.chans[j].pc.Idle? && w.chans[j].Empty()
    ensures var c, w' := w.chans[i].fChannel, Run(w, acts);
            && Holds(w', i, c) && Holds(w', j, c)
            && w'.chans[i].pc.Idle? && w'.chans[j].pc.Idle?
    ensures forall k :: 0 <= k < |acts| ==> !acts[k].Foreign? && !acts[k].BusReset? && !acts[k].Break?
  {
    var c := w.chans[i].fChannel;
    assert Sound(w.chans[j], w.gen, w.accounts[j]) && Sound(w.chans[i], w.gen, w.accounts[i]);
    StaleAllocationIs(w, i);
    assert Reaches(w, [], w, true);
    acts := ThenClaim(w, [], w, true, i, Job(0, {}));
    var w1 := ClaimAlone(w, i, Job(0, {}));
    var w';
    acts, w' := ThenAllocate(w, acts, w1, true, j, 0, c);
  }

  // Object 0 gets its channel, the bus resets, and the first read of its
  // reallocation fails with an error that is not a bus reset. Object 1 then
  // gets the same channel, and both believe they hold it now.
  lemma FailedReadLetsTwoHold(gen: nat, c: nat) returns (acts: seq<Action>)
    requires c < NO_CHANNEL
    ensures Initial(FreshWorld(gen, 2))
    ensures var w := Run(FreshWorld(gen, 2), acts);
            && Holds(w, 0, c) && Holds(w, 1, c)
            && w.chans[0].pc.Idle? && w.chans[1].pc.Idle?
  {
    var w0 := FreshWorld(gen, 2);
    FreshIsInitial(gen, 2);
    var w: World;
    acts, w := ThenAllocate(w0, [], w0, false, 0, 0, c);
    acts, w := ThenResetAndFailedRead(w0, acts, w, c);
    acts, w := ThenAllocate(w0, acts, w, false, 1, 0, c);
  }

  lemma ThenResetAndFailedRead(w0: World, acts: seq<Action>, w: World, c: nat)
    returns (acts': seq<Action>, w': World)
    requires Reaches(w0, acts, w, false) && |w.chans| == 2 && |w.accounts| == 2 && c < NO_CHANNEL
    requires w.chans[0] == Channel(0, c, w.gen, Idle, Quiet)
    ensures Reaches(w0, acts', w', false) && Books(w') && c in w'.hi + w'.lo && w'.gen == w.gen + 1
    ensures w'.chans == w.chans[0 := Channel(0, c, w.gen + 1, Idle, Quiet)]
  {
    Then(w0, acts, w, false, BusReset);
    acts' := acts + [BusReset];
    w' := ResetStep(w);
    ResetBooks(w);
    FailedReadKeepsFields(w', c);
    Then(w0, acts', w', false, Realloc(0, w'.gen));
    Then(w0, acts' + [Realloc(0, w'.gen)], Step(w', Realloc(0, w'.gen)), false, Break(0, false, 0));
    acts' := acts' + [Realloc(0, w'.gen)] + [Break(0, false, 0)];
    w' := Step(Step(w', Realloc(0, w'.gen)), Break(0, false, 0));
    assert InHi(c) || InLo(c);
  }

  lemma FailedReadKeepsFields(w: World, c: nat)
    requires Books(w) && |w.chans| == 2 && c < NO_CHANNEL
    requires w.chans[0].pc.Idle? && w.chans[0].fGeneration != w.gen
    requires w.chans[0].fBandwidth == 0 && w.chans[0].fChannel == c
    ensures var w' := Step(Step(w, Realloc(0, w.gen)), Break(0, false, 0));
            Books(w') && w' == SetChannel(w, 0, Channel(0, c, w.gen, Idle, Quiet))
  {
    assert w.accounts[0 := w.accounts[0]] == w.accounts;
    var w1 := Step(w, Realloc(0, w.gen));
    assert w1 == SetChannel(w, 0, ReallocChannelPart(w.chans[0], w.gen));
    SetTwice(w, 0, w1.chans[0], Channel(0, c, w.gen, Idle, Quiet));
  }

  lemma ThenAllocate(w0: World, acts: seq<Action>, w: World, calm: bool, i: nat, want: nat, c: nat)
    returns (acts': seq<Action>, w': World)
    requires Reaches(w0, acts, w, calm) && Books(w) && c in w.hi + w.lo && want <= w.bandwidth
    requires Enabled(w, Allocate(i, Job(want, {c}))) && w.chans[i].Empty()
    ensures Reaches(w0, acts', w', calm) && w'.gen == w.gen
    ensures w'.chans == w.chans[i := Channel(want, c, w.gen, Idle, Quiet)]
  {
    var job := Job(want, {c});
    assert job.allowed * (w.hi + w.lo) == {c};
    AllocationSucceeds(w, i, job);
    acts' := ThenClaim(w0, acts, w, calm, i, job);
    ThenTransact(w0, acts', ClaimAlone(w, i, job), calm, i);
    acts' := acts' + [Serve(i)] + [Proceed(i)];
    w' := Transact(ClaimAlone(w, i, job), i);
  }

  // ----- bandwidth returned that is not charged -----

  // An allocation on an object at rest with a channel of an older generation
  // claims nothing, but the release that follows returns fBandwidth.
  lemma StaleAllocationOverdraws(w: World, i: nat) returns (acts: seq<Action>)
    requires Books(w) && i < |w.chans| && Shape(w.chans[i], w.gen)
    requires w.chans[i].pc.Idle? && w.chans[i].fChannel < NO_CHANNEL && w.chans[i].fGeneration != w.gen
    requires w.bandwidth + w.chans[i].fBandwidth < TWO_TO_32
    ensures var w' := Run(w, acts);
            && w'.bandwidth == w.bandwidth + w.chans[i].fBandwidth
            && w'.accounts[i].units == w.accounts[i].units - w.chans[i].fBandwidth
    ensures forall k :: 0 <= k < |acts| ==> !acts[k].Foreign? && !acts[k].BusReset? && !acts[k].Break?
  {
    StaleAllocationIs(w, i);
    assert Reaches(w, [], w, true);
    acts := ThenClaim(w, [], w, true, i, Job(0, {}));
    var w1 := ClaimAlone(w, i, Job(0, {}));
    ReleaseReturnsWhatIsHeld(w1, i);
    acts := ThenRelease(w, acts, w1, true, i);
  }

  // A transaction of a current reallocation fails other than by a bus reset;
  // the release that follows returns fBandwidth, charged to the object or not.
  lemma FailedReallocationOverdraws(w: World, i: nat, junk: nat) returns (acts: seq<Action>)
    requires Books(w) && i < |w.chans| && Shape(w.chans[i], w.gen)
    requires w.chans[i].pc.Reallocating() && w.chans[i].pc.g == w.gen
    requires w.bandwidth + w.chans[i].fBandwidth < TWO_TO_32
    ensures var w' := Run(w, acts);
            && w'.bandwidth == w.bandwidth + w.chans[i].fBandwidth
            && w'.accounts[i].units == w.accounts[i].units - w.chans[i].fBandwidth
    ensures acts != [] && acts[0] == Break(i, false, junk)
    ensures forall k :: 0 < k < |acts| ==> !acts[k].Foreign? && !acts[k].BusReset? && !acts[k].Break?
  {
    var w1 := Step(w, Break(i, false, junk));
    assert w1 == SetChannel(w, i, ReallocDone(w.chans[i], w.gen)) && Books(w1);
    assert Reaches(w1, [], w1, true);
    ReleaseReturnsWhatIsHeld(w1, i);
    var rest := ThenRelease(w1, [], w1, true, i);
    acts := [Break(i, false, junk)] + rest;
    assert Run(w, [Break(i, false, junk)]) == w1 by {
      assert [Break(i, false, junk)][..0] == [];
    }
    RunOfSum(w, [Break(i, false, junk)], rest);
  }

  // One object and nobody else on the bus: it allocates, the bus is reset, and
  // its second allocation or its failed reallocation is followed by a release.
  // The register ends above its reset value.
  lemma ResetReturnsTwice(gen: nat, want: nat, c: nat, again: bool) returns (acts: seq<Action>)
    requires want <= INITIAL_BANDWIDTH && c < NO_CHANNEL
    ensures Initial(FreshWorld(gen, 1))
    ensures forall k :: 0 <= k < |acts| ==> !acts[k].Foreign? && (again ==> !acts[k].Break?)
    ensures Run(FreshWorld(gen, 1), acts).bandwidth == INITIAL_BANDWIDTH + want
  {
    var w0 := FreshWorld(gen, 1);
    FreshIsInitial(gen, 1);
    var before, w1 := ThenAllocate(w0, [], w0, true, 0, want, c);
    before := before + [BusReset];
    assert Run(w0, before) == ResetStep(w1) by {
      assert before[..|before| - 1] + [BusReset] == before;
    }
    ResetBooks(w1);
    var after := AfterReset(ResetStep(w1), again);
    RunOfSum(w0, before, after);
    acts := before + after;
  }

  lemma AfterReset(w: World, again: bool) returns (acts: seq<Action>)
    requires Books(w) && |w.chans| == 1 && w.chans[0].pc.Idle? && w.chans[0].wire.Quiet?
    requires w.chans[0].fGeneration < w.gen && w.chans[0].fChannel < NO_CHANNEL
    requires w.bandwidth + w.chans[0].fBandwidth < TWO_TO_32
    ensures Run(w, acts).bandwidth == w.bandwidth + w.chans[0].fBandwidth
    ensures forall k :: 0 <= k < |acts| ==> !acts[k].Foreign? && (again ==> !acts[k].Break?)
  {
    if again {
      acts := StaleAllocationOverdraws(w, 0);
    } else {
      var w1 := Step(w, Realloc(0, w.gen));
      RelabelBooks(w, 0, w1.chans[0], w.accounts[0]);
      assert w.accounts[0 := w.accounts[0]] == w.accounts;
      var rest := FailedReallocationOverdraws(w1, 0, 0);
      acts := [Realloc(0, w.gen)] + rest;
      assert Run(w, [Realloc(0, w.gen)]) == w1 by {
        assert [Realloc(0, w.gen)][..0] == [];
      }
      RunOfSum(w, [Realloc(0, w.gen)], rest);
    }
  }

  // A reallocation thread that comes too late makes the next release return
  // nothing: what the object held stays charged to it until the next reset.
  lemma LateThreadLeaks(w: World, i: nat, g: nat, acts: seq<Action>)
    requires ExactAt(w, i) && Enabled(w, Realloc(i, g)) && w.chans[i].fGeneration == w.gen
    requires Along(Step(Step(w, Realloc(i, g)), Release(i)), acts, NoReset(i))
    ensures var w1 := Step(Step(w, Realloc(i, g)), Release(i));
            var w' := Run(w1, acts);
            && (g < w.gen ==>
                  && w1.chans[i] == Channel(0, NO_CHANNEL, w.gen, Idle, Quiet)
                  && Value(w1, BandwidthAvailable) == Value(w, BandwidthAvailable)
                  && w.accounts[i].units <= w'.accounts[i].leakedUnits
                  && w.accounts[i].channels <= w'.accounts[i].leakedChannels)
            && (g == w.gen ==> w1 == Step(w, Release(i)))
  {
    assert g == w.gen ==> Step(w, Realloc(i, g)) == w by {
      assert w.accounts[i := w.accounts[i]] == w.accounts && w.chans[i := w.chans[i]] == w.chans;
    }
    if g < w.gen {
      var w1 := Step(Step(w, Realloc(i, g)), Release(i));
      StepExactAt(w, Realloc(i, g), i);
      StepExactAt(Step(w, Realloc(i, g)), Release(i), i);
      LeaksLast(w1, acts, i);
    }
  }
}
