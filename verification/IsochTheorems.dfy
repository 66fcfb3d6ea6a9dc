/**
 The results about every run of the bandwidth and channel protocol, and the
 runs that show where its promises stop.
 */
module IsochTheorems {
  import opened IrmRegisters
  import opened IsochAutomaton
  import opened IsochObject
  import opened IsochWorld

  // The object believes, in the current generation, that channel c is its own.
  predicate Holds(w: World, i: nat, c: nat)
    requires i < |w.chans|
  {
    w.chans[i].fGeneration == w.gen && w.chans[i].fChannel == c < NO_CHANNEL
  }

  // The channel is already back in the register; releaseChannelComplete is
  // about to clear fChannel, still under the object's lock.
  predicate HasReturnedChannel(w: World, i: nat)
    requires i < |w.chans|
  {
    w.chans[i].pc.ReleaseSwapChannel? && w.chans[i].wire.Landed()
  }

  // Along every run, no two objects hold one channel in the current generation.
  lemma ChannelExclusivity(w0: World, acts: seq<Action>, i: nat, j: nat, c: nat)
    requires Initial(w0) && Along(w0, acts, Reliable)
    requires i < |w0.chans| && j < |w0.chans|
    ensures var w := Run(w0, acts);
            && Holds(w, i, c) && !HasReturnedChannel(w, i)
            && Holds(w, j, c) && !HasReturnedChannel(w, j)
            ==> i == j
  {
    var w := Run(w0, acts);
    InitialExact(w0);
    ExactIsSound(w0);
    RunSound(w0, acts);
    if Holds(w, i, c) && !HasReturnedChannel(w, i) && Holds(w, j, c) && !HasReturnedChannel(w, j) {
      HolderIsCharged(w, i, c);
      HolderIsCharged(w, j, c);
      ChargedOnce(w, i, j, c);
    }
  }

  lemma ChargedOnce(w: World, i: nat, j: nat, c: nat)
    requires Books(w) && i < |w.accounts| && j < |w.accounts|
    ensures c in w.accounts[i].channels && c in w.accounts[j].channels ==> i == j
  {
  }

  lemma HolderIsCharged(w: World, i: nat, c: nat)
    requires SoundWorld(w) && i < |w.chans| && Holds(w, i, c) && !HasReturnedChannel(w, i)
    ensures c in w.accounts[i].channels && c !in w.hi + w.lo
  {
    assert Sound(w.chans[i], w.gen, w.accounts[i]);
    assert w.accounts[i].channels !! w.hi + w.lo;
    assert c in Entitled(w.chans[i], w.gen);
  }

  // A channel held in the current generation is not on offer in the register.
  lemma HeldChannelIsNotFree(w0: World, acts: seq<Action>, i: nat, c: nat)
    requires Initial(w0) && Along(w0, acts, Reliable)
    requires i < |w0.chans| && Holds(Run(w0, acts), i, c) && !HasReturnedChannel(Run(w0, acts), i)
    ensures c !in Run(w0, acts).hi + Run(w0, acts).lo
  {
    InitialExact(w0);
    ExactIsSound(w0);
    RunSound(w0, acts);
    HolderIsCharged(Run(w0, acts), i, c);
  }

  // Along every run of thrifty steps, whatever else fails, the register never
  // rises above its reset value, and an object at rest in the current
  // generation is charged with at least fBandwidth units.
  lemma RegisterNeverExceeds(w0: World, acts: seq<Action>, i: nat)
    requires Initial(w0) && Along(w0, acts, Thrifty) && i < |w0.chans|
    ensures var w := Run(w0, acts);
            && w.bandwidth <= INITIAL_BANDWIDTH
            && w.bandwidth + SumUnits(w.accounts) + w.foreign.units == INITIAL_BANDWIDTH
            && (w.chans[i].pc.Idle? && w.chans[i].fGeneration == w.gen ==>
                  w.chans[i].fBandwidth <= w.accounts[i].units)
  {
    InitialExact(w0);
    ExactIsSound(w0);
    RunSolvent(w0, acts);
    UnitsAreBounded(Run(w0, acts));
    var w := Run(w0, acts);
    assert Solvent(w.chans[i], w.gen, w.accounts[i]);
  }

  // In such runs 32 bits are enough for every sum.
  lemma {:induction false} ThriftyRunsMind(w0: World, acts: seq<Action>, i: nat)
    requires SolventWorld(w0) && i < |w0.chans| && Along(w0, acts, Reliable) && Along(w0, acts, Thrifty)
    requires Along(w0, acts, (w: World, a: Action) => a.Of(i) ==> Orderly(w, a))
    ensures Along(w0, acts, Minds(i))
  {
    if acts != [] {
      var n := |acts| - 1;
      ThriftyRunsMind(w0, acts[..n], i);
      RunSolvent(w0, acts[..n]);
      UnitsAreBounded(Run(w0, acts[..n]));
    }
  }

  // Along every run of reliable steps in which its own steps are orderly, an
  // object at rest in the current generation has taken exactly fBandwidth units
  // and its one channel, beside what it leaked.
  lemma BandwidthConservation(w0: World, acts: seq<Action>, i: nat)
    requires Initial(w0) && i < |w0.chans| && Along(w0, acts, Minds(i))
    ensures var w := Run(w0, acts);
            && w.bandwidth + SumUnits(w.accounts) + w.foreign.units == INITIAL_BANDWIDTH
            && w.accounts[i].leakedUnits >= 0
            && (w.chans[i].pc.Idle? && w.chans[i].fGeneration == w.gen ==>
                  && w.accounts[i].units == w.chans[i].fBandwidth + w.accounts[i].leakedUnits
                  && w.accounts[i].channels == w.accounts[i].leakedChannels + Held(w.chans[i]))
  {
    InitialExact(w0);
    ExactIsSound(w0);
    RunExactAt(w0, acts, i);
  }

  // The channel that the fields name.
  function Held(ch: Channel): set<nat> {
    if ch.fChannel == NO_CHANNEL then {} else {ch.fChannel}
  }

  // In addition, object i's reallocation threads run in the generation they
  // were started for.
  function Punctual(i: nat): (World, Action) -> bool {
    (w: World, a: Action) => Minding(w, a, i) && (a.Realloc? && a.Of(i) ==> a.g == w.gen)
  }

  lemma {:induction false} PunctualRunsLeakNothing(w0: World, acts: seq<Action>, i: nat)
    requires Initial(w0) && i < |w0.chans| && Along(w0, acts, Punctual(i))
    ensures Run(w0, acts).accounts[i].leakedUnits == 0 && Run(w0, acts).accounts[i].leakedChannels == {}
    ensures Along(w0, acts, Minds(i))
  {
    hide Reliable, Orderly;
    if acts != [] {
      var n := |acts| - 1;
      PunctualRunsLeakNothing(w0, acts[..n], i);
      LeakStep(Run(w0, acts[..n]), acts[n], i);
    }
  }

  // Only a reset or a late thread changes what is counted as leaked.
  lemma LeakStep(w: World, a: Action, i: nat)
    requires i < |w.chans| == |w.accounts|
    ensures !a.BusReset? && (a.Realloc? && a.Of(i) ==> a.g == w.gen) ==>
              && Step(w, a).accounts[i].leakedUnits == w.accounts[i].leakedUnits
              && Step(w, a).accounts[i].leakedChannels == w.accounts[i].leakedChannels
    ensures a.BusReset? ==> Step(w, a).accounts[i] == CLEAN
    ensures a.Realloc? && a.Of(i) && Enabled(w, a) && a.g != w.gen ==>
              Step(w, a).accounts[i] == Abandoned(w.accounts[i])
  {
  }

  // So in punctual runs the charge is exactly what the fields say.
  lemma PunctualBandwidth(w0: World, acts: seq<Action>, i: nat)
    requires Initial(w0) && i < |w0.chans| && Along(w0, acts, Punctual(i))
    requires Run(w0, acts).chans[i].pc.Idle? && Run(w0, acts).chans[i].fGeneration == Run(w0, acts).gen
    ensures Run(w0, acts).accounts[i].units == Run(w0, acts).chans[i].fBandwidth
    ensures Run(w0, acts).accounts[i].channels == Held(Run(w0, acts).chans[i])
  {
    PunctualRunsLeakNothing(w0, acts, i);
    BandwidthConservation(w0, acts, i);
  }

  // ----- a failed reallocation is undone exactly -----

  // reallocBandwidth stopped in the current generation: with both, without the
  // channel, without anything, or by an error that ends a call cleanly. The
  // fields left behind say what is charged.
  lemma FailedReallocationFields(w: World, i: nat, a: Action)
    requires ExactAt(w, i) && w.chans[i].pc.Reallocating() && w.chans[i].pc.g == w.gen
    requires a.Of(i) && (a.Proceed? || a.Break?) && Enabled(w, a) && Orderly(w, a)
    requires Step(w, a).chans[i].pc.Idle?
    ensures var ch := w.chans[i];
            var w' := Step(w, a);
            var ch', acc := w'.chans[i], w'.accounts[i];
            && ExactAt(w', i) && w'.gen == w.gen && ch'.fGeneration == w.gen && acc == w.accounts[i]
            && acc.units == ch'.fBandwidth + acc.leakedUnits && acc.channels == acc.leakedChannels + Held(ch')
            && (a.Break? ==> ch' == ReallocDone(ch, ch.pc.g))
            && (a.Proceed? && (ch.pc.ReallocReadBandwidth? || ch.pc.ReallocSwapBandwidth?) ==>
                  if ch'.fBandwidth == 0 then ch'.Empty()
                  else ch' == ReallocDone(ch, ch.pc.g) && ch.fChannel == NO_CHANNEL)
            && (a.Proceed? && (ch.pc.ReallocReadChannel? || ch.pc.ReallocSwapChannel?) ==>
                  ch'.fBandwidth == ch.fBandwidth && (ch'.fChannel == ch.fChannel <==> ch.wire.Landed()))
  {
    OwnStepReliable(w, i, a);
    StepExactAt(w, a, i);
  }

  lemma OwnStepReliable(w: World, i: nat, a: Action)
    requires ExactAt(w, i) && a.Of(i) && Orderly(w, a)
    ensures Reliable(w, a)
  {
  }

  // What the fields claim after any other error is not what is charged.
  lemma FailedReallocationMisleads(w: World, i: nat, junk: nat)
    requires ExactAt(w, i) && w.chans[i].pc.Reallocating() && w.chans[i].pc.g == w.gen
    requires Enabled(w, Break(i, false, junk))
    ensures var w' := Step(w, Break(i, false, junk));
            var ch', acc := w'.chans[i], w'.accounts[i];
            && ch'.pc.Idle? && ch'.fGeneration == w'.gen
            && (acc.units == ch'.fBandwidth + acc.leakedUnits && acc.channels == acc.leakedChannels + Held(ch')
                && acc.leakedChannels !! Held(ch')
                <==> FailsClean(w.chans[i], w.gen))
  {
    FailExactlyWhen(w.chans[i], w.gen, junk, w.accounts[i]);
  }

  // ----- a release returns exactly what is held, whoever else acts -----

  // No bus reset; object i only works on the call it is in; the others and the
  // foreign nodes do as they please.
  function InOneCall(i: nat): (World, Action) -> bool {
    (w: World, a: Action) =>
      Minding(w, a, i) && !a.BusReset? && (a.Of(i) ==> a.Serve? || a.Proceed? || a.Break?)
  }

  // Object i is releasing in generation g, or has finished; what it had leaked
  // before is still leaked.
  predicate UnderRelease(w: World, i: nat, g: nat, leaked: Account) {
    && i < |w.chans| == |w.accounts| && w.gen == g
    && w.accounts[i].leakedUnits == leaked.leakedUnits && w.accounts[i].leakedChannels == leaked.leakedChannels
    && if w.chans[i].pc.Idle? then w.chans[i].Empty() && w.chans[i].fGeneration == g
       else w.chans[i].pc.Releasing() && w.chans[i].pc.g == g
  }

  lemma UnderReleaseStep(w: World, i: nat, g: nat, leaked: Account, a: Action)
    requires UnderRelease(w, i, g, leaked) && InOneCall(i)(w, a)
    ensures UnderRelease(Step(w, a), i, g, leaked)
  {
  }

  lemma UnderReleaseRun(w: World, i: nat, g: nat, leaked: Account, acts: seq<Action>)
    requires UnderRelease(w, i, g, leaked) && ExactAt(w, i) && Along(w, acts, InOneCall(i))
    ensures UnderRelease(Run(w, acts), i, g, leaked) && ExactAt(Run(w, acts), i)
  {
    hide ExactAt;
    if acts != [] {
      var n := |acts| - 1;
      UnderReleaseRun(w, i, g, leaked, acts[..n]);
      UnderReleaseStep(Run(w, acts[..n]), i, g, leaked, acts[n]);
      StepExactAt(Run(w, acts[..n]), acts[n], i);
    }
  }

  lemma AtRest(w: World, i: nat)
    requires ExactAt(w, i) && w.chans[i].pc.Idle? && w.chans[i].fGeneration == w.gen
    ensures w.accounts[i].units == w.chans[i].fBandwidth + w.accounts[i].leakedUnits
    ensures w.accounts[i].channels == w.accounts[i].leakedChannels + Held(w.chans[i])
    ensures w.accounts[i].leakedChannels !! Held(w.chans[i]) && w.chans[i].wire.Quiet?
  {
  }

  // However the other agents interleave and however often the swaps miss, a
  // release that has ended in its generation has given back the bandwidth and
  // the channel that the fields named, and nothing else.
  lemma ReleaseReturnsExactly(w: World, i: nat, acts: seq<Action>)
    requires ExactAt(w, i) && w.chans[i].pc.Idle? && w.chans[i].fGeneration == w.gen
    requires Along(Step(w, Release(i)), acts, InOneCall(i))
    ensures var ch, acc := w.chans[i], w.accounts[i];
            var w' := Run(Step(w, Release(i)), acts);
            var ch', acc' := w'.chans[i], w'.accounts[i];
            && w'.gen == w.gen
            && acc'.leakedUnits == acc.leakedUnits && acc'.leakedChannels == acc.leakedChannels
            && (ch'.pc.Idle? ==>
                  && ch' == Channel(0, NO_CHANNEL, w.gen, Idle, Quiet)
                  && acc'.units == acc.units - ch.fBandwidth
                  && acc'.channels == acc.channels - Held(ch))
  {
    AtRest(w, i);
    StepExactAt(w, Release(i), i);
    hide ExactAt, Along;
    UnderReleaseRun(Step(w, Release(i)), i, w.gen, w.accounts[i], acts);
    var w' := Run(Step(w, Release(i)), acts);
    if w'.chans[i].pc.Idle? {
      AtRest(w', i);
    }
  }

  // Anybody but object i acts, and the bus is not reset.
  function Elsewhere(i: nat): (World, Action) -> bool {
    (w: World, a: Action) => Reliable(w, a) && !a.BusReset? && !a.Of(i)
  }

  lemma ElsewhereKeeps(w: World, i: nat, acts: seq<Action>)
    requires ExactAt(w, i) && Along(w, acts, Elsewhere(i))
    ensures var w' := Run(w, acts);
            && ExactAt(w', i) && w'.gen == w.gen
            && w'.chans[i] == w.chans[i] && w'.accounts[i] == w.accounts[i]
  {
    assert |w.accounts| == |w.chans|;
    hide Step, SoundWorld, Reliable;
    if acts != [] {
      var n := |acts| - 1;
      ElsewhereKeeps(w, i, acts[..n]);
      StepSound(Run(w, acts[..n]), acts[n]);
      OthersStep(Run(w, acts[..n]), acts[n], i);
    }
  }

  // A reallocation that ends in its own generation, with or without all it
  // wanted or by an error that ends it cleanly, and the release that follows
  // some time later: once both are over, only what had been leaked before is
  // still charged to the object.
  lemma FailedReallocationUndone(w: World, i: nat, a: Action, between: seq<Action>, acts: seq<Action>)
    requires ExactAt(w, i) && w.chans[i].pc.Reallocating() && w.chans[i].pc.g == w.gen
    requires a.Of(i) && (a.Proceed? || a.Break?) && Enabled(w, a) && Orderly(w, a)
    requires Step(w, a).chans[i].pc.Idle?
    requires Along(Step(w, a), between, Elsewhere(i))
    requires Along(Step(Run(Step(w, a), between), Release(i)), acts, InOneCall(i))
    ensures var w' := Run(Step(Run(Step(w, a), between), Release(i)), acts);
            w'.chans[i].pc.Idle? ==>
              && w'.chans[i].Empty() && w'.gen == w.gen
              && w'.accounts[i].units == w.accounts[i].leakedUnits
              && w'.accounts[i].channels == w.accounts[i].leakedChannels
  {
    assert |w.accounts| == |w.chans|;
    hide ExactAt, Run, Along, Step;
    FailedReallocationFields(w, i, a);
    var w2 := Run(Step(w, a), between);
    ElsewhereKeeps(Step(w, a), i, between);
    AtRest(w2, i);
    ReleaseReturnsExactly(w2, i, acts);
  }

  // What is leaked stays leaked until the bus is reset.
  function NoReset(i: nat): (World, Action) -> bool {
    (w: World, a: Action) => Minding(w, a, i) && !a.BusReset?
  }

  lemma {:induction false} LeaksLast(w: World, acts: seq<Action>, i: nat)
    requires ExactAt(w, i) && Along(w, acts, NoReset(i))
    ensures ExactAt(Run(w, acts), i)
    ensures w.accounts[i].leakedUnits <= Run(w, acts).accounts[i].leakedUnits <= Run(w, acts).accounts[i].units
    ensures w.accounts[i].leakedChannels <= Run(w, acts).accounts[i].leakedChannels <= Run(w, acts).accounts[i].channels
  {
    assert |w.accounts| == |w.chans|;
    hide ExactAt, Step;
    if acts != [] {
      var n := |acts| - 1;
      LeaksLast(w, acts[..n], i);
      StepExactAt(Run(w, acts[..n]), acts[n], i);
      LeakGrows(Run(w, acts[..n]), acts[n], i);
    }
    LeakIsCharged(Run(w, acts), i);
  }

  lemma LeakGrows(w: World, a: Action, i: nat)
    requires ExactAt(w, i) && !a.BusReset?
    ensures w.accounts[i].leakedUnits <= Step(w, a).accounts[i].leakedUnits
    ensures w.accounts[i].leakedChannels <= Step(w, a).accounts[i].leakedChannels
  {
    LeakIsCharged(w, i);
    LeakStep(w, a, i);
  }

  lemma LeakIsCharged(w: World, i: nat)
    requires ExactAt(w, i)
    ensures w.accounts[i].leakedUnits <= w.accounts[i].units
    ensures w.accounts[i].leakedChannels <= w.accounts[i].channels
    ensures |w.accounts| == |w.chans|
  {
  }

  // ----- a release that nobody disturbs also ends -----

  // Serve and Proceed, with nobody in between.
  function Transact(w: World, i: nat): World
    requires |w.accounts| == |w.chans|
  {
    Step(Step(w, Serve(i)), Proceed(i))
  }

  // The world after object i's transaction has been answered and acted on.
  function AfterAnswer(w: World, i: nat): Channel
    requires i < |w.chans| && w.chans[i].wire.Sent?
  {
    Answer(w.chans[i], Value(w, w.chans[i].wire.op.reg))
  }

  lemma TransactRead(w: World, i: nat)
    requires Books(w) && Enabled(w, Serve(i)) && w.chans[i].wire.op.Read? && WellTyped(AfterAnswer(w, i))
    ensures Transact(w, i) == SetChannel(w, i, Resume(AfterAnswer(w, i), w.gen))
  {
  }

  lemma TransactSwap(w: World, i: nat)
    requires Books(w) && Enabled(w, Serve(i)) && WellTyped(AfterAnswer(w, i))
    requires var op := w.chans[i].wire.op;
             op.Cas? && op.cmp == Value(w, op.reg) && Fits(op.reg, op.new_)
    ensures var op := w.chans[i].wire.op;
            Transact(w, i) ==
            Store(SetChannel(w, i, Resume(AfterAnswer(w, i), w.gen)), op.reg, op.new_).(
              accounts := w.accounts[i := Charged(w.accounts[i], op)])
  {
  }

  lemma TransactMiss(w: World, i: nat)
    requires Books(w) && Enabled(w, Serve(i)) && WellTyped(AfterAnswer(w, i))
    requires var op := w.chans[i].wire.op; op.Cas? && op.cmp != Value(w, op.reg)
    ensures Transact(w, i) == SetChannel(w, i, Resume(AfterAnswer(w, i), w.gen))
  {
  }

  // releaseChannelComplete left alone ends after at most four transactions, and
  // nothing else in the world changes.
  function ReleaseBandwidthAlone(w: World, i: nat): World
    requires |w.accounts| == |w.chans|
  {
    var w1 := Step(w, Release(i));
    if i < |w1.chans| && w1.chans[i].pc.ReleaseReadBandwidth? then Transact(Transact(w1, i), i) else w1
  }

  function ReleaseAlone(w: World, i: nat): World
    requires |w.accounts| == |w.chans|
  {
    var w2 := ReleaseBandwidthAlone(w, i);
    if i < |w2.chans| && w2.chans[i].pc.ReleaseReadChannel? then Transact(Transact(w2, i), i) else w2
  }

  lemma ReleaseBandwidthPart(w: World, i: nat)
    requires Books(w) && Enabled(w, Serve(i)) && w.chans[i].pc.ReleaseReadBandwidth? && WellTyped(w.chans[i])
    requires w.bandwidth + w.chans[i].fBandwidth < TWO_TO_32
    ensures var ch, w' := w.chans[i], Transact(Transact(w, i), i);
            && w' == w.(bandwidth := w.bandwidth + ch.fBandwidth, chans := w'.chans, accounts := w'.accounts)
            && w'.chans == w.chans[i := ReleaseChannelPart(ch.(fBandwidth := 0, wire := w'.chans[i].wire), w.gen)]
            && w'.accounts == w.accounts[i := w.accounts[i].(units := w.accounts[i].units - ch.fBandwidth)]
  {
    TransactRead(w, i);
    TransactSwap(Transact(w, i), i);
  }

  lemma ReleaseChannelLast(w: World, i: nat)
    requires Books(w) && Enabled(w, Serve(i)) && w.chans[i].pc.ReleaseReadChannel? && WellTyped(w.chans[i])
    requires w.chans[i].fChannel < NO_CHANNEL
    ensures var ch, w' := w.chans[i], Transact(Transact(w, i), i);
            && w' == w.(hi := w'.hi, lo := w'.lo, chans := w'.chans, accounts := w'.accounts)
            && w'.hi + w'.lo == w.hi + w.lo + {ch.fChannel}
            && w'.chans == w.chans[i := ReleaseDone(ch, w.gen)]
            && w'.accounts == w.accounts[i := w'.accounts[i]] && w'.accounts[i].units == w.accounts[i].units
  {
    TransactRead(w, i);
    TransactSwap(Transact(w, i), i);
  }

  // The object is at rest with what its fields name for this generation,
  // whether or not it is charged to it.
  predicate Claims(w: World, i: nat) {
    && i < |w.chans| && Shape(w.chans[i], w.gen) && w.chans[i].pc.Idle? && w.chans[i].fGeneration == w.gen
    && w.bandwidth + w.chans[i].fBandwidth < TWO_TO_32
  }

  lemma HolderMayRelease(w: World, i: nat)
    requires SolventWorld(w) && i < |w.chans| && w.chans[i].pc.Idle? && w.chans[i].fGeneration == w.gen
    ensures Claims(w, i)
  {
    UnitsAreBounded(w);
    assert Solvent(w.chans[i], w.gen, w.accounts[i]);
  }

  lemma ReleaseBandwidthFirst(w: World, i: nat)
    requires Books(w) && Claims(w, i)
    ensures var ch, w2 := w.chans[i], ReleaseBandwidthAlone(w, i);
            && w2 == w.(bandwidth := w.bandwidth + ch.fBandwidth, chans := w2.chans, accounts := w2.accounts)
            && |w2.chans| == |w.chans| && WellTyped(w2.chans[i])
            && w2.chans[i] == ReleaseChannelPart(ch.(fBandwidth := 0, wire := w2.chans[i].wire), w.gen)
            && w2.chans == w.chans[i := w2.chans[i]]
            && w2.accounts == w.accounts[i := w.accounts[i].(units := w.accounts[i].units - ch.fBandwidth)]
  {
    assert |w.accounts| == |w.chans|;
    hide Transact, Books;
    var w1 := Step(w, Release(i));
    if w1.chans[i].pc.ReleaseReadBandwidth? {
      RelabelBooks(w, i, w1.chans[i], w.accounts[i]);
      assert w.accounts[i := w.accounts[i]] == w.accounts;
      ReleaseBandwidthPart(w1, i);
    }
  }

  lemma ReturnBooks(w: World, i: nat, units: nat)
    requires Books(w) && i < |w.chans|
    ensures forall ch :: Books(SetChannel(w, i, ch).(
              bandwidth := w.bandwidth + units,
              accounts := w.accounts[i := w.accounts[i].(units := w.accounts[i].units - units)]))
  {
    SumUpdate(w.accounts, i, w.accounts[i].(units := w.accounts[i].units - units));
  }

  lemma ReleaseReturnsWhatIsHeld(w: World, i: nat)
    requires Books(w) && Claims(w, i)
    ensures var ch, w' := w.chans[i], ReleaseAlone(w, i);
            && w'.chans[i] == Channel(0, NO_CHANNEL, w.gen, Idle, Quiet)
            && w'.bandwidth == w.bandwidth + ch.fBandwidth
            && w'.hi + w'.lo == w.hi + w.lo + Held(ch)
            && w'.gen == w.gen && w'.foreign == w.foreign
            && w'.accounts[i].units == w.accounts[i].units - ch.fBandwidth
            && w'.chans == w.chans[i := w'.chans[i]] && w'.accounts == w.accounts[i := w'.accounts[i]]
  {
    hide ReleaseBandwidthAlone, Transact;
    ReleaseBandwidthFirst(w, i);
    ReturnBooks(w, i, w.chans[i].fBandwidth);
    var w2 := ReleaseBandwidthAlone(w, i);
    assert w2 == SetChannel(w, i, w2.chans[i]).(bandwidth := w2.bandwidth, accounts := w2.accounts);
    if w2.chans[i].pc.ReleaseReadChannel? {
      ReleaseChannelLast(w2, i);
    }
  }
}
