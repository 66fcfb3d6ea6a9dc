/**
 IOFWIsochChannel's own methods, as code: fields updated in place, reads and
 compare-and-swap loops, with everybody else on the bus running between any
 two transactions. Each method's execution is a run of the interleaved model.
 */
module IsochChannelCode {
  import opened IrmRegisters
  import opened IsochAutomaton
  import opened IsochObject
  import opened IsochWorld
  import IsochRuns
  import IsochTheorems

  // The IOReturn values the methods tell apart; Failed is every other error of
  // a transaction.
  datatype Status =
    | Ok | WasReset | Failed | NoSpace | NoResources | CannotLock | ChannelNotAvailable | AlreadyDone | TimedOut

  // How a transaction may fail other than by a bus reset: the responder has
  // applied it or not.
  datatype Fault = Fine | NotApplied | Applied

  /**
   The bus, its responder and everybody else. The script holds, batch by batch,
   what the others do before and after each transaction of the running method;
   faults says which transactions fail.
   */
  class Bus {
    var world: World
    var script: seq<seq<Action>>
    const faults: nat -> Fault
    var sent: nat
    ghost const start: World
    ghost var history: seq<Action>
    // How many transactions have failed other than by a bus reset.
    ghost var failures: nat

    ghost predicate Valid()
      reads this
    {
      && Initial(start)
      && world == Run(start, history)
      && ShapeWorld(world)
    }

    constructor (objects: nat, script: seq<seq<Action>>, faults: nat -> Fault)
      ensures Valid() && Initial(world) && |world.chans| == objects && this.script == script && history == []
    {
      var w := World(0, INITIAL_BANDWIDTH, AllHi(), AllLo(),
                     seq(objects, k => Channel(0, NO_CHANNEL, 0, Idle, Quiet)), seq(objects, k => CLEAN), CLEAN);
      FreshIsShaped(w);
      world, start, this.script, history := w, w, script, [];
      this.faults, sent, failures := faults, 0, 0;
    }

    static lemma FreshIsShaped(w: World)
      requires Initial(w)
      ensures ShapeWorld(w) && Run(w, []) == w
    {
    }

    method Do(a: Action)
      requires Valid()
      modifies this`world, this`history
      ensures Valid() && world == Step(old(world), a) && history == old(history) + [a]
    {
      StepShape(world, a);
      world := Step(world, a);
      history := history + [a];
      assert history[..|history| - 1] == old(history);
    }

    // Since before, object me has only worked on the call it is in.
    static ghost predicate Works(me: nat, before: seq<Action>, after: seq<Action>) {
      && before <= after
      && forall k :: |before| <= k < |after| && after[k].Of(me) ==>
           after[k].Serve? || after[k].Proceed? || after[k].Break?
    }

    static lemma WorksNot(me: nat, a: seq<Action>)
      ensures Works(me, a, a)
    {
    }

    static lemma WorksOn(me: nat, a: seq<Action>, b: seq<Action>, c: seq<Action>)
      requires Works(me, a, b) && Works(me, b, c)
      ensures Works(me, a, c)
    {
    }

    // One batch of what the others do.
    method Others(me: nat)
      requires Valid() && me < |world.chans|
      modifies this`world, this`script, this`history
      ensures Valid() && |world.chans| == old(|world.chans|)
      ensures old(history) <= history && Works(me, old(history), history)
      ensures world.chans[me] == old(world.chans[me]) && old(world.gen) <= world.gen
      ensures if old(script) == [] then script == [] && world == old(world) else |script| == |old(script)| - 1
    {
      hide ShapeWorld, Run, Along, Step;
      if script != [] {
        var batch := script[0];
        script := script[1..];
        for k := 0 to |batch|
          invariant Valid() && Works(me, old(history), history) && |world.chans| == old(|world.chans|)
          invariant world.chans[me] == old(world.chans[me]) && old(world.gen) <= world.gen
          invariant |script| == |old(script)| - 1
        {
          if !batch[k].Of(me) {
            OthersStep(world, batch[k], me);
            Do(batch[k]);
          }
        }
      }
    }

    static lemma OthersStep(w: World, a: Action, me: nat)
      requires |w.accounts| == |w.chans| && me < |w.chans| && !a.Of(me)
      ensures Step(w, a).chans[me] == w.chans[me] && w.gen <= Step(w, a).gen
    {
    }

    // Nobody else acts any more, in generation g.
    ghost predicate Alone(g: nat)
      reads this
    {
      script == [] && world.gen == g
    }

    ghost predicate Holds(bandwidth: nat, hi: set<nat>, lo: set<nat>)
      reads this
    {
      world.bandwidth == bandwidth && world.hi == hi && world.lo == lo
    }

    // One word of CHANNELS_AVAILABLE holds word, the other what it did.
    ghost predicate OneWord(reg: Register, word: set<nat>, hi: set<nat>, lo: set<nat>)
      reads this
    {
      if reg.ChannelsHi? then Holds(world.bandwidth, word, lo) else Holds(world.bandwidth, hi, word)
    }

    // The channel's bit is one.
    ghost predicate Free(c: nat)
      reads this
    {
      c in world.hi + world.lo
    }

    lemma FreeIs(c: nat)
      requires Valid()
      ensures Free(c) <==> c in (if c < 32 then world.hi else world.lo)
      ensures if c < 32 then world.lo - {c} == world.lo else world.hi - {c} == world.hi
      ensures world.hi - {NO_CHANNEL} == world.hi && world.lo - {NO_CHANNEL} == world.lo
    {
      assert Fits(ChannelsHi, Bits(world.hi)) && Fits(ChannelsLo, Bits(world.lo));
      assert if c < 32 then c !in world.lo else c !in world.hi;
      assert NO_CHANNEL !in world.hi + world.lo;
    }

    lemma Values()
      ensures Value(world, BandwidthAvailable) == Units(world.bandwidth)
      ensures Value(world, ChannelsHi) == Bits(world.hi) && Value(world, ChannelsLo) == Bits(world.lo)
    {
    }

    // What register r holds after one transaction that nobody disturbs.
    static function Swapped(w: World, op: Op, r: Register): Word {
      if op.Cas? && op.reg == r && op.cmp == Value(w, r) then op.new_ else Value(w, r)
    }

    // What submit() may return when the transaction did not succeed.
    ghost predicate Broken(me: nat, was: Channel, status: Status)
      requires me < |world.chans| && was.pc.Waiting()
      reads this`world
    {
      && world.chans[me] == was.(wire := world.chans[me].wire)
      && (status.WasReset? ==> world.gen != was.pc.g)
    }

    // submit(): the outstanding transaction is answered, or its generation
    // ends, or it fails, and the responder may have applied it all the same.
    method Submit(me: nat) returns (status: Status, value: Word)
      requires Valid() && me < |world.chans|
      requires world.chans[me].wire.Sent? && world.chans[me].pc.Waiting()
      modifies this
      ensures Valid() && |world.chans| == old(|world.chans|)
      ensures old(history) <= history && Works(me, old(history), history)
      ensures status.Ok? || status.WasReset? || status.Failed?
      ensures Fits(old(world.chans[me]).wire.op.reg, value)
      ensures status.Ok? ==> world.chans[me] == Answer(old(world.chans[me]), value)
      ensures !status.Ok? ==> Broken(me, old(world.chans[me]), status) && !world.chans[me].wire.Quiet?
      ensures old(world.gen) != old(world.chans[me].pc.g) ==> status.WasReset?
      ensures old(world.gen) <= world.gen
      ensures |script| <= |old(script)| && (old(script) != [] ==> |script| < |old(script)|)
      ensures failures == old(failures) + if status.Failed? then 1 else 0
      ensures status.Failed? ==> !faults(old(sent)).Fine?
      ensures old(Alone(world.chans[me].pc.g)) ==>
                && !status.WasReset? && Alone(old(world.gen))
                && (status.Ok? ==> value == Value(old(world), old(world.chans[me].wire.op.reg)))
                && (status.Ok? ==> forall r :: Value(world, r) == Swapped(old(world), old(world.chans[me].wire.op), r))
                && forall r :: r != old(world.chans[me].wire.op.reg) ==> Value(world, r) == Value(old(world), r)
    {
      assert Shape(world.chans[me], world.gen);
      hide ShapeWorld, Run, Along, Step;
      var op := world.chans[me].wire.op;
      Others(me);
      value := Value(world, op.reg);
      ValueFits(world, op.reg);
      if world.gen != world.chans[me].pc.g {
        status := WasReset;
        return;
      }
      var fault := faults(sent);
      sent := sent + 1;
      if fault.NotApplied? {
        status := Failed;
        failures := failures + 1;
        return;
      }
      Responds(me);
      status := Ok;
      if fault.Applied? {
        if world.gen != world.chans[me].pc.g {
          status := WasReset;
        } else {
          status := Failed;
          failures := failures + 1;
        }
      }
    }

    // The responder acts, and then everybody else.
    method Responds(me: nat)
      requires Valid() && me < |world.chans| && Enabled(world, Serve(me))
      modifies this`world, this`script, this`history
      ensures Valid() && |world.chans| == old(|world.chans|)
      ensures old(history) <= history && Works(me, old(history), history)
      ensures world.chans[me] == Answer(old(world.chans[me]), Value(old(world), old(world.chans[me].wire.op.reg)))
      ensures old(world.gen) <= world.gen && |script| <= |old(script)|
      ensures old(script) == [] ==>
                && world.gen == old(world.gen)
                && forall r :: Value(world, r) == Swapped(old(world), old(world.chans[me].wire.op), r)
    {
      ghost var before := world;
      Do(Serve(me));
      Served(before, me);
      Others(me);
    }

    lemma ValueFits(w: World, reg: Register)
      requires ShapeWorld(w)
      ensures Fits(reg, Value(w, reg))
    {
    }

    lemma Served(w: World, i: nat)
      requires ShapeWorld(w) && Enabled(w, Serve(i))
      ensures var w' := Step(w, Serve(i)); var reg := w.chans[i].wire.op.reg;
              && w'.chans[i] == Answer(w.chans[i], Value(w, reg)) && w'.gen == w.gen
              && forall r :: Value(w', r) == Swapped(w, w.chans[i].wire.op, r)
    {
      if w.chans[i].wire.op.Cas? {
        SwapIsOwn(w.chans[i], w.gen, Covering(w.chans[i], w.gen));
      }
    }

    lemma Typed(me: nat)
      requires Valid() && me < |world.chans|
      ensures WellTyped(world.chans[me])
    {
      assert Shape(world.chans[me], world.gen);
    }

    // The code after a submit() that succeeded, up to the next one.
    method Proceeds(me: nat)
      requires Valid() && me < |world.chans| && world.chans[me].wire.Answered?
      modifies this`world, this`history
      ensures Valid() && |world.chans| == old(|world.chans|)
      ensures old(history) <= history && Works(me, old(history), history)
      ensures WellTyped(old(world.chans[me])) && world.chans[me] == Resume(old(world.chans[me]), world.gen)
      ensures world.gen == old(world.gen) && forall r :: Value(world, r) == Value(old(world), r)
    {
      assert Shape(world.chans[me], world.gen);
      Do(Proceed(me));
    }

    // One turn of a retry loop: next is the object about to submit its
    // compare-and-swap against value, the register's value when last read.
    method Turn(me: nat, ghost next: Channel, ghost value: Word) returns (status: Status, newValue: Word)
      requires Valid() && me < |world.chans| && world.chans[me].wire.Answered?
      requires WellTyped(world.chans[me]) ==> next == Resume(world.chans[me], world.gen)
      requires next.wire.Sent? && next.wire.op.Cas? && next.wire.op.cmp == value && next.pc.Waiting()
      modifies this
      ensures Valid() && |world.chans| == old(|world.chans|)
      ensures old(history) <= history && Works(me, old(history), history)
      ensures old(world.gen) <= world.gen
      ensures status.Ok? || status.WasReset? || status.Failed?
      ensures Fits(next.wire.op.reg, newValue)
      ensures if status.Ok? then world.chans[me] == Answer(next, newValue)
              else Broken(me, next, status) && !world.chans[me].wire.Quiet?
      ensures failures == old(failures) + if status.Failed? then 1 else 0
      ensures old(Alone(next.pc.g)) && Value(old(world), next.wire.op.reg) == value ==>
                && Alone(next.pc.g) && (status.Ok? ==> newValue == value)
                && (status.Ok? ==> forall r :: Value(world, r) == Swapped(old(world), next.wire.op, r))
                && forall r :: r != next.wire.op.reg ==> Value(world, r) == Value(old(world), r)
      ensures |script| < |old(script)| ||
              (|script| == |old(script)| &&
               Turns(next.wire.op.reg, newValue, next.pc.g, status.Ok? && newValue != value) <
               old(Turns(next.wire.op.reg, value, next.pc.g, true)))
    {
      hide ShapeWorld, Run, Along;
      Proceeds(me);
      status, newValue := Submit(me);
    }

    // The generation never goes back.
    static lemma GenerationGrows(start: World, before: seq<Action>, after: seq<Action>)
      requires |start.accounts| == |start.chans| && before <= after
      ensures Run(start, before).gen <= Run(start, after).gen
    {
      hide Step;
      if before != after {
        var n := |after| - 1;
        GenerationGrows(start, before, after[..n]);
        GenerationStep(Run(start, after[..n]), after[n]);
      }
    }

    static lemma GenerationStep(w: World, a: Action)
      requires |w.accounts| == |w.chans|
      ensures w.gen <= Step(w, a).gen
    {
    }

    // How many more turns a loop can take once nobody else has anything to do.
    ghost function Turns(reg: Register, value: Word, g: nat, going: bool): nat
      reads this
    {
      if !going then 0
      else if Value(world, reg) == value && world.gen == g then 1
      else 2
    }

    // The code after a submit() that returned a bus reset or another error.
    method Breaks(me: nat, status: Status, junk: nat)
      requires Valid() && me < |world.chans| && world.chans[me].pc.Waiting()
      requires Broken(me, world.chans[me], status) && (status.WasReset? || status.Failed?)
      modifies this`world, this`history
      ensures Valid() && |world.chans| == old(|world.chans|)
      ensures old(history) <= history && Works(me, old(history), history)
      ensures WellTyped(old(world.chans[me])) && !old(world.chans[me]).wire.Quiet?
      ensures world.chans[me] == Fail(old(world.chans[me]), world.gen, status.WasReset?, junk)
      ensures world.gen == old(world.gen)
    {
      assert Shape(world.chans[me], world.gen);
      Do(Break(me, status.WasReset?, junk));
    }

    // The start of a call, which samples the generation.
    method Begins(me: nat, a: Action)
      requires Valid() && me < |world.chans| && a.Of(me) && Enabled(world, a)
      requires a.Release? || a.Realloc? || a.Allocate? || a.Sample? || a.TimeOut?
      modifies this`world, this`history
      ensures Valid() && history == old(history) + [a] && |world.chans| == old(|world.chans|)
      ensures a.Release? ==> world.chans[me] == StartRelease(old(world.chans[me]), world.gen)
      ensures a.Realloc? ==> world.chans[me] == StartRealloc(old(world.chans[me]), world.gen, a.g)
      ensures a.Allocate? ==> world.chans[me] == old(world.chans[me]).At(AllocStart(a.job), Quiet)
      ensures a.Sample? ==> world.chans[me] == AllocSample(old(world.chans[me]), world.gen)
      ensures a.TimeOut? ==> world.chans[me] == old(world.chans[me]).At(Idle, Quiet)
      ensures world.gen == old(world.gen) && forall r :: Value(world, r) == Value(old(world), r)
    {
      Do(a);
    }
  }

  class IsochChannel {
    const bus: Bus
    const me: nat
    var fBandwidth: nat
    var fChannel: nat
    var fGeneration: nat

    // The model's view of this object while a call is in progress.
    ghost predicate Busy()
      reads this, bus
    {
      && bus.Valid() && me < |bus.world.chans|
      && bus.world.chans[me].fBandwidth == fBandwidth
      && bus.world.chans[me].fChannel == fChannel
    }

    ghost predicate Valid()
      reads this, bus
    {
      Busy() && bus.world.chans[me] == Channel(fBandwidth, fChannel, fGeneration, Idle, Quiet)
    }

    constructor (bus: Bus, me: nat)
      requires bus.Valid() && me < |bus.world.chans|
      requires bus.world.chans[me] == Channel(0, NO_CHANNEL, 0, Idle, Quiet)
      ensures Valid() && this.bus == bus && this.me == me
    {
      this.bus, this.me := bus, me;
      fBandwidth, fChannel, fGeneration := 0, NO_CHANNEL, 0;
    }

    // ----- reallocBandwidth -----

    static lemma AfterReallocUnits(ch: Channel, gen: nat, g: nat)
      requires WellTyped(ch) && !ch.wire.Quiet?
      requires ch.pc == ReallocReadBandwidth(g) || ch.pc == ReallocSwapBandwidth(g)
      ensures forall reset, junk :: Fail(ch, gen, reset, junk) == ReallocDone(ch, g)
      ensures ch.wire.Answered? ==>
                && ch.wire.old_.Units?
                && Resume(ch, gen) ==
                   if ch.pc == ReallocSwapBandwidth(g) && ch.wire.Landed() then ReallocChannelPart(ch, g)
                   else ReallocTryBandwidth(ch, g, ch.wire.old_.n)
    {
    }

    static lemma AfterReallocBit(ch: Channel, gen: nat, g: nat)
      requires WellTyped(ch) && !ch.wire.Quiet? && (ch.pc == ReallocReadChannel(g) || ch.pc == ReallocSwapChannel(g))
      ensures forall reset, junk :: Fail(ch, gen, reset, junk) == ReallocDone(ch, g)
      ensures ch.wire.Answered? ==>
                && ch.wire.old_.Bits?
                && Resume(ch, gen) == (if ch.pc == ReallocSwapChannel(g) && ch.wire.Landed() then ReallocDone(ch, g)
                                       else ReallocTryChannel(ch, g, ch.wire.old_.chans))
    {
    }

    // The first compare-and-swap loop: claim fBandwidth again, starting from
    // the register's value as read.
    method ReallocUnitsLoop(generation: nat, first: nat) returns (result: Status)
      requires Busy() && fBandwidth != 0
      requires Looping(ReallocReadBandwidth(generation), ReallocSwapBandwidth(generation), Units(first), Ok, false)
      modifies bus
      ensures Busy() && old(bus.history) <= bus.history
      ensures result.Ok? || result.NoSpace? || result.WasReset? || result.Failed?
      ensures result.NoSpace? ==> bus.world.chans[me].wire.Answered? && bus.world.chans[me].wire.old_.Units?
                                  && bus.world.chans[me].wire.old_.n < fBandwidth
      ensures Looping(ReallocReadBandwidth(generation), ReallocSwapBandwidth(generation),
                      bus.world.chans[me].Last(), result, result.Ok?)
      ensures old(bus.failures) <= bus.failures && (result.Failed? ==> old(bus.failures) < bus.failures)
      ensures old(bus.Alone(generation) && bus.world.bandwidth == first) && bus.failures == old(bus.failures) ==>
                && bus.Alone(generation) && result == (if first < fBandwidth then NoSpace else Ok)
                && bus.Holds(if result.Ok? then first - fBandwidth else first, old(bus.world.hi), old(bus.world.lo))
    {
      hide ShapeWorld, Run, Along, Resume, Fail, WellTyped, Bus.Works;
      result := Ok;
      var oldVal: nat := first;
      var done := false;
      while result.Ok? && !done
        invariant Busy() && old(bus.history) <= bus.history
        invariant result.Ok? || result.NoSpace? || result.WasReset? || result.Failed?
        invariant Looping(ReallocReadBandwidth(generation), ReallocSwapBandwidth(generation),
                          Units(oldVal), result, done)
        invariant result.NoSpace? ==> oldVal < fBandwidth && !done
        invariant old(bus.failures) <= bus.failures && (result.Failed? ==> old(bus.failures) < bus.failures)
        invariant old(bus.Alone(generation) && bus.world.bandwidth == first) && bus.failures == old(bus.failures) ==>
                    && bus.Alone(generation) && oldVal == first && (done ==> fBandwidth <= first)
                    && (result.Ok? || (result.NoSpace? && !done))
                    && bus.Holds(if done then first - fBandwidth else first, old(bus.world.hi), old(bus.world.lo))
        decreases |bus.script|, bus.Turns(BandwidthAvailable, Units(oldVal), generation, result.Ok? && !done)
      {
        if oldVal < fBandwidth {
          result := NoSpace;
        }
        if result.Ok? {
          ghost var next := ReallocTryBandwidth(bus.world.chans[me], generation, oldVal);
          bus.Typed(me);
          AfterReallocUnits(bus.world.chans[me], bus.world.gen, generation);
          var value;
          bus.Values();
          result, value := bus.Turn(me, next, Units(oldVal));
          bus.Values();
          if result.Ok? {
            done := oldVal == value.n;
            oldVal := value.n;
          }
        }
      }
    }

    method ReallocUnits(generation: nat) returns (result: Status)
      requires Busy() && fBandwidth != 0
      requires bus.world.chans[me] ==
               Channel(fBandwidth, fChannel, fGeneration, ReallocReadBandwidth(generation),
                       Sent(Read(BandwidthAvailable)))
      modifies this`fBandwidth, this`fChannel, bus
      ensures Busy() && old(bus.history) <= bus.history
      ensures result.Ok? || result.NoSpace? || result.WasReset? || result.Failed?
      ensures result.NoSpace? ==> fBandwidth == 0 && fChannel == NO_CHANNEL
      ensures !result.NoSpace? ==> fBandwidth == old(fBandwidth) && fChannel == old(fChannel)
      ensures result.WasReset? ==> bus.world.gen != generation
      ensures bus.world.chans[me] ==
              if result.Ok? && fChannel != NO_CHANNEL then
                Channel(fBandwidth, fChannel, fGeneration, ReallocReadChannel(generation),
                        Sent(Read(ChannelRegister(fChannel))))
              else Channel(fBandwidth, fChannel, generation, Idle, Quiet)
      ensures old(bus.failures) <= bus.failures && (result.Failed? ==> old(bus.failures) < bus.failures)
      ensures old(bus.Alone(generation)) && bus.failures == old(bus.failures) ==>
                && bus.Alone(generation)
                && result == (if old(bus.world.bandwidth < fBandwidth) then NoSpace else Ok)
                && bus.Holds(if result.Ok? then old(bus.world.bandwidth - fBandwidth) else old(bus.world.bandwidth),
                             old(bus.world.hi), old(bus.world.lo))
    {
      hide ShapeWorld, Run, Along, Resume, Fail, WellTyped, Bus.Works;
      var value;
      bus.Values();
      result, value := bus.Submit(me);
      bus.Values();
      if result.Ok? {
        result := ReallocUnitsLoop(generation, value.n);
      }
      bus.Typed(me);
      AfterReallocUnits(bus.world.chans[me], bus.world.gen, generation);
      bus.Values();
      if result.WasReset? || result.Failed? {
        bus.Breaks(me, result, 0);
      } else {
        bus.Proceeds(me);
      }
      bus.Values();
      if result.NoSpace? {
        fBandwidth := 0;
        fChannel := NO_CHANNEL;
      }
    }

    // A retry loop between two submits: the model holds the answer just read,
    // or its transaction did not succeed.
    ghost predicate Looping(reading: Pc, swapping: Pc, value: Word, status: Status, done: bool)
      requires bus.Valid() && me < |bus.world.chans| && reading.Waiting() && swapping.Waiting()
      reads this, bus
    {
      var ch := bus.world.chans[me];
      && ch == Channel(fBandwidth, fChannel, fGeneration, ch.pc, ch.wire)
      && (ch.pc == reading || ch.pc == swapping)
      && !ch.wire.Quiet?
      && (if status.WasReset? || status.Failed? then bus.Broken(me, ch, status) else
            && ch.wire.Answered? && ch.wire.old_ == value
            && (done <==> ch.pc == swapping && ch.wire.Landed()))
    }

    // The second loop: clear this channel's bit again.
    method ReallocBitLoop(generation: nat, first: set<nat>) returns (result: Status)
      requires Busy() && fChannel != NO_CHANNEL
      requires Looping(ReallocReadChannel(generation), ReallocSwapChannel(generation), Bits(first), Ok, false)
      modifies bus
      ensures Busy() && old(bus.history) <= bus.history && bus.world.gen >= old(bus.world.gen)
      ensures result.Ok? || result.ChannelNotAvailable? || result.WasReset? || result.Failed?
      ensures result.ChannelNotAvailable? ==> bus.world.chans[me].wire.Answered? && bus.world.chans[me].wire.old_.Bits?
                                              && fChannel !in bus.world.chans[me].wire.old_.chans
      ensures Looping(ReallocReadChannel(generation), ReallocSwapChannel(generation),
                      bus.world.chans[me].Last(), result, result.Ok?)
      ensures old(bus.failures) <= bus.failures && (result.Failed? ==> old(bus.failures) < bus.failures)
      ensures old(bus.Alone(generation)) && old(Value(bus.world, ChannelRegister(fChannel))) == Bits(first)
              && bus.failures == old(bus.failures) ==>
                && bus.Alone(generation) && result == (if fChannel in first then Ok else ChannelNotAvailable)
                && bus.world.bandwidth == old(bus.world.bandwidth)
                && bus.OneWord(ChannelRegister(fChannel), if result.Ok? then first - {fChannel} else first,
                               old(bus.world.hi), old(bus.world.lo))
    {
      hide ShapeWorld, Run, Along, Resume, Fail, WellTyped, Bus.Works;
      result := Ok;
      var oldVal: set<nat> := first;
      var done := false;
      while result.Ok? && !done
        invariant Busy() && old(bus.history) <= bus.history && bus.world.gen >= old(bus.world.gen)
        invariant result.Ok? || result.ChannelNotAvailable? || result.WasReset? || result.Failed?
        invariant Looping(ReallocReadChannel(generation), ReallocSwapChannel(generation), Bits(oldVal), result, done)
        invariant result.ChannelNotAvailable? ==> fChannel !in oldVal && !done
        invariant old(bus.failures) <= bus.failures && (result.Failed? ==> old(bus.failures) < bus.failures)
        invariant old(bus.Alone(generation)) && old(Value(bus.world, ChannelRegister(fChannel))) == Bits(first)
                  && bus.failures == old(bus.failures) ==>
                    && bus.Alone(generation) && oldVal == first && (done ==> fChannel in first)
                    && (result.Ok? || (result.ChannelNotAvailable? && !done))
                    && bus.world.bandwidth == old(bus.world.bandwidth)
                    && bus.OneWord(ChannelRegister(fChannel), if done then first - {fChannel} else first,
                                   old(bus.world.hi), old(bus.world.lo))
        decreases |bus.script|, bus.Turns(ChannelRegister(fChannel), Bits(oldVal), generation, result.Ok? && !done)
      {
        var newVal := oldVal - {fChannel};
        if newVal == oldVal {
          result := ChannelNotAvailable;
        }
        if result.Ok? {
          ghost var next := ReallocTryChannel(bus.world.chans[me], generation, oldVal);
          bus.Typed(me);
          AfterReallocBit(bus.world.chans[me], bus.world.gen, generation);
          var value;
          bus.Values();
          result, value := bus.Turn(me, next, Bits(oldVal));
          bus.Values();
          if result.Ok? {
            done := oldVal == value.chans;
            oldVal := value.chans;
          }
        }
      }
    }

    method ReallocBit(generation: nat) returns (result: Status)
      requires Busy() && fChannel != NO_CHANNEL
      requires bus.world.chans[me] ==
               Channel(fBandwidth, fChannel, fGeneration, ReallocReadChannel(generation),
                       Sent(Read(ChannelRegister(fChannel))))
      modifies this`fChannel, bus
      ensures Busy() && old(bus.history) <= bus.history && bus.world.gen >= old(bus.world.gen)
      ensures result.Ok? || result.ChannelNotAvailable? || result.WasReset? || result.Failed?
      ensures fChannel == if result.ChannelNotAvailable? then NO_CHANNEL else old(fChannel)
      ensures result.WasReset? ==> bus.world.gen != generation
      ensures bus.world.chans[me] == Channel(fBandwidth, fChannel, generation, Idle, Quiet)
      ensures old(bus.failures) <= bus.failures && (result.Failed? ==> old(bus.failures) < bus.failures)
      ensures old(bus.Alone(generation)) && bus.failures == old(bus.failures) ==>
                && bus.Alone(generation)
                && result == (if old(bus.Free(fChannel)) then Ok else ChannelNotAvailable)
                && bus.Holds(old(bus.world.bandwidth), old(bus.world.hi - {fChannel}), old(bus.world.lo - {fChannel}))
    {
      hide ShapeWorld, Run, Along, Resume, Fail, WellTyped, Bus.Works;
      var value;
      bus.FreeIs(fChannel);
      bus.Values();
      result, value := bus.Submit(me);
      bus.Values();
      if result.Ok? {
        result := ReallocBitLoop(generation, value.chans);
      }
      bus.Typed(me);
      AfterReallocBit(bus.world.chans[me], bus.world.gen, generation);
      bus.Values();
      if result.WasReset? || result.Failed? {
        bus.Breaks(me, result, 0);
      } else {
        bus.Proceeds(me);
      }
      bus.Values();
      if result.ChannelNotAvailable? {
        fChannel := NO_CHANNEL;
      }
    }

    method ReallocBandwidth(generation: nat) returns (result: Status)
      requires Valid() && generation <= bus.world.gen
      modifies this, bus
      ensures Valid() && old(bus.history) <= bus.history && fGeneration == generation
      ensures result.NoSpace? ==> fBandwidth == 0 && fChannel == NO_CHANNEL
      ensures result.ChannelNotAvailable? ==> fBandwidth == old(fBandwidth) && fChannel == NO_CHANNEL
      ensures !result.NoSpace? && !result.ChannelNotAvailable? ==>
                fBandwidth == old(fBandwidth) && fChannel == old(fChannel)
      ensures result == AlreadyDone <==> old(bus.world.gen) == generation && old(fGeneration) == generation
      ensures result.WasReset? ==> bus.world.gen != generation
      ensures !result.TimedOut? && !result.NoResources? && !result.CannotLock?
      ensures old(bus.failures) <= bus.failures && (result.Failed? ==> old(bus.failures) < bus.failures)
      // with nobody else on the bus and no failed transaction it takes all it can
      ensures old(bus.Alone(generation)) && old(fGeneration) != generation && bus.failures == old(bus.failures) ==>
                && (result.NoSpace? <==> old(bus.world.bandwidth < fBandwidth))
                && (result.ChannelNotAvailable? <==>
                      old(fBandwidth <= bus.world.bandwidth && fChannel != NO_CHANNEL && !bus.Free(fChannel)))
                && (result.Ok? <==>
                      old(fBandwidth <= bus.world.bandwidth && (fChannel == NO_CHANNEL || bus.Free(fChannel))))
                && bus.Holds(old(bus.world.bandwidth) - fBandwidth,
                             old(bus.world.hi) - {fChannel}, old(bus.world.lo) - {fChannel})
    {
      hide ShapeWorld, Run, Along;
      bus.FreeIs(fChannel);
      bus.Values();
      result := Ok;
      var currentGeneration := bus.world.gen;
      if currentGeneration != generation {
        result := WasReset;
      }
      if result.Ok? && fGeneration == generation {
        result := AlreadyDone;
      }
      bus.Begins(me, Realloc(me, generation));
      bus.Values();
      if fBandwidth != 0 && result.Ok? {
        result := ReallocUnits(generation);
      }
      if fChannel != NO_CHANNEL && result.Ok? {
        result := ReallocBit(generation);
      }
      fGeneration := generation;
    }

    // ----- releaseChannelComplete -----

    static lemma AfterReleaseUnits(ch: Channel, gen: nat, g: nat)
      requires WellTyped(ch) && !ch.wire.Quiet?
      requires ch.pc == ReleaseReadBandwidth(g) || ch.pc == ReleaseSwapBandwidth(g)
      ensures forall reset, junk :: Fail(ch, gen, reset, junk) ==
                if reset then ReleaseDone(ch, g) else ReleaseChannelPart(ch.(fBandwidth := 0), g)
      ensures ch.wire.Answered? ==>
                && ch.wire.old_.Units?
                && Resume(ch, gen) == (if ch.pc == ReleaseSwapBandwidth(g) && ch.wire.Landed()
                                       then ReleaseChannelPart(ch.(fBandwidth := 0), g)
                                       else ReleaseTryBandwidth(ch, g, ch.wire.old_.n))
    {
    }

    static lemma AfterReleaseBit(ch: Channel, gen: nat, g: nat)
      requires WellTyped(ch) && !ch.wire.Quiet? && (ch.pc == ReleaseReadChannel(g) || ch.pc == ReleaseSwapChannel(g))
      ensures forall reset, junk :: Fail(ch, gen, reset, junk) == ReleaseDone(ch, g)
      ensures ch.wire.Answered? ==>
                && ch.wire.old_.Bits?
                && Resume(ch, gen) == (if ch.pc == ReleaseSwapChannel(g) && ch.wire.Landed() then ReleaseDone(ch, g)
                                       else ReleaseTryChannel(ch, g, ch.wire.old_.chans))
    {
    }

    // The loop that gives the bandwidth back.
    method ReleaseUnitsLoop(generation: nat, first: nat) returns (result: Status)
      requires Busy() && fBandwidth != 0
      requires Looping(ReleaseReadBandwidth(generation), ReleaseSwapBandwidth(generation), Units(first), Ok, false)
      modifies bus
      ensures Busy() && Bus.Works(me, old(bus.history), bus.history)
      ensures result.Ok? || result.WasReset? || result.Failed?
      ensures Looping(ReleaseReadBandwidth(generation), ReleaseSwapBandwidth(generation),
                      bus.world.chans[me].Last(), result, result.Ok?)
      ensures old(bus.failures) <= bus.failures && (result.Failed? ==> old(bus.failures) < bus.failures)
      ensures old(bus.Alone(generation) && bus.world.bandwidth == first) && bus.failures == old(bus.failures) ==>
                && bus.Alone(generation) && result.Ok?
                && bus.Holds((first + fBandwidth) % TWO_TO_32, old(bus.world.hi), old(bus.world.lo))
    {
      hide ShapeWorld, Run, Along, Resume, Fail, WellTyped, Bus.Works;
      Bus.WorksNot(me, bus.history);
      result := Ok;
      var oldVal: nat := first;
      var done := false;
      while result.Ok? && !done
        invariant Busy() && Bus.Works(me, old(bus.history), bus.history)
        invariant result.Ok? || result.WasReset? || result.Failed?
        invariant Looping(ReleaseReadBandwidth(generation), ReleaseSwapBandwidth(generation),
                          Units(oldVal), result, done)
        invariant old(bus.failures) <= bus.failures && (result.Failed? ==> old(bus.failures) < bus.failures)
        invariant old(bus.Alone(generation) && bus.world.bandwidth == first) && bus.failures == old(bus.failures) ==>
                    && bus.Alone(generation) && oldVal == first && result.Ok?
                    && bus.Holds(if done then (first + fBandwidth) % TWO_TO_32 else first,
                                 old(bus.world.hi), old(bus.world.lo))
        decreases |bus.script|, bus.Turns(BandwidthAvailable, Units(oldVal), generation, result.Ok? && !done)
      {
        ghost var next := ReleaseTryBandwidth(bus.world.chans[me], generation, oldVal);
        bus.Typed(me);
        AfterReleaseUnits(bus.world.chans[me], bus.world.gen, generation);
        ghost var was := bus.history;
        var value;
        bus.Values();
        result, value := bus.Turn(me, next, Units(oldVal));
        bus.Values();
        Bus.WorksOn(me, old(bus.history), was, bus.history);
        if result.Ok? {
          done := oldVal == value.n;
          oldVal := value.n;
        }
      }
    }

    // Error or not, the object has no bandwidth afterwards.
    method ReleaseUnits(generation: nat) returns (result: Status)
      requires Busy() && fBandwidth != 0
      requires bus.world.chans[me] ==
               Channel(fBandwidth, fChannel, fGeneration, ReleaseReadBandwidth(generation),
                       Sent(Read(BandwidthAvailable)))
      modifies this`fBandwidth, bus
      ensures bus.Valid() && me < |bus.world.chans| && Bus.Works(me, old(bus.history), bus.history)
      ensures fBandwidth == 0 && (result.Ok? || result.WasReset?)
      ensures bus.world.chans[me] ==
              if result.Ok? && fChannel != NO_CHANNEL then
                Channel(0, fChannel, fGeneration, ReleaseReadChannel(generation), Sent(Read(ChannelRegister(fChannel))))
              else Channel(0, NO_CHANNEL, generation, Idle, Quiet)
      ensures old(bus.failures) <= bus.failures
      ensures old(bus.Alone(generation)) && bus.failures == old(bus.failures) ==>
                && bus.Alone(generation) && result.Ok?
                && bus.Holds(old((bus.world.bandwidth + fBandwidth) % TWO_TO_32),
                             old(bus.world.hi), old(bus.world.lo))
    {
      hide ShapeWorld, Run, Along, Resume, Fail, WellTyped, Bus.Works;
      var value;
      bus.Values();
      result, value := bus.Submit(me);
      bus.Values();
      ghost var was := bus.history;
      if result.Ok? {
        result := ReleaseUnitsLoop(generation, value.n);
        Bus.WorksOn(me, old(bus.history), was, bus.history);
      }
      bus.Typed(me);
      AfterReleaseUnits(bus.world.chans[me], bus.world.gen, generation);
      was := bus.history;
      bus.Values();
      if result.WasReset? || result.Failed? {
        bus.Breaks(me, result, 0);
      } else {
        bus.Proceeds(me);
      }
      bus.Values();
      Bus.WorksOn(me, old(bus.history), was, bus.history);
      fBandwidth := 0;
      if !result.WasReset? {
        result := Ok;
      }
    }

    // The loop that gives the channel back.
    method ReleaseBitLoop(generation: nat, first: set<nat>) returns (result: Status)
      requires Busy() && fChannel != NO_CHANNEL
      requires Looping(ReleaseReadChannel(generation), ReleaseSwapChannel(generation), Bits(first), Ok, false)
      modifies bus
      ensures Busy() && Bus.Works(me, old(bus.history), bus.history)
      ensures result.Ok? || result.WasReset? || result.Failed?
      ensures Looping(ReleaseReadChannel(generation), ReleaseSwapChannel(generation),
                      bus.world.chans[me].Last(), result, result.Ok?)
      ensures old(bus.failures) <= bus.failures && (result.Failed? ==> old(bus.failures) < bus.failures)
      ensures old(bus.Alone(generation)) && old(Value(bus.world, ChannelRegister(fChannel))) == Bits(first)
              && bus.failures == old(bus.failures) ==>
                && bus.Alone(generation) && bus.world.bandwidth == old(bus.world.bandwidth)
                && bus.OneWord(ChannelRegister(fChannel), first + {fChannel}, old(bus.world.hi), old(bus.world.lo))
    {
      hide ShapeWorld, Run, Along, Resume, Fail, WellTyped, Bus.Works;
      Bus.WorksNot(me, bus.history);
      result := Ok;
      var oldVal: set<nat> := first;
      var done := false;
      while result.Ok? && !done
        invariant Busy() && Bus.Works(me, old(bus.history), bus.history)
        invariant result.Ok? || result.WasReset? || result.Failed?
        invariant Looping(ReleaseReadChannel(generation), ReleaseSwapChannel(generation), Bits(oldVal), result, done)
        invariant old(bus.failures) <= bus.failures && (result.Failed? ==> old(bus.failures) < bus.failures)
        invariant old(bus.Alone(generation)) && old(Value(bus.world, ChannelRegister(fChannel))) == Bits(first)
                  && bus.failures == old(bus.failures) ==>
                    && bus.Alone(generation) && oldVal == first && result.Ok?
                    && bus.world.bandwidth == old(bus.world.bandwidth)
                    && bus.OneWord(ChannelRegister(fChannel), if done then first + {fChannel} else first,
                                   old(bus.world.hi), old(bus.world.lo))
        decreases |bus.script|, bus.Turns(ChannelRegister(fChannel), Bits(oldVal), generation, result.Ok? && !done)
      {
        ghost var next := ReleaseTryChannel(bus.world.chans[me], generation, oldVal);
        bus.Typed(me);
        AfterReleaseBit(bus.world.chans[me], bus.world.gen, generation);
        ghost var was := bus.history;
        var value;
        bus.Values();
        result, value := bus.Turn(me, next, Bits(oldVal));
        bus.Values();
        Bus.WorksOn(me, old(bus.history), was, bus.history);
        if result.Ok? {
          done := oldVal == value.chans;
          oldVal := value.chans;
        }
      }
    }

    method ReleaseBit(generation: nat)
      requires Busy() && fChannel != NO_CHANNEL
      requires bus.world.chans[me] ==
               Channel(fBandwidth, fChannel, fGeneration, ReleaseReadChannel(generation),
                       Sent(Read(ChannelRegister(fChannel))))
      modifies bus
      ensures bus.Valid() && me < |bus.world.chans| && Bus.Works(me, old(bus.history), bus.history)
      ensures bus.world.chans[me] == Channel(0, NO_CHANNEL, generation, Idle, Quiet)
      ensures old(bus.failures) <= bus.failures
      ensures old(bus.Alone(generation)) && bus.failures == old(bus.failures) ==>
                && bus.Alone(generation)
                && bus.Holds(old(bus.world.bandwidth),
                             old(bus.world.hi) + if fChannel < 32 then {fChannel} else {},
                             old(bus.world.lo) + if fChannel < 32 then {} else {fChannel})
    {
      hide ShapeWorld, Run, Along, Resume, Fail, WellTyped, Bus.Works;
      bus.Values();
      var result, value := bus.Submit(me);
      bus.Values();
      ghost var was := bus.history;
      if result.Ok? {
        result := ReleaseBitLoop(generation, value.chans);
        Bus.WorksOn(me, old(bus.history), was, bus.history);
      }
      bus.Typed(me);
      AfterReleaseBit(bus.world.chans[me], bus.world.gen, generation);
      was := bus.history;
      bus.Values();
      if result.WasReset? || result.Failed? {
        bus.Breaks(me, result, 0);
      } else {
        bus.Proceeds(me);
      }
      bus.Values();
      Bus.WorksOn(me, old(bus.history), was, bus.history);
    }

    // However its swaps are disturbed, in an orderly run without another reset
    // the release takes exactly what the fields named off the object's account.
    method ReleaseChannelComplete()
      requires Valid()
      modifies this, bus
      ensures Valid() && Bus.Works(me, old(bus.history) + [Release(me)], bus.history)
      ensures fBandwidth == 0 && fChannel == NO_CHANNEL && fGeneration == old(bus.world.gen)
      ensures ExactAt(old(bus.world), me) && old(fGeneration == bus.world.gen)
              && Along(Step(old(bus.world), Release(me)), bus.history[|old(bus.history)| + 1..],
                       IsochTheorems.NoReset(me)) ==>
                && bus.world.gen == old(bus.world.gen)
                && bus.world.accounts[me].units == old(bus.world.accounts[me].units - fBandwidth)
                && bus.world.accounts[me].channels ==
                   old(bus.world.accounts[me].channels - if fChannel == NO_CHANNEL then {} else {fChannel})
      // with nobody else on the bus and no failed transaction both are in the registers again
      ensures old(bus.script == [] && fGeneration == bus.world.gen) && bus.failures == old(bus.failures) ==>
                bus.Holds(old(Refunded(bus.world.bandwidth, fBandwidth)),
                          old(bus.world.hi + if fChannel < 32 then {fChannel} else {}),
                          old(bus.world.lo + if fChannel < 32 || fChannel == NO_CHANNEL then {} else {fChannel}))
    {
      hide ShapeWorld, Run, Along, ExactAt;
      bus.Values();
      var result := Ok;
      var generation := bus.world.gen;
      bus.Begins(me, Release(me));
      bus.Values();
      if generation != fGeneration {
        result := WasReset;
        fBandwidth := 0;
        fChannel := NO_CHANNEL;
      }
      if fBandwidth != 0 {
        result := ReleaseUnits(generation);
      }
      if fChannel != NO_CHANNEL && result.Ok? {
        ReleaseBit(generation);
      }
      fBandwidth := 0;
      fChannel := NO_CHANNEL;
      fGeneration := generation;
      ReleasedExactly(bus.start, old(bus.history), bus.history, me);
    }

    static lemma ReleasedExactly(start: World, before: seq<Action>, after: seq<Action>, me: nat)
      requires |start.accounts| == |start.chans| && me < |start.chans|
      requires Bus.Works(me, before + [Release(me)], after)
      ensures var w, w' := Run(start, before), Run(start, after);
              ExactAt(w, me) && w.chans[me].pc.Idle? && w.chans[me].fGeneration == w.gen && w'.chans[me].pc.Idle?
              && Along(Step(w, Release(me)), after[|before| + 1..], IsochTheorems.NoReset(me)) ==>
                && w'.gen == w.gen
                && w'.accounts[me].units == w.accounts[me].units - w.chans[me].fBandwidth
                && w'.accounts[me].channels == w.accounts[me].channels - IsochTheorems.Held(w.chans[me])
    {
      hide ExactAt, Step, Run, Along, Bus.Works, IsochTheorems.Held;
      SinceRelease(start, before, after, me);
      var w, acts := Run(start, before), after[|before| + 1..];
      IsochRuns.RunOfSum(start, before + [Release(me)], acts);
      if ExactAt(w, me) && w.chans[me].pc.Idle? && w.chans[me].fGeneration == w.gen
         && Along(Step(w, Release(me)), acts, IsochTheorems.NoReset(me)) {
        StaysInCall(Step(w, Release(me)), acts, me);
        IsochTheorems.ReleaseReturnsExactly(w, me, acts);
      }
    }

    // The actions since the release began.
    static lemma SinceRelease(start: World, before: seq<Action>, after: seq<Action>, me: nat)
      requires |start.accounts| == |start.chans| && Bus.Works(me, before + [Release(me)], after)
      ensures |before| < |after|
      ensures var acts := after[|before| + 1..];
              && after == before + [Release(me)] + acts
              && Run(start, before + [Release(me)]) == Step(Run(start, before), Release(me))
              && forall k :: 0 <= k < |acts| && acts[k].Of(me) ==>
                   acts[k].Serve? || acts[k].Proceed? || acts[k].Break?
    {
      hide Step;
      var acts := after[|before| + 1..];
      assert (before + [Release(me)])[..|before|] == before;
      assert forall k :: 0 <= k < |acts| ==> acts[k] == after[|before| + 1 + k];
    }

    static lemma StaysInCall(w: World, acts: seq<Action>, me: nat)
      requires |w.accounts| == |w.chans| && Along(w, acts, IsochTheorems.NoReset(me))
      requires forall k :: 0 <= k < |acts| && acts[k].Of(me) ==> acts[k].Serve? || acts[k].Proceed? || acts[k].Break?
      ensures Along(w, acts, IsochTheorems.InOneCall(me))
    {
      if acts != [] {
        StaysInCall(w, acts[..|acts| - 1], me);
      }
    }

    // ----- allocateChannelBegin -----

    // Nobody else acts any more, and the register still has the value read.
    ghost predicate Undisturbed(generation: nat, units: nat, hi: set<nat>, lo: set<nat>)
      reads this, bus
    {
      && bus.script == [] && bus.world.gen == generation
      && (fBandwidth == 0 ==> bus.world.bandwidth == units) && bus.world.hi == hi && bus.world.lo == lo
    }

    static lemma AfterAllocRead(ch: Channel, gen: nat, g: nat, job: Job, got: seq<Word>)
      requires WellTyped(ch) && !ch.wire.Quiet? && ch.pc == AllocRead(g, job, got)
      ensures |got| < 3
      ensures forall reset, junk :: Fail(ch, gen, reset, junk) ==
                if reset then AllocAfterReset(ch, job) else ch.At(Idle, Quiet)
      ensures ch.wire.Answered? && |got| < 2 ==>
                Resume(ch, gen) ==
                ch.At(AllocRead(g, job, got + [ch.wire.old_]), Sent(Read(AllocReadRegister(|got| + 1))))
    {
    }

    // What the object becomes when a read or the bandwidth claim does not succeed.
    ghost predicate GivenUp(status: Status, job: Job)
      requires me < |bus.world.chans|
      reads this, bus
    {
      bus.world.chans[me] ==
        if status.WasReset? then Channel(0, NO_CHANNEL, fGeneration, AllocStart(job), Quiet)
        else Channel(fBandwidth, fChannel, fGeneration, Idle, Quiet)
    }

    // One of the first two quadlet reads.
    method ReadQuadlet(generation: nat, ghost job: Job, ghost got: seq<Word>) returns (status: Status, value: Word)
      requires Busy() && |got| < 2
      requires bus.world.chans[me] ==
               Channel(fBandwidth, fChannel, fGeneration, AllocRead(generation, job, got),
                       Sent(Read(AllocReadRegister(|got|))))
      modifies bus
      ensures bus.Valid() && me < |bus.world.chans| && old(bus.history) <= bus.history
      ensures |bus.script| <= |old(bus.script)| && (old(bus.script) != [] ==> |bus.script| < |old(bus.script)|)
      ensures status.Ok? || status.WasReset? || status.Failed?
      ensures Fits(AllocReadRegister(|got|), value)
      ensures if status.Ok? then
                bus.world.chans[me] ==
                Channel(fBandwidth, fChannel, fGeneration, AllocRead(generation, job, got + [value]),
                        Sent(Read(AllocReadRegister(|got| + 1))))
              else GivenUp(status, job)
      ensures old(bus.script) == [] && old(bus.world.gen) == generation && !status.Failed? ==>
                && status.Ok? && bus.world.gen == generation && value == Value(old(bus.world), AllocReadRegister(|got|))
                && forall r :: Value(bus.world, r) == Value(old(bus.world), r)
      ensures bus.failures == old(bus.failures) + if status.Failed? then 1 else 0
    {
      hide ShapeWorld, Run, Along, Resume, Fail, WellTyped, Bus.Works;
      status, value := bus.Submit(me);
      bus.Typed(me);
      AfterAllocRead(bus.world.chans[me], bus.world.gen, generation, job, got);
      if status.Ok? {
        bus.Proceeds(me);
      } else {
        bus.Breaks(me, status, 0);
      }
    }

    // The last of them. On success the model still holds its answer.
    method ReadLast(generation: nat, ghost job: Job, ghost units: nat, ghost hi: set<nat>)
      returns (status: Status, lo: set<nat>)
      requires Busy()
      requires bus.world.chans[me] ==
               Channel(fBandwidth, fChannel, fGeneration, AllocRead(generation, job, [Units(units), Bits(hi)]),
                       Sent(Read(ChannelsLo)))
      modifies bus
      ensures bus.Valid() && me < |bus.world.chans| && old(bus.history) <= bus.history
      ensures |bus.script| <= |old(bus.script)| && (old(bus.script) != [] ==> |bus.script| < |old(bus.script)|)
      ensures status.Ok? || status.WasReset? || status.Failed?
      ensures if status.Ok? then
                bus.world.chans[me] == Channel(fBandwidth, fChannel, fGeneration,
                                               AllocRead(generation, job, [Units(units), Bits(hi)]),
                                               Answered(Read(ChannelsLo), Bits(lo)))
              else GivenUp(status, job)
      ensures bus.failures == old(bus.failures) + if status.Failed? then 1 else 0
      ensures old(bus.Alone(generation)) && !status.Failed? ==>
                && status.Ok? && bus.Alone(generation) && lo == old(bus.world.lo)
                && bus.Holds(old(bus.world.bandwidth), old(bus.world.hi), lo)
    {
      hide ShapeWorld, Run, Along, Resume, Fail, WellTyped, Bus.Works;
      bus.Values();
      var value;
      status, value := bus.Submit(me);
      bus.Values();
      lo := value.chans;
      bus.Typed(me);
      AfterAllocRead(bus.world.chans[me], bus.world.gen, generation, job, [Units(units), Bits(hi)]);
      if !status.Ok? {
        bus.Breaks(me, status, 0);
      }
    }

    // The three quadlet reads. On success the model holds the last answer.
    method ReadRegisters(generation: nat, ghost job: Job)
      returns (status: Status, units: nat, hi: set<nat>, lo: set<nat>)
      requires Busy()
      requires bus.world.chans[me] ==
               Channel(fBandwidth, fChannel, fGeneration, AllocRead(generation, job, []),
                       Sent(Read(BandwidthAvailable)))
      requires bus.world.gen == generation
      modifies bus
      ensures bus.Valid() && me < |bus.world.chans| && old(bus.history) <= bus.history
      ensures |bus.script| <= |old(bus.script)|
      ensures status.Ok? || status.WasReset? || status.Failed?
      ensures if status.Ok? then
                bus.world.chans[me] == Channel(fBandwidth, fChannel, fGeneration,
                                               AllocRead(generation, job, [Units(units), Bits(hi)]),
                                               Answered(Read(ChannelsLo), Bits(lo)))
              else GivenUp(status, job)
      ensures bus.failures == old(bus.failures) + if status.Failed? then 1 else 0
      ensures if old(bus.script) == [] then
                status.Failed? ||
                (status.Ok? && bus.Alone(generation) && bus.Holds(units, hi, lo)
                 && old(bus.Holds(units, hi, lo)))
              else |bus.script| < |old(bus.script)|
    {
      hide ShapeWorld, Run, Along, Resume, Fail, WellTyped, Bus.Works;
      units, hi, lo := 0, {}, {};
      bus.Values();
      var value;
      status, value := ReadQuadlet(generation, job, []);
      if status.Ok? {
        units := value.n;
        assert [] + [value] == [Units(units)];
        status, value := ReadQuadlet(generation, job, [Units(units)]);
      }
      if status.Ok? {
        hi := value.chans;
        assert [Units(units)] + [value] == [Units(units), Bits(hi)];
        bus.Values();
        status, lo := ReadLast(generation, job, units, hi);
      }
    }

    static lemma AfterAllocUnits(ch: Channel, gen: nat, g: nat, job: Job, hi: set<nat>, lo: set<nat>)
      requires WellTyped(ch) && !ch.wire.Quiet? && ch.pc == AllocBandwidth(g, job, hi, lo)
      ensures forall reset, junk :: Fail(ch, gen, reset, junk) ==
                if reset then AllocAfterReset(ch, job) else ch.At(Idle, Quiet)
      ensures ch.wire.Answered? ==>
                && ch.wire.old_.Units?
                && Resume(ch, gen) ==
                   if ch.wire.Landed() then AllocClaimChannel(ch.(fBandwidth := job.want), gen, g, job, hi, lo)
                   else ch.At(AllocStart(job), Quiet)
    {
    }

    // Claim the bandwidth once; a miss is reported, not retried here.
    method ClaimUnits(generation: nat, ghost job: Job, units: nat, ghost hi: set<nat>, ghost lo: set<nat>)
      returns (status: Status, ghost from: Channel)
      requires Busy() && fBandwidth == 0 && job.want <= units
      requires bus.world.chans[me] ==
               Channel(0, fChannel, fGeneration, AllocBandwidth(generation, job, hi, lo),
                       Sent(Cas(BandwidthAvailable, Units(units), Units(units - job.want))))
      modifies bus
      ensures bus.Valid() && me < |bus.world.chans| && old(bus.history) <= bus.history
      ensures |bus.script| <= |old(bus.script)|
      ensures status.Ok? || status.CannotLock? || status.WasReset? || status.Failed?
      ensures status.Ok? ==>
                && from == Channel(job.want, fChannel, fGeneration, from.pc, from.wire)
                && bus.world.chans[me] == AllocClaimChannel(from, bus.world.gen, generation, job, hi, lo)
      ensures status.CannotLock? ==> bus.world.chans[me] == Channel(0, fChannel, fGeneration, AllocStart(job), Quiet)
      ensures status.WasReset? || status.Failed? ==> GivenUp(status, job)
      ensures bus.failures == old(bus.failures) + if status.Failed? then 1 else 0
      ensures old(Undisturbed(generation, units, hi, lo)) && !status.Failed? ==>
                status.Ok? && bus.Alone(generation) && bus.Holds(units - job.want, hi, lo)
    {
      hide ShapeWorld, Run, Along, Resume, Fail, WellTyped, Bus.Works, AllocClaimChannel;
      from := bus.world.chans[me];
      var value;
      bus.Values();
      status, value := bus.Submit(me);
      bus.Values();
      bus.Typed(me);
      AfterAllocUnits(bus.world.chans[me], bus.world.gen, generation, job, hi, lo);
      if !status.Ok? {
        bus.Breaks(me, status, 0);
      } else {
        if value.n != units {
          status := CannotLock;
        }
        from := bus.world.chans[me].(fBandwidth := job.want);
        bus.Proceeds(me);
        assert Value(bus.world, ChannelsHi) == Bits(bus.world.hi) && Value(bus.world, ChannelsLo) == Bits(bus.world.lo);
      }
    }

    static lemma AfterAllocRefund(ch: Channel, gen: nat, g: nat, job: Job, retries: nat, again: bool)
      requires WellTyped(ch) && !ch.wire.Quiet? && ch.pc == Refund(g, job, retries, again)
      ensures ch.wire.Answered? ==>
                && ch.wire.old_.Units?
                && Resume(ch, gen) ==
                   if ch.wire.Landed() || retries == 1 then AfterRefund(ch, job, again)
                   else ch.At(Refund(g, job, retries - 1, again), Sent(RefundOp(ch.wire.old_.n, ch.fBandwidth)))
    {
    }

    static lemma AfterBrokenRefund(
      ch: Channel, gen: nat, g: nat, job: Job, retries: nat, again: bool, reset: bool, junk: nat)
      requires WellTyped(ch) && !ch.wire.Quiet? && ch.pc == Refund(g, job, retries, again)
      ensures Fail(ch, gen, reset, junk) ==
              if reset || retries == 1 then AfterRefund(ch, job, again)
              else ch.At(Refund(g, job, retries - 1, again), Sent(RefundOp(junk, ch.fBandwidth)))
    {
    }

    static function Refunded(units: nat, fBandwidth: nat): nat {
      if fBandwidth == 0 then units else (units + fBandwidth) % TWO_TO_32
    }

    // releaseIRMBandwidthInGeneration: two attempts, the first one blind.
    method RefundUnits(generation: nat, ghost job: Job, ghost again: bool, ghost from: Channel)
      requires bus.Valid() && me < |bus.world.chans|
      requires from == Channel(fBandwidth, NO_CHANNEL, fGeneration, from.pc, from.wire)
      requires bus.world.chans[me] == StartRefund(from, bus.world.gen, generation, job, again)
      modifies bus
      ensures bus.Valid() && me < |bus.world.chans| && old(bus.history) <= bus.history
      ensures |bus.script| <= |old(bus.script)|
      ensures bus.world.chans[me] ==
              Channel(fBandwidth, NO_CHANNEL, fGeneration, if again then AllocStart(job) else Idle, Quiet)
      ensures old(bus.failures) <= bus.failures
      ensures old(bus.Alone(generation)) && bus.failures == old(bus.failures) ==>
                && bus.Alone(generation)
                && bus.Holds(Refunded(old(bus.world.bandwidth), fBandwidth), old(bus.world.hi), old(bus.world.lo))
    {
      hide ShapeWorld, Run, Along, Resume, Fail, WellTyped, Bus.Works;
      if fBandwidth != 0 && bus.world.gen == generation {
        var retries := 2;
        var expected: nat := 0;
        while retries > 0
          invariant 0 <= retries <= 2 && bus.Valid() && me < |bus.world.chans| && old(bus.history) <= bus.history
          invariant |bus.script| <= |old(bus.script)|
          invariant bus.world.chans[me] ==
                    if retries == 0 then
                      Channel(fBandwidth, NO_CHANNEL, fGeneration, if again then AllocStart(job) else Idle, Quiet)
                    else
                      Channel(fBandwidth, NO_CHANNEL, fGeneration, Refund(generation, job, retries, again),
                              Sent(RefundOp(expected, fBandwidth)))
          invariant old(bus.failures) <= bus.failures
          invariant old(bus.Alone(generation)) && bus.failures == old(bus.failures) ==>
                      && bus.Alone(generation)
                      && (retries == 2 ==> expected == 0) && (retries == 1 ==> expected == old(bus.world.bandwidth))
                      && bus.Holds(if retries == 0 then Refunded(old(bus.world.bandwidth), fBandwidth)
                                   else old(bus.world.bandwidth), old(bus.world.hi), old(bus.world.lo))
        {
          bus.Values();
          var status, value := bus.Submit(me);
          bus.Values();
          bus.Typed(me);
          AfterAllocRefund(bus.world.chans[me], bus.world.gen, generation, job, retries, again);
          if !status.Ok? {
            // the result variable still holds whatever it held before
            var junk: nat := *;
            AfterBrokenRefund(bus.world.chans[me], bus.world.gen, generation, job, retries, again,
                              status.WasReset?, junk);
            bus.Breaks(me, status, junk);
            retries := if status.WasReset? then 0 else retries - 1;
            expected := junk;
          } else {
            bus.Proceeds(me);
            bus.Values();
            if value.n == expected {
              retries := 0;
            } else {
              retries := retries - 1;
              expected := value.n;
            }
          }
        }
      }
    }

    static lemma AfterAllocBit(ch: Channel, gen: nat, g: nat, job: Job, c: nat)
      requires WellTyped(ch) && !ch.wire.Quiet? && ch.pc == AllocChannel(g, job, c)
      ensures forall reset, junk :: Fail(ch, gen, reset, junk) ==
                if reset then AllocAfterReset(ch, job) else StartRefund(ch, gen, g, job, false)
      ensures ch.wire.Answered? ==>
                && ch.wire.old_.Bits?
                && Resume(ch, gen) == (if ch.wire.Landed() then ch.(fChannel := c, fGeneration := g).At(Idle, Quiet)
                                       else StartRefund(ch, gen, g, job, true))
    {
    }

    // The loop over the 64 bits stops at the lowest allowed channel.
    method FirstChannel(masked: set<nat>) returns (channel: nat)
      requires forall c :: c in masked ==> c < NO_CHANNEL
      ensures masked == {} ==> channel == NO_CHANNEL
      ensures masked != {} ==> channel == Lowest(masked)
    {
      channel := 0;
      while channel < NO_CHANNEL && channel !in masked
        invariant channel <= NO_CHANNEL && forall d :: d in masked ==> channel <= d
      {
        channel := channel + 1;
      }
    }

    // Swap the channel's bit out of the word that it was in.
    method SwapBit(generation: nat, ghost job: Job, channel: nat, word: set<nat>) returns (status: Status)
      requires bus.Valid() && me < |bus.world.chans| && fChannel == NO_CHANNEL && channel in word
      requires bus.world.chans[me] ==
               Channel(fBandwidth, NO_CHANNEL, fGeneration, AllocChannel(generation, job, channel),
                       Sent(Cas(ChannelRegister(channel), Bits(word), Bits(word - {channel}))))
      modifies this`fChannel, this`fGeneration, bus
      ensures bus.Valid() && me < |bus.world.chans| && old(bus.history) <= bus.history
      ensures |bus.script| <= |old(bus.script)|
      ensures status.Ok? || status.CannotLock? || status.WasReset? || status.Failed?
      ensures status.Ok? ==> Valid() && fChannel == channel && fGeneration == generation
      ensures !status.Ok? ==> fChannel == NO_CHANNEL && fGeneration == old(fGeneration)
      ensures status.Failed? ==> Valid()
      ensures status.CannotLock? ==>
                bus.world.chans[me] == Channel(fBandwidth, NO_CHANNEL, fGeneration, AllocStart(job), Quiet)
      ensures status.WasReset? ==>
                bus.world.chans[me] == Channel(0, NO_CHANNEL, fGeneration, AllocStart(job), Quiet)
      ensures old(bus.failures) <= bus.failures && (status.Failed? ==> old(bus.failures) < bus.failures)
      ensures old(bus.Alone(generation)) && old(Value(bus.world, ChannelRegister(channel))) == Bits(word) ==>
                && (status.Ok? || status.Failed?)
                && (status.Ok? ==>
                      && bus.world.bandwidth == old(bus.world.bandwidth)
                      && bus.OneWord(ChannelRegister(channel), word - {channel},
                                     old(bus.world.hi), old(bus.world.lo)))
    {
      hide ShapeWorld, Run, Along, Resume, Fail, WellTyped, Bus.Works;
      bus.Values();
      var value;
      status, value := bus.Submit(me);
      bus.Values();
      bus.Typed(me);
      AfterAllocBit(bus.world.chans[me], bus.world.gen, generation, job, channel);
      if !status.Ok? {
        ghost var broken := bus.world.chans[me];
        bus.Breaks(me, status, 0);
        if status.Failed? {
          RefundUnits(generation, job, false, broken);
        }
      } else {
        ghost var answered := bus.world.chans[me];
        bus.Proceeds(me);
        bus.Values();
        if value.chans != word {
          status := CannotLock;
          RefundUnits(generation, job, true, answered);
        } else {
          fChannel := channel;
          fGeneration := generation;
        }
      }
    }

    // Claim a channel; on failure other than a reset refund the bandwidth.
    method ClaimBit(generation: nat, want: nat, allowed: set<nat>, hi: set<nat>, lo: set<nat>, ghost from: Channel)
      returns (status: Status, masked: set<nat>)
      requires bus.Valid() && me < |bus.world.chans| && fChannel == NO_CHANNEL
      requires Fits(ChannelsHi, Bits(hi)) && Fits(ChannelsLo, Bits(lo))
      requires from == Channel(fBandwidth, NO_CHANNEL, fGeneration, from.pc, from.wire)
      requires bus.world.chans[me] == AllocClaimChannel(from, bus.world.gen, generation, Job(want, allowed), hi, lo)
      modifies this`fChannel, this`fGeneration, bus
      ensures bus.Valid() && me < |bus.world.chans| && old(bus.history) <= bus.history
      ensures |bus.script| <= |old(bus.script)| && masked == allowed * (hi + lo)
      ensures status.Ok? || status.NoResources? || status.CannotLock? || status.WasReset? || status.Failed?
      ensures status.Ok? ==> Valid() && fChannel in masked && fGeneration == generation
      ensures !status.Ok? ==> fChannel == NO_CHANNEL && fGeneration == old(fGeneration)
      ensures status.NoResources? <==> masked == {}
      ensures status.NoResources? || status.Failed? ==> Valid()
      ensures status.CannotLock? ==>
                bus.world.chans[me] ==
                Channel(fBandwidth, NO_CHANNEL, fGeneration, AllocStart(Job(want, masked)), Quiet)
      ensures status.WasReset? ==>
                bus.world.chans[me] == Channel(0, NO_CHANNEL, fGeneration, AllocStart(Job(want, masked)), Quiet)
      ensures status.Ok? ==> forall d :: d in masked ==> fChannel <= d
      ensures old(bus.failures) <= bus.failures && (status.Failed? ==> old(bus.failures) < bus.failures)
      ensures old(bus.script == [] && bus.world.gen == generation && bus.world.hi == hi && bus.world.lo == lo) ==>
                && (status.Ok? || status.NoResources? || status.Failed?)
                && (bus.failures == old(bus.failures) ==>
                      if status.Ok? then bus.Holds(old(bus.world.bandwidth), hi - {fChannel}, lo - {fChannel})
                      else bus.Holds(Refunded(old(bus.world.bandwidth), fBandwidth), hi, lo))
    {
      hide ShapeWorld, Run, Along, Resume, Fail, WellTyped, Bus.Works;
      bus.Values();
      masked := allowed * (hi + lo);
      ghost var job := Job(want, masked);
      var channel := FirstChannel(masked);
      if channel == NO_CHANNEL {
        status := NoResources;
        RefundUnits(generation, job, false, from);
        return;
      }
      assert if channel < 32 then lo - {channel} == lo else hi - {channel} == hi;
      status := SwapBit(generation, job, channel, if channel < 32 then hi else lo);
    }

    // The bandwidth wanted, or what the object had kept from an earlier call.
    predicate Has(want: nat, kept: nat)
      reads this`fBandwidth
    {
      fBandwidth == want || (fBandwidth != 0 && fBandwidth == kept)
    }

    // No channel, or the one the object had before the call.
    predicate NoneOr(had: nat)
      reads this`fChannel
    {
      fChannel == NO_CHANNEL || fChannel == had
    }

    // What an allocation comes to that nobody disturbs and no error ends, for an
    // object that had kept and had, from registers that held units, hi and lo.
    ghost predicate Claimed(status: Status, want: nat, allowed: set<nat>, kept: nat, had: nat,
                            units: nat, hi: set<nat>, lo: set<nat>)
      reads this, bus
    {
      && !status.TimedOut?
      && (status.NoSpace? <==> kept == 0 && units < want)
      && (status.NoResources? <==>
            (kept != 0 || want <= units) && had == NO_CHANNEL && allowed * (hi + lo) == {})
      && (status.Ok? <==>
            (kept != 0 || want <= units) && (had != NO_CHANNEL || allowed * (hi + lo) != {}))
      && (status.NoSpace? ==> bus.Holds(units, hi, lo))
      && (status.Ok? ==>
            && fBandwidth == (if kept == 0 then want else kept)
            && (if had != NO_CHANNEL then fChannel == had else
                  && fChannel in allowed * (hi + lo)
                  && forall c :: c in allowed * (hi + lo) ==> fChannel <= c)
            && bus.Holds(if kept == 0 then units - want else units,
                         if had == NO_CHANNEL then hi - {fChannel} else hi,
                         if had == NO_CHANNEL then lo - {fChannel} else lo))
      && (status.NoResources? ==>
            && fBandwidth == (if kept == 0 then want else kept)
            && bus.Holds(Refunded(if kept == 0 then units - want else units, fBandwidth), hi, lo))
    }

    // The claims of one pass, from the words just read.
    method ClaimBoth(generation: nat, want: nat, allowed: set<nat>, units: nat, hi: set<nat>, lo: set<nat>,
                     ghost read: Channel, ghost kept: nat, ghost had: nat)
      returns (status: Status, masked: set<nat>)
      requires bus.Valid() && me < |bus.world.chans|
      requires fChannel <= NO_CHANNEL && NoneOr(had) && (fBandwidth == 0 || Has(want, kept))
      requires Fits(ChannelsHi, Bits(hi)) && Fits(ChannelsLo, Bits(lo))
      requires read == Channel(fBandwidth, fChannel, fGeneration, read.pc, read.wire)
      requires bus.world.chans[me] == AllocAfterRead(read, bus.world.gen, generation, Job(want, allowed), units, hi, lo)
      modifies this, bus
      ensures bus.Valid() && me < |bus.world.chans| && old(bus.history) <= bus.history
      ensures |bus.script| <= |old(bus.script)| && masked <= allowed
      ensures status.Ok? ==> Valid() && fChannel < NO_CHANNEL && Has(want, kept)
      ensures status.Ok? ==> fChannel in masked || fChannel == had
      ensures !status.Ok? ==> fChannel <= NO_CHANNEL && NoneOr(had) && fGeneration == old(fGeneration)
      ensures status.NoSpace? ==> Valid() && fBandwidth == 0
      ensures status.NoResources? ==> Valid() && Has(want, kept) && masked == {} && fChannel == NO_CHANNEL
      ensures status.Failed? ==> Valid() && (fBandwidth == 0 || Has(want, kept))
      ensures status.WasReset? || status.CannotLock? ==>
                && (fBandwidth == 0 || Has(want, kept))
                && bus.world.chans[me] ==
                   Channel(fBandwidth, fChannel, fGeneration, AllocStart(Job(want, masked)), Quiet)
      ensures old(bus.failures) <= bus.failures && (status.Failed? ==> old(bus.failures) < bus.failures)
      ensures old(Undisturbed(generation, units, hi, lo)) ==> !status.WasReset? && !status.CannotLock?
      ensures old(Undisturbed(generation, units, hi, lo) && bus.world.bandwidth == units)
              && bus.failures == old(bus.failures) ==>
                Claimed(status, want, allowed, old(fBandwidth), old(fChannel), units, hi, lo)
      ensures !status.ChannelNotAvailable? && !status.AlreadyDone? && !status.TimedOut?
    {
      hide ShapeWorld, Run, Along, Resume, Fail, WellTyped, Bus.Works, AllocClaimChannel;
      masked := allowed;
      status := Ok;
      ghost var from := read;
      if fBandwidth == 0 {
        if units < want {
          status := NoSpace;
          return;
        }
        status, from := ClaimUnits(generation, Job(want, allowed), units, hi, lo);
        if !status.Ok? {
          if status.WasReset? {
            fChannel := NO_CHANNEL;
          }
          return;
        }
        fBandwidth := want;
      }
      if fChannel == NO_CHANNEL {
        status, masked := ClaimBit(generation, want, allowed, hi, lo, from);
      } else {
        KeepsChannel(from, bus.world.gen, generation, Job(want, allowed), hi, lo);
        fGeneration := generation;
      }
      if status.WasReset? {
        fBandwidth := 0;
      }
    }

    static lemma KeepsChannel(ch: Channel, gen: nat, g: nat, job: Job, hi: set<nat>, lo: set<nat>)
      requires ch.fChannel != NO_CHANNEL
      ensures AllocClaimChannel(ch, gen, g, job, hi, lo) == ch.(fGeneration := g).At(Idle, Quiet)
    {
    }

    // Waits until the last bus reset is a second ago. There can be more resets
    // while it sleeps; after fifteen in a row it gives up.
    method WaitForQuiet() returns (generation: nat, late: bool)
      requires Busy()
      modifies bus
      ensures Busy() && bus.world.chans[me] == old(bus.world.chans[me]) && old(bus.history) <= bus.history
      ensures |bus.script| <= |old(bus.script)| && bus.failures == old(bus.failures)
      ensures generation == bus.world.gen
      ensures late ==> old(bus.world.gen) + 15 <= bus.world.gen
      ensures old(bus.script) == [] ==> !late && bus.world == old(bus.world) && bus.script == []
    {
      hide ShapeWorld, Run, Along, Bus.Works;
      generation := bus.world.gen;
      var delayRetries := 15;
      while delayRetries > 0
        invariant Busy() && bus.world.chans[me] == old(bus.world.chans[me]) && old(bus.history) <= bus.history
        invariant |bus.script| <= |old(bus.script)| && bus.failures == old(bus.failures)
        invariant generation == bus.world.gen && 0 <= delayRetries <= 15
        invariant old(bus.world.gen) + (15 - delayRetries) <= bus.world.gen
        invariant old(bus.script) == [] ==> delayRetries == 15 && bus.world == old(bus.world) && bus.script == []
      {
        var quiet: bool := *;
        if quiet {
          break;
        }
        bus.Others(me);
        if bus.world.gen == generation {
          break;
        }
        generation := bus.world.gen;
        delayRetries := delayRetries - 1;
      }
      late := delayRetries == 0;
    }

    // One pass of the do-while loop.
    method AllocateOnce(want: nat, allowed: set<nat>, ghost kept: nat, ghost had: nat)
      returns (status: Status, masked: set<nat>)
      requires Busy() && fChannel <= NO_CHANNEL && NoneOr(had) && (fBandwidth == 0 || Has(want, kept))
      requires bus.world.chans[me] ==
               Channel(fBandwidth, fChannel, fGeneration, AllocStart(Job(want, allowed)), Quiet)
      modifies this, bus
      ensures bus.Valid() && me < |bus.world.chans| && old(bus.history) <= bus.history
      ensures |bus.script| <= |old(bus.script)| && masked <= allowed
      ensures status.Ok? ==> Valid() && fChannel < NO_CHANNEL && Has(want, kept)
      ensures status.Ok? ==> fChannel in masked || fChannel == had
      ensures !status.Ok? ==> fChannel <= NO_CHANNEL && NoneOr(had) && fGeneration == old(fGeneration)
      ensures status.NoSpace? ==> Valid() && fBandwidth == 0
      ensures status.TimedOut? ==> Valid() && fBandwidth == old(fBandwidth) && fChannel == old(fChannel)
      ensures status.NoResources? ==> Valid() && Has(want, kept) && masked == {} && fChannel == NO_CHANNEL
      ensures status.Failed? ==> Valid() && (fBandwidth == 0 || Has(want, kept))
      ensures status.WasReset? || status.CannotLock? ==>
                && |bus.script| < |old(bus.script)| && (fBandwidth == 0 || Has(want, kept))
                && bus.world.chans[me] ==
                   Channel(fBandwidth, fChannel, fGeneration, AllocStart(Job(want, masked)), Quiet)
      ensures !status.ChannelNotAvailable? && !status.AlreadyDone?
      ensures old(bus.failures) <= bus.failures && (status.Failed? ==> old(bus.failures) < bus.failures)
      ensures status.TimedOut? ==> old(bus.world.gen) + 15 <= bus.world.gen
      ensures old(bus.script) == [] && bus.failures == old(bus.failures) ==>
                Claimed(status, want, allowed, old(fBandwidth), old(fChannel),
                        old(bus.world.bandwidth), old(bus.world.hi), old(bus.world.lo))
    {
      hide ShapeWorld, Run, Along, Resume, Fail, WellTyped, Bus.Works, AllocAfterRead;
      masked := allowed;
      bus.Values();
      var generation, late := WaitForQuiet();
      bus.Values();
      if late {
        bus.Begins(me, TimeOut(me));
        status := TimedOut;
        return;
      }
      bus.Begins(me, Sample(me));
      bus.Values();
      var units, hi, lo;
      status, units, hi, lo := ReadRegisters(generation, Job(want, allowed));
      if !status.Ok? {
        if status.WasReset? {
          fBandwidth := 0;
          fChannel := NO_CHANNEL;
        }
        return;
      }
      bus.Typed(me);
      LastRead(bus.world.chans[me], bus.world.gen, generation, Job(want, allowed), units, hi, lo);
      ghost var read := bus.world.chans[me];
      bus.Proceeds(me);
      bus.Values();
      status, masked := ClaimBoth(generation, want, allowed, units, hi, lo, read, kept, had);
    }

    static lemma LastRead(ch: Channel, gen: nat, g: nat, job: Job, units: nat, hi: set<nat>, lo: set<nat>)
      requires WellTyped(ch) && ch.wire == Answered(Read(ChannelsLo), Bits(lo))
      requires ch.pc == AllocRead(g, job, [Units(units), Bits(hi)])
      ensures Resume(ch, gen) == AllocAfterRead(ch, gen, g, job, units, hi, lo)
      ensures Fits(ChannelsHi, Bits(hi)) && Fits(ChannelsLo, Bits(lo))
    {
      assert Fits(AllocReadRegister(1), ch.pc.got[1]);
    }

    method AllocateChannelBegin(want: nat, allowedChans: set<nat>) returns (status: Status)
      requires Valid()
      modifies this, bus
      ensures Valid() && old(bus.history) <= bus.history
      ensures status.Ok? ==>
                && (fChannel in allowedChans || fChannel == old(fChannel)) && fChannel < NO_CHANNEL
                && Has(want, old(fBandwidth))
      ensures !status.Ok? ==> NoneOr(old(fChannel)) && fGeneration == old(fGeneration)
      ensures status.Ok? || status.NoSpace? || status.NoResources? || status.TimedOut? || status.Failed?
      ensures status.NoSpace? ==> fBandwidth == 0
      ensures status.TimedOut? || status.Failed? ==> fBandwidth == 0 || Has(want, old(fBandwidth))
      // the refunded bandwidth is still on the object's books
      ensures status.NoResources? ==> Has(want, old(fBandwidth)) && fChannel == NO_CHANNEL
      ensures status.Failed? ==> old(bus.failures) < bus.failures
      ensures status.TimedOut? ==> old(bus.world.gen) + 15 <= bus.world.gen
      // with nobody else on the bus and no failed transaction
      ensures old(bus.script) == [] && bus.failures == old(bus.failures) ==>
                Claimed(status, want, allowedChans, old(fBandwidth), old(fChannel),
                        old(bus.world.bandwidth), old(bus.world.hi), old(bus.world.lo))
    {
      bus.Values();
      assert Shape(bus.world.chans[me], bus.world.gen);
      hide ShapeWorld, Run, Along;
      bus.Begins(me, Allocate(me, Job(want, allowedChans)));
      bus.Values();
      var allowed := allowedChans;
      status := CannotLock;
      while status.WasReset? || status.CannotLock?
        invariant bus.Valid() && me < |bus.world.chans| && old(bus.history) <= bus.history && allowed <= allowedChans
        invariant !status.ChannelNotAvailable? && !status.AlreadyDone?
        invariant !status.Ok? ==> fChannel <= NO_CHANNEL && NoneOr(old(fChannel)) && fGeneration == old(fGeneration)
        invariant status.WasReset? || status.CannotLock? ==>
                    && (fBandwidth == 0 || Has(want, old(fBandwidth)))
                    && bus.world.chans[me] ==
                       Channel(fBandwidth, fChannel, fGeneration, AllocStart(Job(want, allowed)), Quiet)
        invariant !status.WasReset? && !status.CannotLock? ==> Valid()
        invariant status.Ok? ==>
                    (fChannel in allowedChans || fChannel == old(fChannel)) && fChannel < NO_CHANNEL
                    && Has(want, old(fBandwidth))
        invariant status.NoSpace? ==> fBandwidth == 0
        invariant status.TimedOut? || status.Failed? ==> fBandwidth == 0 || Has(want, old(fBandwidth))
        invariant status.NoResources? ==> Has(want, old(fBandwidth)) && fChannel == NO_CHANNEL
        invariant old(bus.failures) <= bus.failures && (status.Failed? ==> old(bus.failures) < bus.failures)
        invariant old(bus.world.gen) <= bus.world.gen
        invariant status.TimedOut? ==> old(bus.world.gen) + 15 <= bus.world.gen
        invariant old(bus.script) == [] && bus.failures == old(bus.failures) ==>
                    if status.WasReset? || status.CannotLock? then
                      && fBandwidth == old(fBandwidth) && fChannel == old(fChannel) && allowed == allowedChans
                      && bus.Holds(old(bus.world.bandwidth), old(bus.world.hi), old(bus.world.lo))
                    else
                      Claimed(status, want, allowedChans, old(fBandwidth), old(fChannel),
                              old(bus.world.bandwidth), old(bus.world.hi), old(bus.world.lo))
        invariant |bus.script| <= |old(bus.script)|
        decreases |bus.script|, if status.WasReset? || status.CannotLock? then 1 else 0
      {
        status, allowed := AllocateOnce(want, allowed, old(fBandwidth), old(fChannel));
        Bus.GenerationGrows(bus.start, old(bus.history), bus.history);
      }
    }
  }

  // Two objects at rest on one bus, both allocated in its current generation,
  // have different channels, whatever calls brought them there.
  lemma ObjectsHoldDifferentChannels(x: IsochChannel, y: IsochChannel)
    requires x.Valid() && y.Valid() && x.bus == y.bus && x.me != y.me
    requires x.fGeneration == x.bus.world.gen == y.fGeneration
    requires Along(x.bus.start, x.bus.history, Reliable)
    ensures x.fChannel == y.fChannel ==> x.fChannel == NO_CHANNEL
  {
    var w := x.bus.world;
    assert Shape(w.chans[x.me], w.gen);
    IsochTheorems.ChannelExclusivity(x.bus.start, x.bus.history, x.me, y.me, x.fChannel);
  }
}
