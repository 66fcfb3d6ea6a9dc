/**
 Any number of channel objects, foreign nodes and bus resets, interleaved
 between any two transactions; and what each kind of run keeps.
 */
module IsochWorld {
  import opened IrmRegisters
  import opened IsochAutomaton
  import opened IsochObject

  // accounts and foreign are the ledger of the current generation: what each
  // agent has taken out of the registers and not put back.
  datatype World = World(
    gen: nat,
    bandwidth: nat,
    hi: set<nat>,
    lo: set<nat>,
    chans: seq<Channel>,
    accounts: seq<Account>,
    foreign: Account)

  datatype Action =
    | BusReset
    | Foreign(op: Op)
    | Allocate(i: nat, job: Job)
    | Sample(i: nat)
    | TimeOut(i: nat)
    | Realloc(i: nat, g: nat)
    | Release(i: nat)
    | Serve(i: nat)
    | Proceed(i: nat)
    | Break(i: nat, reset: bool, junk: nat)
  {
    // The action is a step of object k, or of the responder on its behalf.
    predicate Of(k: nat) {
      !BusReset? && !Foreign? && i == k
    }
  }

  function Value(w: World, reg: Register): Word {
    match reg
    case BandwidthAvailable => Units(w.bandwidth)
    case ChannelsHi => Bits(w.hi)
    case ChannelsLo => Bits(w.lo)
  }

  function Store(w: World, reg: Register, v: Word): World
    requires Fits(reg, v)
  {
    match reg
    case BandwidthAvailable => w.(bandwidth := v.n)
    case ChannelsHi => w.(hi := v.chans)
    case ChannelsLo => w.(lo := v.chans)
  }

  // A foreign node obeys the protocol: it takes what is free, and returns at
  // most what it has taken.
  predicate ForeignLegal(w: World, op: Op) {
    && op.Cas? && Fits(op.reg, op.cmp) && Fits(op.reg, op.new_)
    && op.cmp == Value(w, op.reg)
    && (op.cmp.Bits? ==> op.new_.chans - op.cmp.chans <= w.foreign.channels)
    && (op.cmp.Units? ==> op.new_.n <= op.cmp.n + w.foreign.units)
  }

  predicate Enabled(w: World, a: Action) {
    match a
    case BusReset => true
    case Foreign(op) => ForeignLegal(w, op)
    case Allocate(i, job) => i < |w.chans| && w.chans[i].pc.Idle?
    case Sample(i) => i < |w.chans| && w.chans[i].pc.AllocStart?
    case TimeOut(i) => i < |w.chans| && w.chans[i].pc.AllocStart?
    case Realloc(i, g) => i < |w.chans| && w.chans[i].pc.Idle? && g <= w.gen
    case Release(i) => i < |w.chans| && w.chans[i].pc.Idle?
    case Serve(i) => i < |w.chans| && w.chans[i].pc.Waiting() && w.chans[i].wire.Sent? && w.chans[i].pc.g == w.gen
    case Proceed(i) => i < |w.chans| && WellTyped(w.chans[i]) && w.chans[i].wire.Answered?
    case Break(i, reset, _) =>
      && i < |w.chans| && w.chans[i].pc.Waiting() && WellTyped(w.chans[i])
      && (reset ==> w.chans[i].pc.g != w.gen)
  }

  function SetChannel(w: World, i: nat, ch: Channel): World
    requires i < |w.chans|
  {
    w.(chans := w.chans[i := ch])
  }

  // The responder answers object i with the register's value, after storing
  // the new value if the compare value was there.
  function ServeStep(w: World, i: nat): World
    requires Enabled(w, Serve(i)) && |w.accounts| == |w.chans|
  {
    var op := w.chans[i].wire.op;
    var old_ := Value(w, op.reg);
    var w' := SetChannel(w, i, Answer(w.chans[i], old_));
    if op.Cas? && op.cmp == old_ && Fits(op.reg, op.new_) then
      Store(w', op.reg, op.new_).(accounts := w.accounts[i := Charged(w.accounts[i], op)])
    else
      w'
  }

  function ReallocStep(w: World, i: nat, g: nat): World
    requires Enabled(w, Realloc(i, g)) && |w.accounts| == |w.chans|
  {
    var acc := w.accounts[i];
    SetChannel(w, i, StartRealloc(w.chans[i], w.gen, g)).(
      accounts := w.accounts[i := if g == w.gen then acc else Abandoned(acc)])
  }

  function ResetStep(w: World): World {
    World(w.gen + 1, INITIAL_BANDWIDTH, AllHi(), AllLo(), w.chans, seq(|w.chans|, k => CLEAN), CLEAN)
  }

  // The actions that change one object's own fields and nothing else.
  function LocalStep(w: World, a: Action): Channel
    requires Enabled(w, a) && !a.BusReset? && !a.Foreign? && !a.Realloc? && !a.Serve?
  {
    var ch := w.chans[a.i];
    match a
    case Allocate(_, job) => ch.At(AllocStart(job), Quiet)
    case Sample(_) => AllocSample(ch, w.gen)
    case TimeOut(_) => ch.At(Idle, Quiet)
    case Release(_) => StartRelease(ch, w.gen)
    case Proceed(_) => Resume(ch, w.gen)
    case Break(_, reset, junk) => Fail(ch, w.gen, reset, junk)
  }

  // An action that is not enabled does nothing.
  function Step(w: World, a: Action): (w': World)
    requires |w.accounts| == |w.chans|
    ensures |w'.accounts| == |w'.chans| == |w.chans|
  {
    if !Enabled(w, a) then w else
    match a
    case BusReset => ResetStep(w)
    case Foreign(op) => Store(w, op.reg, op.new_).(foreign := Charged(w.foreign, op))
    case Realloc(i, g) => ReallocStep(w, i, g)
    case Serve(i) => ServeStep(w, i)
    case _ => SetChannel(w, a.i, LocalStep(w, a))
  }

  function Run(w: World, acts: seq<Action>): (w': World)
    requires |w.accounts| == |w.chans|
    ensures |w'.accounts| == |w'.chans| == |w.chans|
  {
    if acts == [] then w else Step(Run(w, acts[..|acts| - 1]), acts[|acts| - 1])
  }

  // Every step of the run satisfies p in the world it is taken in.
  ghost predicate Along(w: World, acts: seq<Action>, p: (World, Action) -> bool)
    requires |w.accounts| == |w.chans|
  {
    acts == [] || (Along(w, acts[..|acts| - 1], p) && p(Run(w, acts[..|acts| - 1]), acts[|acts| - 1]))
  }

  // A transaction of a reallocation fails other than by a bus reset only if its
  // generation is over, the object has no channel, or the channel is charged to
  // it; and no allocation is made on an object with a channel of the past.
  predicate Reliable(w: World, a: Action) {
    && (a.Break? && !a.reset && Enabled(w, a) && a.i < |w.accounts| ==>
          MayFail(w.chans[a.i], w.gen, w.accounts[a.i]))
    && (a.Sample? && Enabled(w, a) && a.i < |w.accounts| ==>
          HasOwn(w.chans[a.i], w.accounts[a.i]))
  }

  // No channel claim fails after a bandwidth claim, an allocation is made on an
  // object that is empty or has kept what it has in this generation, and other
  // errors than bus resets end a call where its fields and its charge agree.
  predicate Orderly(w: World, a: Action) {
    && (a.Proceed? && Enabled(w, a) ==> !ChannelClaimFails(w.chans[a.i], w.gen))
    && (a.Sample? && Enabled(w, a) ==> w.chans[a.i].Empty() || w.chans[a.i].fGeneration == w.gen)
    && (a.Break? && !a.reset && Enabled(w, a) ==> FailsClean(w.chans[a.i], w.gen))
  }

  // No channel claim fails after a bandwidth claim, and neither an allocation
  // nor an error leaves the object with bandwidth that is not charged to it.
  predicate Thrifty(w: World, a: Action) {
    && (a.Proceed? && Enabled(w, a) ==> !ChannelClaimFails(w.chans[a.i], w.gen))
    && (a.Sample? && Enabled(w, a) && a.i < |w.accounts| ==>
          w.chans[a.i].fBandwidth <= w.accounts[a.i].units)
    && (a.Break? && !a.reset && Enabled(w, a) && a.i < |w.accounts| ==>
          MayFailSolvent(w.chans[a.i], w.gen, w.accounts[a.i]))
  }

  // ----- the invariants -----

  function SumUnits(accounts: seq<Account>): int {
    if accounts == [] then 0 else SumUnits(accounts[..|accounts| - 1]) + accounts[|accounts| - 1].units
  }

  // The units in the register and those in the ledger add up.
  ghost predicate Balanced(w: World) {
    && |w.accounts| == |w.chans|
    && Fits(ChannelsHi, Bits(w.hi)) && Fits(ChannelsLo, Bits(w.lo))
    && w.bandwidth + SumUnits(w.accounts) + w.foreign.units == INITIAL_BANDWIDTH
    && 0 <= w.foreign.units
  }

  // The registers and the ledger agree, and no channel is charged twice.
  ghost predicate Books(w: World) {
    && Balanced(w)
    && w.foreign.channels !! w.hi + w.lo
    && (forall i :: 0 <= i < |w.accounts| ==>
          w.accounts[i].channels !! w.hi + w.lo && w.accounts[i].channels !! w.foreign.channels)
    && (forall i, j :: 0 <= i < j < |w.accounts| ==> w.accounts[i].channels !! w.accounts[j].channels)
  }

  ghost predicate SoundWorld(w: World) {
    Books(w) && forall i :: 0 <= i < |w.chans| ==> Sound(w.chans[i], w.gen, w.accounts[i])
  }

  ghost predicate ExactWorld(w: World) {
    Books(w) && forall i :: 0 <= i < |w.chans| ==> Exact(w.chans[i], w.gen, w.accounts[i])
  }

  ghost predicate SolventWorld(w: World) {
    Balanced(w) && forall i :: 0 <= i < |w.chans| ==> Solvent(w.chans[i], w.gen, w.accounts[i])
  }

  // The exact books of one object, among others that may be in any sound state.
  ghost predicate ExactAt(w: World, i: nat) {
    SoundWorld(w) && i < |w.chans| && Exact(w.chans[i], w.gen, w.accounts[i])
  }

  // Freshly made objects on a bus that has just been reset.
  ghost predicate Initial(w: World) {
    && w.bandwidth == INITIAL_BANDWIDTH && w.hi == AllHi() && w.lo == AllLo() && w.foreign == CLEAN
    && |w.accounts| == |w.chans|
    && (forall i :: 0 <= i < |w.accounts| ==> w.accounts[i] == CLEAN)
    && (forall i :: 0 <= i < |w.chans| ==>
          && w.chans[i].Empty() && w.chans[i].pc.Idle? && w.chans[i].wire.Quiet?
          && w.chans[i].fGeneration <= w.gen)
  }

  lemma SumUpdate(accounts: seq<Account>, i: nat, acc: Account)
    requires i < |accounts|
    ensures SumUnits(accounts[i := acc]) == SumUnits(accounts) - accounts[i].units + acc.units
  {
    var n := |accounts| - 1;
    if i == n {
      assert accounts[i := acc][..n] == accounts[..n];
    } else {
      SumUpdate(accounts[..n], i, acc);
      assert accounts[i := acc][..n] == accounts[..n][i := acc];
    }
  }

  lemma SumOfClean(accounts: seq<Account>)
    requires forall i :: 0 <= i < |accounts| ==> accounts[i] == CLEAN
    ensures SumUnits(accounts) == 0
  {
  }

  lemma SumCovers(accounts: seq<Account>, i: nat)
    requires i < |accounts| && forall k :: 0 <= k < |accounts| ==> 0 <= accounts[k].units
    ensures 0 <= accounts[i].units <= SumUnits(accounts)
  {
    SumUpdate(accounts, i, CLEAN);
    SumNonNegative(accounts[i := CLEAN]);
  }

  lemma SumNonNegative(accounts: seq<Account>)
    requires forall k :: 0 <= k < |accounts| ==> 0 <= accounts[k].units
    ensures 0 <= SumUnits(accounts)
  {
  }

  // ----- the steps -----

  lemma ServeBooks(w: World, i: nat)
    requires Books(w) && Enabled(w, Serve(i)) && Sound(w.chans[i], w.gen, w.accounts[i])
    ensures Books(ServeStep(w, i))
    ensures Fits(w.chans[i].wire.op.reg, Value(w, w.chans[i].wire.op.reg))
    ensures var w' := ServeStep(w, i);
            && w'.chans[i].wire.Answered?
            && w'.accounts[i] ==
               if w'.chans[i].wire.Landed() then Charged(w.accounts[i], w.chans[i].wire.op) else w.accounts[i]
  {
    var op := w.chans[i].wire.op;
    if op.Cas? && op.cmp == Value(w, op.reg) {
      SwapIsOwn(w.chans[i], w.gen, w.accounts[i]);
      SumUpdate(w.accounts, i, Charged(w.accounts[i], op));
    }
  }

  lemma ForeignBooks(w: World, op: Op)
    requires Books(w) && ForeignLegal(w, op)
    ensures Books(Step(w, Foreign(op)))
  {
  }

  lemma ResetBooks(w: World)
    ensures Books(ResetStep(w))
  {
    SumOfClean(ResetStep(w).accounts);
  }

  // The account of object i changes only in what it counts as leaked.
  lemma RelabelBooks(w: World, i: nat, ch: Channel, acc: Account)
    requires Books(w) && i < |w.chans| == |w.accounts|
    requires acc.units == w.accounts[i].units && acc.channels == w.accounts[i].channels
    ensures Books(SetChannel(w, i, ch).(accounts := w.accounts[i := acc]))
  {
    SumUpdate(w.accounts, i, acc);
  }

  lemma LocalSound(w: World, a: Action)
    requires SoundWorld(w) && Reliable(w, a)
    requires Enabled(w, a) && !a.BusReset? && !a.Foreign? && !a.Realloc? && !a.Serve?
    ensures Sound(LocalStep(w, a), w.gen, w.accounts[a.i])
  {
    var ch, acc := w.chans[a.i], w.accounts[a.i];
    match a
    case Release(_) => StartReleaseKeeps(ch, w.gen, acc);
    case Proceed(_) => ResumeSound(ch, w.gen, acc);
    case Break(_, reset, junk) => FailSound(ch, w.gen, reset, junk, acc);
    case Sample(_) => SampleSoundExactlyWhen(ch, w.gen, acc);
    case _ =>
  }

  lemma ResetSound(w: World)
    requires SoundWorld(w)
    ensures SoundWorld(ResetStep(w))
  {
    ResetBooks(w);
    forall i | 0 <= i < |w.chans| ensures Sound(w.chans[i], w.gen + 1, CLEAN) {
      NewGeneration(w.chans[i], w.gen);
    }
  }

  lemma ServeSound(w: World, i: nat)
    requires SoundWorld(w) && Enabled(w, Serve(i))
    ensures SoundWorld(ServeStep(w, i))
  {
    ServeBooks(w, i);
    AnswerSound(w.chans[i], w.gen, w.accounts[i], Value(w, w.chans[i].wire.op.reg));
  }

  lemma ReallocSound(w: World, i: nat, g: nat)
    requires SoundWorld(w) && Enabled(w, Realloc(i, g))
    ensures SoundWorld(ReallocStep(w, i, g))
  {
    StartReallocSound(w.chans[i], w.gen, g, w.accounts[i]);
    RelabelBooks(w, i, ReallocStep(w, i, g).chans[i], ReallocStep(w, i, g).accounts[i]);
  }

  lemma StepSound(w: World, a: Action)
    requires SoundWorld(w) && Reliable(w, a)
    ensures SoundWorld(Step(w, a))
  {
    if Enabled(w, a) {
      match a
      case BusReset => ResetSound(w);
      case Foreign(op) => ForeignBooks(w, op);
      case Realloc(i, g) => ReallocSound(w, i, g);
      case Serve(i) => ServeSound(w, i);
      case _ => LocalSound(w, a);
    }
  }

  // Reliable is the exact condition: any other failure leaves the object with
  // a channel that is not charged to it.
  lemma StepSoundExactlyWhen(w: World, a: Action)
    requires SoundWorld(w)
    ensures SoundWorld(Step(w, a)) <==> Reliable(w, a)
  {
    if Reliable(w, a) {
      StepSound(w, a);
    } else {
      if a.Break? {
        FailSoundExactlyWhen(w.chans[a.i], w.gen, a.junk, w.accounts[a.i]);
      } else {
        SampleSoundExactlyWhen(w.chans[a.i], w.gen, w.accounts[a.i]);
      }
      assert !Sound(Step(w, a).chans[a.i], w.gen, w.accounts[a.i]);
    }
  }

  lemma ExactIsSound(w: World)
    requires ExactWorld(w)
    ensures SoundWorld(w) && SolventWorld(w) && forall i :: 0 <= i < |w.chans| ==> ExactAt(w, i)
  {
    forall i | 0 <= i < |w.chans|
      ensures Sound(w.chans[i], w.gen, w.accounts[i]) && Solvent(w.chans[i], w.gen, w.accounts[i])
    {
      assert Exact(w.chans[i], w.gen, w.accounts[i]);
    }
  }

  // The register and one object's units together fit its reset value.
  lemma UnitsAreBounded(w: World)
    requires SolventWorld(w)
    ensures w.bandwidth <= INITIAL_BANDWIDTH
    ensures forall i :: 0 <= i < |w.chans| ==> 0 <= w.accounts[i].units
    ensures forall i :: 0 <= i < |w.chans| ==> w.bandwidth + w.accounts[i].units <= INITIAL_BANDWIDTH
  {
    forall i | 0 <= i < |w.chans| ensures 0 <= w.accounts[i].units {
      assert Solvent(w.chans[i], w.gen, w.accounts[i]);
    }
    SumNonNegative(w.accounts);
    forall i | 0 <= i < |w.chans| ensures w.bandwidth + w.accounts[i].units <= INITIAL_BANDWIDTH {
      SumCovers(w.accounts, i);
    }
  }

  // Without a reset, nobody but the object itself changes it or its account.
  lemma OthersStep(w: World, a: Action, i: nat)
    requires i < |w.chans| == |w.accounts| && !a.Of(i) && !a.BusReset?
    ensures var w' := Step(w, a);
            w'.gen == w.gen && w'.chans[i] == w.chans[i] && w'.accounts[i] == w.accounts[i]
  {
  }

  // ----- the exact books of one object -----

  lemma OrderlyIsReliable(w: World, a: Action)
    requires ExactWorld(w) && Orderly(w, a)
    ensures Reliable(w, a)
  {
    if Enabled(w, a) && (a.Sample? || a.Break?) {
      assert Exact(w.chans[a.i], w.gen, w.accounts[a.i]);
    }
  }

  lemma LocalExact(w: World, a: Action)
    requires Enabled(w, a) && !a.BusReset? && !a.Foreign? && !a.Realloc? && !a.Serve?
    requires ExactAt(w, a.i)
    ensures Exact(LocalStep(w, a), w.gen, w.accounts[a.i]) <==> Orderly(w, a)
  {
    var ch, acc := w.chans[a.i], w.accounts[a.i];
    match a
    case Release(_) => StartReleaseKeeps(ch, w.gen, acc);
    case Proceed(_) => ResumeExactlyWhen(ch, w.gen, acc);
    case Sample(_) => SampleExactlyWhen(ch, w.gen, acc);
    case Break(_, reset, junk) =>
      if reset {
        ResetFailExact(ch, w.gen, junk, acc);
      } else {
        FailExactlyWhen(ch, w.gen, junk, acc);
      }
    case _ =>
  }

  lemma ServeExact(w: World, i: nat)
    requires ExactAt(w, i) && Enabled(w, Serve(i)) && w.bandwidth + w.accounts[i].units < TWO_TO_32
    ensures Exact(ServeStep(w, i).chans[i], w.gen, ServeStep(w, i).accounts[i])
  {
    ServeBooks(w, i);
    AnswerExact(w.chans[i], w.gen, w.accounts[i], Value(w, w.chans[i].wire.op.reg));
  }

  // The object's books stay exact if every step is reliable and its own steps
  // are orderly, whatever the others do; a sum in the register has 32 bits.
  predicate Minding(w: World, a: Action, i: nat) {
    && Reliable(w, a) && (a.Of(i) ==> Orderly(w, a))
    && (a == Serve(i) && i < |w.accounts| ==> w.bandwidth + w.accounts[i].units < TWO_TO_32)
  }

  function Minds(i: nat): (World, Action) -> bool {
    (w: World, a: Action) => Minding(w, a, i)
  }

  lemma StepExactAt(w: World, a: Action, i: nat)
    requires ExactAt(w, i) && Minding(w, a, i)
    ensures ExactAt(Step(w, a), i)
  {
    StepSound(w, a);
    if Enabled(w, a) {
      if a.BusReset? {
        NewGeneration(w.chans[i], w.gen);
      } else if !a.Of(i) {
        OthersStep(w, a, i);
      } else {
        match a
        case Realloc(_, g) => StartReallocExact(w.chans[i], w.gen, g, w.accounts[i]);
        case Serve(_) => ServeExact(w, i);
        case _ => LocalExact(w, a);
      }
    }
  }

  lemma StepExact(w: World, a: Action)
    requires ExactWorld(w) && Orderly(w, a)
    ensures ExactWorld(Step(w, a))
  {
    hide Step, Orderly, Reliable, Exact, Sound, Solvent;
    ExactIsSound(w);
    UnitsAreBounded(w);
    OrderlyIsReliable(w, a);
    StepSound(w, a);
    forall i | 0 <= i < |w.chans|
      ensures Exact(Step(w, a).chans[i], Step(w, a).gen, Step(w, a).accounts[i])
    {
      StepExactAt(w, a, i);
    }
  }

  // Orderly is the exact condition.
  lemma StepExactlyWhen(w: World, a: Action)
    requires ExactWorld(w)
    ensures ExactWorld(Step(w, a)) <==> Orderly(w, a)
  {
    if Orderly(w, a) {
      StepExact(w, a);
    } else {
      ExactIsSound(w);
      LocalExact(w, a);
      assert !Exact(Step(w, a).chans[a.i], w.gen, Step(w, a).accounts[a.i]);
    }
  }

  // ----- no object counts on units that are not charged to it -----

  lemma LocalSolvent(w: World, a: Action)
    requires Enabled(w, a) && !a.BusReset? && !a.Foreign? && !a.Realloc? && !a.Serve? && |w.accounts| == |w.chans|
    requires Solvent(w.chans[a.i], w.gen, w.accounts[a.i])
    ensures Solvent(LocalStep(w, a), w.gen, w.accounts[a.i]) <==> Thrifty(w, a)
  {
    var ch, acc := w.chans[a.i], w.accounts[a.i];
    match a
    case Release(_) => StartSolvent(ch, w.gen, w.gen, acc);
    case Proceed(_) => ResumeSolventExactlyWhen(ch, w.gen, acc);
    case Sample(_) => SampleSolventExactlyWhen(ch, w.gen, acc);
    case Break(_, reset, junk) =>
      if reset {
        ResetFailSolvent(ch, w.gen, junk, acc);
      } else {
        FailSolventExactlyWhen(ch, w.gen, junk, acc);
      }
    case _ =>
  }

  lemma StepSolventAt(w: World, a: Action, i: nat)
    requires SolventWorld(w) && Thrifty(w, a) && i < |w.chans|
    ensures Solvent(Step(w, a).chans[i], Step(w, a).gen, Step(w, a).accounts[i])
  {
    if Enabled(w, a) {
      if a.BusReset? {
        NewGeneration(w.chans[i], w.gen);
      } else if !a.Of(i) {
        OthersStep(w, a, i);
      } else {
        match a
        case Realloc(_, g) => StartSolvent(w.chans[i], w.gen, g, w.accounts[i]);
        case Serve(_) => ServeSolvent(w, i);
        case _ => LocalSolvent(w, a);
      }
    }
  }

  lemma ServeBalanced(w: World, i: nat)
    requires Balanced(w) && Enabled(w, Serve(i)) && Shape(w.chans[i], w.gen)
    ensures Balanced(ServeStep(w, i))
    ensures var w' := ServeStep(w, i);
            w'.accounts[i] ==
            if w'.chans[i].wire.Landed() then Charged(w.accounts[i], w.chans[i].wire.op) else w.accounts[i]
  {
    var op := w.chans[i].wire.op;
    if op.Cas? && op.cmp == Value(w, op.reg) {
      SwapIsOwn(w.chans[i], w.gen, Covering(w.chans[i], w.gen));
      SumUpdate(w.accounts, i, Charged(w.accounts[i], op));
    }
  }

  lemma StepBalanced(w: World, a: Action)
    requires SolventWorld(w)
    ensures Balanced(Step(w, a))
  {
    if Enabled(w, a) {
      match a
      case BusReset => ResetBooks(w);
      case Realloc(i, g) => SumUpdate(w.accounts, i, ReallocStep(w, i, g).accounts[i]);
      case Serve(i) => ServeBalanced(w, i);
      case _ =>
    }
  }

  lemma ServeSolvent(w: World, i: nat)
    requires SolventWorld(w) && Enabled(w, Serve(i))
    ensures Solvent(ServeStep(w, i).chans[i], w.gen, ServeStep(w, i).accounts[i])
  {
    UnitsAreBounded(w);
    ServeBalanced(w, i);
    AnswerSolvent(w.chans[i], w.gen, w.accounts[i], Value(w, w.chans[i].wire.op.reg));
  }

  // A step that is not thrifty leaves an object counting on too much, or
  // returning what it goes on counting on.
  lemma StepSolventExactlyWhen(w: World, a: Action)
    requires SolventWorld(w)
    ensures SolventWorld(Step(w, a)) <==> Thrifty(w, a)
  {
    StepBalanced(w, a);
    if Thrifty(w, a) {
      forall i | 0 <= i < |w.chans|
        ensures Solvent(Step(w, a).chans[i], Step(w, a).gen, Step(w, a).accounts[i])
      {
        StepSolventAt(w, a, i);
      }
    } else {
      LocalSolvent(w, a);
      assert !Solvent(Step(w, a).chans[a.i], w.gen, Step(w, a).accounts[a.i]);
    }
  }

  lemma InitialExact(w: World)
    requires Initial(w)
    ensures ExactWorld(w)
  {
    SumOfClean(w.accounts);
  }

  lemma RunSound(w: World, acts: seq<Action>)
    requires SoundWorld(w) && Along(w, acts, Reliable)
    ensures SoundWorld(Run(w, acts))
  {
    if acts != [] {
      RunSound(w, acts[..|acts| - 1]);
      StepSound(Run(w, acts[..|acts| - 1]), acts[|acts| - 1]);
    }
  }

  lemma RunSolvent(w: World, acts: seq<Action>)
    requires SolventWorld(w) && Along(w, acts, Thrifty)
    ensures SolventWorld(Run(w, acts))
  {
    if acts != [] {
      RunSolvent(w, acts[..|acts| - 1]);
      StepSolventExactlyWhen(Run(w, acts[..|acts| - 1]), acts[|acts| - 1]);
    }
  }

  lemma RunExact(w: World, acts: seq<Action>)
    requires ExactWorld(w) && Along(w, acts, Orderly)
    ensures ExactWorld(Run(w, acts))
  {
    if acts != [] {
      RunExact(w, acts[..|acts| - 1]);
      StepExact(Run(w, acts[..|acts| - 1]), acts[|acts| - 1]);
    }
  }

  lemma RunExactAt(w: World, acts: seq<Action>, i: nat)
    requires ExactAt(w, i) && Along(w, acts, Minds(i))
    ensures ExactAt(Run(w, acts), i)
  {
    if acts != [] {
      RunExactAt(w, acts[..|acts| - 1], i);
      StepExactAt(Run(w, acts[..|acts| - 1]), acts[|acts| - 1], i);
    }
  }

  // ----- what holds of every run -----

  // Every object is in a state its code can be in, and the words have the right
  // bits, whatever is charged to whom.
  ghost predicate ShapeWorld(w: World) {
    && |w.accounts| == |w.chans|
    && Fits(ChannelsHi, Bits(w.hi)) && Fits(ChannelsLo, Bits(w.lo))
    && forall i :: 0 <= i < |w.chans| ==> Shape(w.chans[i], w.gen)
  }

  lemma LocalShape(w: World, a: Action)
    requires Enabled(w, a) && !a.BusReset? && !a.Foreign? && !a.Realloc? && !a.Serve?
    requires Shape(w.chans[a.i], w.gen)
    ensures Shape(LocalStep(w, a), w.gen)
  {
    var ch := w.chans[a.i];
    var acc := Covering(ch, w.gen);
    match a
    case Release(_) => StartReleaseKeeps(ch, w.gen, acc);
    case Proceed(_) => ResumeShape(ch, w.gen);
    case Break(_, reset, junk) => FailSound(ch, w.gen, reset, junk, acc);
    case Sample(_) => SampleSoundExactlyWhen(ch, w.gen, acc);
    case _ =>
  }

  lemma ServeShape(w: World, i: nat)
    requires ShapeWorld(w) && Enabled(w, Serve(i))
    ensures ShapeWorld(ServeStep(w, i))
  {
    AnswerSound(w.chans[i], w.gen, Covering(w.chans[i], w.gen), Value(w, w.chans[i].wire.op.reg));
  }

  lemma StepShape(w: World, a: Action)
    requires ShapeWorld(w)
    ensures ShapeWorld(Step(w, a))
  {
    if Enabled(w, a) {
      match a
      case BusReset =>
        forall i | 0 <= i < |w.chans| ensures Shape(w.chans[i], w.gen + 1) {
          NewGeneration(w.chans[i], w.gen);
        }
      case Foreign(op) =>
      case Realloc(i, g) => StartReallocSound(w.chans[i], w.gen, g, Covering(w.chans[i], w.gen));
      case Serve(i) => ServeShape(w, i);
      case _ => LocalShape(w, a);
    }
  }
}
