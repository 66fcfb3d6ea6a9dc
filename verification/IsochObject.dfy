/**
 What one channel object is entitled to, by its fields and by where its
 current call stands, against what the bus charges to it in the current
 generation.

 Sound: every channel the fields claim is really charged to the object.
 Solvent: so are all the units they claim.
 Exact: and nothing else is, apart from what was leaked on the way.
 */
module IsochObject {
  import opened IrmRegisters
  import opened IsochAutomaton

  // The bus's side of the books for one object, in the current generation.
  datatype Account = Account(units: int, channels: set<nat>, leakedUnits: int, leakedChannels: set<nat>)

  const CLEAN := Account(0, {}, 0, {})

  // The account once the object has lost track of all of it.
  function Abandoned(acc: Account): Account {
    acc.(leakedUnits := acc.units, leakedChannels := acc.channels)
  }

  // The account after a compare-and-swap by this object has landed.
  function Charged(acc: Account, op: Op): Account
    requires op.Cas? && (op.cmp.Units? <==> op.new_.Units?)
  {
    if op.cmp.Units? then
      acc.(units := acc.units + op.cmp.n - op.new_.n)
    else
      acc.(channels := acc.channels - (op.new_.chans - op.cmp.chans) + (op.cmp.chans - op.new_.chans))
  }

  // The channels the object may rely on owning.
  function Entitled(ch: Channel, gen: nat): set<nat> {
    match ch.pc
    case Idle => if ch.fGeneration == gen && ch.fChannel < NO_CHANNEL then {ch.fChannel} else {}
    // an allocation keeps a channel that the object already has
    case AllocStart(_) => if ch.fGeneration == gen && ch.fChannel < NO_CHANNEL then {ch.fChannel} else {}
    case AllocRead(g, _, _) => if g == gen && ch.fChannel < NO_CHANNEL then {ch.fChannel} else {}
    case AllocBandwidth(g, _, _, _) => if g == gen && ch.fChannel < NO_CHANNEL then {ch.fChannel} else {}
    case AllocChannel(g, _, c) => if g == gen && ch.wire.Landed() then {c} else {}
    case ReallocSwapChannel(g) => if g == gen && ch.wire.Landed() then {ch.fChannel} else {}
    case ReleaseReadBandwidth(g) => if g == gen && ch.fChannel < NO_CHANNEL then {ch.fChannel} else {}
    case ReleaseSwapBandwidth(g) => if g == gen && ch.fChannel < NO_CHANNEL then {ch.fChannel} else {}
    case ReleaseReadChannel(g) => if g == gen then {ch.fChannel} else {}
    case ReleaseSwapChannel(g) => if g == gen && !ch.wire.Landed() then {ch.fChannel} else {}
    case _ => {}
  }

  // The bandwidth units the object may rely on owning.
  function Committed(ch: Channel, gen: nat): nat {
    match ch.pc
    case Idle => if ch.fGeneration == gen then ch.fBandwidth else 0
    // an allocation keeps bandwidth that the object already has
    case AllocStart(_) => if ch.fGeneration == gen then ch.fBandwidth else 0
    case AllocRead(g, _, _) => if g == gen then ch.fBandwidth else 0
    case AllocBandwidth(g, job, _, _) => if g == gen && ch.wire.Landed() then job.want else 0
    case AllocChannel(g, _, _) => if g == gen then ch.fBandwidth else 0
    case ReallocSwapBandwidth(g) => if g == gen && ch.wire.Landed() then ch.fBandwidth else 0
    case ReallocReadChannel(g) => if g == gen then ch.fBandwidth else 0
    case ReallocSwapChannel(g) => if g == gen then ch.fBandwidth else 0
    case ReleaseReadBandwidth(g) => if g == gen then ch.fBandwidth else 0
    case ReleaseSwapBandwidth(g) => if g == gen && !ch.wire.Landed() then ch.fBandwidth else 0
    case _ => 0
  }

  // A compare-and-swap that takes channel c out of the free set, or puts it back.
  predicate Takes(op: Op, c: nat) {
    && op.Cas? && op.reg == ChannelRegister(c) && c < NO_CHANNEL
    && Fits(op.reg, op.cmp) && c in op.cmp.chans && op.new_ == Bits(op.cmp.chans - {c})
  }

  predicate Returns(op: Op, c: nat) {
    && op.Cas? && op.reg == ChannelRegister(c) && c < NO_CHANNEL
    && Fits(op.reg, op.cmp) && op.new_ == Bits(op.cmp.chans + {c})
  }

  predicate TakesUnits(op: Op, n: nat) {
    op.Cas? && op.reg == BandwidthAvailable && op.cmp.Units? && n <= op.cmp.n && op.new_ == Units(op.cmp.n - n)
  }

  predicate ReturnsUnits(op: Op, n: nat) {
    op.Cas? && op.reg == BandwidthAvailable && op.cmp.Units? && op == RefundOp(op.cmp.n, n)
  }

  // The object's state is one that its code can be in.
  predicate Shape(ch: Channel, gen: nat) {
    && WellTyped(ch)
    && ch.fGeneration <= gen
    && ch.fChannel <= NO_CHANNEL
    && (ch.pc.Waiting() ==> ch.pc.g <= gen)
    && (ch.pc.Reallocating() ==> ch.fGeneration < ch.pc.g)
    && (ch.pc.Releasing() ==> ch.fGeneration == ch.pc.g)
    && match ch.pc
       case Idle => true
       case AllocStart(_) => true
       case AllocRead(g, _, _) => ch.fGeneration <= g
       case AllocBandwidth(g, job, hi, lo) =>
         && ch.fGeneration <= g && ch.fBandwidth == 0 && TakesUnits(ch.wire.op, job.want)
         && Fits(ChannelsHi, Bits(hi)) && Fits(ChannelsLo, Bits(lo))
       case AllocChannel(g, _, c) => ch.fGeneration <= g && ch.fChannel == NO_CHANNEL && Takes(ch.wire.op, c)
       case Refund(g, _, _, _) =>
         ch.fGeneration <= g && ch.fChannel == NO_CHANNEL && ReturnsUnits(ch.wire.op, ch.fBandwidth)
       case ReallocReadBandwidth(_) => true
       case ReallocSwapBandwidth(_) => TakesUnits(ch.wire.op, ch.fBandwidth)
       case ReallocReadChannel(_) => ch.fChannel < NO_CHANNEL
       case ReallocSwapChannel(_) => Takes(ch.wire.op, ch.fChannel)
       case ReleaseReadBandwidth(_) => true
       case ReleaseSwapBandwidth(_) => ReturnsUnits(ch.wire.op, ch.fBandwidth)
       case ReleaseReadChannel(_) => ch.fChannel < NO_CHANNEL && ch.fBandwidth == 0
       case ReleaseSwapChannel(_) => Returns(ch.wire.op, ch.fChannel) && ch.fBandwidth == 0
  }

  predicate Sound(ch: Channel, gen: nat, acc: Account) {
    Shape(ch, gen) && Entitled(ch, gen) <= acc.channels
  }

  // The units the fields claim are charged to the object, and no refund is
  // going on that returns units the object still counts on.
  predicate Solvent(ch: Channel, gen: nat, acc: Account) {
    Shape(ch, gen) && (ch.pc.Refund? ==> ch.pc.g != gen) && Committed(ch, gen) <= acc.units
  }

  // The current call is not in a refund, and what its allocation keeps is of
  // the generation it works in.
  predicate Regular(ch: Channel, gen: nat) {
    match ch.pc
    case Refund(g, _, _, _) => g != gen
    case AllocRead(g, _, _) => g == gen ==> ch.Empty() || ch.fGeneration == g
    case AllocBandwidth(g, _, _, _) => g == gen ==> ch.Empty() || ch.fGeneration == g
    case _ => true
  }

  predicate Exact(ch: Channel, gen: nat, acc: Account) {
    && Shape(ch, gen)
    && Regular(ch, gen)
    && acc.channels == Entitled(ch, gen) + acc.leakedChannels
    && Entitled(ch, gen) !! acc.leakedChannels
    && acc.units == Committed(ch, gen) + acc.leakedUnits
    && 0 <= acc.leakedUnits
  }

  // The branch of allocateChannelBegin that refunds the register but keeps
  // fBandwidth: a channel claim of this generation that fails when the object
  // has bandwidth, from this pass or from before.
  predicate ChannelClaimFails(ch: Channel, gen: nat)
    requires WellTyped(ch) && ch.wire.Answered?
  {
    match ch.pc
    case AllocRead(g, job, got) =>
      && g == gen && |got| == 2 && ch.fBandwidth != 0 && ch.fChannel == NO_CHANNEL
      && job.allowed * (got[1].chans + ch.wire.old_.chans) == {}
    case AllocBandwidth(g, job, hi, lo) =>
      && g == gen && job.want != 0 && ch.wire.Landed() && ch.fChannel == NO_CHANNEL
      && job.allowed * (hi + lo) == {}
    case AllocChannel(g, _, _) => g == gen && ch.fBandwidth != 0 && !ch.wire.Landed()
    case _ => false
  }

  // ----- local steps keep both invariants -----

  lemma AllocClaimChannelKeeps(ch: Channel, gen: nat, g: nat, job: Job, hi: set<nat>, lo: set<nat>, acc: Account)
    requires g <= gen && ch.fGeneration <= g
    requires ch.fChannel == NO_CHANNEL || (ch.fChannel < NO_CHANNEL && (g == gen ==> ch.fChannel in acc.channels))
    requires Fits(ChannelsHi, Bits(hi)) && Fits(ChannelsLo, Bits(lo))
    ensures Sound(AllocClaimChannel(ch, gen, g, job, hi, lo), gen, acc)
    ensures var ch' := AllocClaimChannel(ch, gen, g, job, hi, lo);
            var own := if g == gen && ch.fChannel < NO_CHANNEL then {ch.fChannel} else {};
            && acc.channels == own + acc.leakedChannels && own !! acc.leakedChannels && acc.leakedUnits >= 0
            && acc.units == (if g == gen then ch.fBandwidth else 0) + acc.leakedUnits
            && (g != gen || ch.fBandwidth == 0 || ch.fChannel != NO_CHANNEL || job.allowed * (hi + lo) != {})
            ==> Exact(ch', gen, acc)
  {
  }

  lemma ResumeAllocSound(ch: Channel, gen: nat, acc: Account)
    requires Sound(ch, gen, acc) && ch.wire.Answered?
    requires !ch.pc.Reallocating() && !ch.pc.Releasing()
    ensures Sound(Resume(ch, gen), gen, acc)
  {
    match ch.pc
    case AllocRead(g, job, got) =>
      if |got| == 2 && ch.fBandwidth != 0 {
        AllocClaimChannelKeeps(ch, gen, g, job, got[1].chans, ch.wire.old_.chans, acc);
      }
    case AllocBandwidth(g, job, hi, lo) =>
      if ch.wire.Landed() {
        AllocClaimChannelKeeps(ch.(fBandwidth := job.want), gen, g, job, hi, lo, acc);
      }
    case _ =>
  }

  lemma ResumeReallocSound(ch: Channel, gen: nat, acc: Account)
    requires Sound(ch, gen, acc) && ch.wire.Answered? && ch.pc.Reallocating()
    ensures Sound(Resume(ch, gen), gen, acc)
  {
  }

  lemma ResumeReleaseSound(ch: Channel, gen: nat, acc: Account)
    requires Sound(ch, gen, acc) && ch.wire.Answered? && ch.pc.Releasing()
    ensures Sound(Resume(ch, gen), gen, acc)
  {
  }

  lemma ResumeSound(ch: Channel, gen: nat, acc: Account)
    requires Sound(ch, gen, acc) && ch.wire.Answered?
    ensures Sound(Resume(ch, gen), gen, acc)
  {
    if ch.pc.Reallocating() {
      ResumeReallocSound(ch, gen, acc);
    } else if ch.pc.Releasing() {
      ResumeReleaseSound(ch, gen, acc);
    } else {
      ResumeAllocSound(ch, gen, acc);
    }
  }

  lemma ResumeReadExact(ch: Channel, gen: nat, acc: Account)
    requires Exact(ch, gen, acc) && ch.wire.Answered? && ch.pc.AllocRead? && !ChannelClaimFails(ch, gen)
    ensures Exact(Resume(ch, gen), gen, acc)
  {
    if |ch.pc.got| == 2 && ch.fBandwidth != 0 {
      AllocClaimChannelKeeps(ch, gen, ch.pc.g, ch.pc.job, ch.pc.got[1].chans, ch.wire.old_.chans, acc);
    }
  }

  lemma ResumeBandwidthExact(ch: Channel, gen: nat, acc: Account)
    requires Exact(ch, gen, acc) && ch.wire.Answered? && ch.pc.AllocBandwidth? && !ChannelClaimFails(ch, gen)
    ensures Exact(Resume(ch, gen), gen, acc)
  {
    if ch.wire.Landed() {
      AllocClaimChannelKeeps(ch.(fBandwidth := ch.pc.job.want), gen, ch.pc.g, ch.pc.job, ch.pc.hi, ch.pc.lo, acc);
    }
  }

  lemma ResumeAllocExact(ch: Channel, gen: nat, acc: Account)
    requires Exact(ch, gen, acc) && ch.wire.Answered?
    requires !ch.pc.Reallocating() && !ch.pc.Releasing() && !ChannelClaimFails(ch, gen)
    ensures Exact(Resume(ch, gen), gen, acc)
  {
    match ch.pc
    case AllocRead(_, _, _) => ResumeReadExact(ch, gen, acc);
    case AllocBandwidth(_, _, _, _) => ResumeBandwidthExact(ch, gen, acc);
    case _ =>
  }

  lemma ResumeReallocExact(ch: Channel, gen: nat, acc: Account)
    requires Exact(ch, gen, acc) && ch.wire.Answered? && ch.pc.Reallocating()
    ensures Exact(Resume(ch, gen), gen, acc)
  {
  }

  lemma ResumeReleaseExact(ch: Channel, gen: nat, acc: Account)
    requires Exact(ch, gen, acc) && ch.wire.Answered? && ch.pc.Releasing()
    ensures Exact(Resume(ch, gen), gen, acc)
  {
  }

  // A failed channel claim is what breaks it.
  lemma ResumeExactlyWhen(ch: Channel, gen: nat, acc: Account)
    requires Exact(ch, gen, acc) && ch.wire.Answered?
    ensures Exact(Resume(ch, gen), gen, acc) <==> !ChannelClaimFails(ch, gen)
  {
    if ch.pc.Reallocating() {
      ResumeReallocExact(ch, gen, acc);
    } else if ch.pc.Releasing() {
      ResumeReleaseExact(ch, gen, acc);
    } else if !ChannelClaimFails(ch, gen) {
      ResumeAllocExact(ch, gen, acc);
    }
  }

  // The object has no channel, or one that is charged to it.
  predicate HasOwn(ch: Channel, acc: Account) {
    ch.fChannel == NO_CHANNEL || ch.fChannel in acc.channels
  }

  // The object's current call may fail by an error that is not a bus reset
  // without making it believe in a channel that is not its own.
  predicate MayFail(ch: Channel, gen: nat, acc: Account) {
    ch.pc.Reallocating() ==> ch.pc.g != gen || HasOwn(ch, acc)
  }

  // A transaction fails by bus reset only once its generation is over, by any
  // other error at any time, even after the responder has applied it.
  lemma FailSound(ch: Channel, gen: nat, reset: bool, junk: nat, acc: Account)
    requires Sound(ch, gen, acc) && !ch.wire.Quiet?
    requires if reset then ch.pc.g != gen else MayFail(ch, gen, acc)
    ensures Sound(Fail(ch, gen, reset, junk), gen, acc)
  {
  }

  // That is the exact condition.
  lemma FailSoundExactlyWhen(ch: Channel, gen: nat, junk: nat, acc: Account)
    requires Sound(ch, gen, acc) && !ch.wire.Quiet?
    ensures Sound(Fail(ch, gen, false, junk), gen, acc) <==> MayFail(ch, gen, acc)
  {
    if MayFail(ch, gen, acc) {
      FailSound(ch, gen, false, junk, acc);
    }
  }

  // The call may end by another error without the object's fields saying more
  // than is charged to it, or forgetting any of it.
  predicate FailsClean(ch: Channel, gen: nat)
    requires WellTyped(ch) && !ch.wire.Quiet?
  {
    ch.pc.g == gen ==>
      match ch.pc
      case AllocRead(_, _, _) => true
      case AllocBandwidth(_, job, _, _) => !ch.wire.Landed() || job.want == 0
      case AllocChannel(_, _, _) => !ch.wire.Landed() && ch.fBandwidth == 0
      case Refund(_, _, _, _) => false
      case ReallocReadBandwidth(_) => ch.Empty()
      case ReallocSwapBandwidth(_) => ch.fChannel == NO_CHANNEL && (ch.wire.Landed() || ch.fBandwidth == 0)
      case ReallocReadChannel(_) => false
      case ReallocSwapChannel(_) => ch.wire.Landed()
      case ReleaseReadBandwidth(_) => ch.fBandwidth == 0
      case ReleaseSwapBandwidth(_) => ch.wire.Landed() || ch.fBandwidth == 0
      case ReleaseReadChannel(_) => false
      case ReleaseSwapChannel(_) => ch.wire.Landed()
  }

  lemma ResetFailExact(ch: Channel, gen: nat, junk: nat, acc: Account)
    requires Exact(ch, gen, acc) && !ch.wire.Quiet? && ch.pc.g != gen
    ensures Exact(Fail(ch, gen, true, junk), gen, acc)
  {
  }

  lemma FailExactlyWhen(ch: Channel, gen: nat, junk: nat, acc: Account)
    requires Exact(ch, gen, acc) && !ch.wire.Quiet?
    ensures Exact(Fail(ch, gen, false, junk), gen, acc) <==> FailsClean(ch, gen)
  {
  }

  // A pass of an allocation takes the channel the object already has for one
  // of the generation just sampled.
  lemma SampleSoundExactlyWhen(ch: Channel, gen: nat, acc: Account)
    requires Sound(ch, gen, acc) && ch.pc.AllocStart?
    ensures Sound(AllocSample(ch, gen), gen, acc) <==> HasOwn(ch, acc)
  {
  }

  lemma SampleExactlyWhen(ch: Channel, gen: nat, acc: Account)
    requires Exact(ch, gen, acc) && ch.pc.AllocStart?
    ensures Exact(AllocSample(ch, gen), gen, acc) <==> ch.Empty() || ch.fGeneration == gen
  {
  }

  lemma StartReallocSound(ch: Channel, gen: nat, g: nat, acc: Account)
    requires Sound(ch, gen, acc) && ch.pc.Idle? && g <= gen
    ensures Sound(StartRealloc(ch, gen, g), gen, acc)
  {
  }

  // A thread for an older generation overwrites fGeneration with it, and the
  // object loses track of whatever it holds.
  lemma StartReallocExact(ch: Channel, gen: nat, g: nat, acc: Account)
    requires Exact(ch, gen, acc) && ch.pc.Idle? && g <= gen
    ensures Exact(StartRealloc(ch, gen, g), gen, if g == gen then acc else Abandoned(acc))
  {
  }

  lemma StartReleaseKeeps(ch: Channel, gen: nat, acc: Account)
    requires ch.pc.Idle?
    ensures Sound(ch, gen, acc) ==> Sound(StartRelease(ch, gen), gen, acc)
    ensures Exact(ch, gen, acc) ==> Exact(StartRelease(ch, gen), gen, acc)
  {
  }

  // The responder applies the object's operation in the object's generation.
  function Answer(ch: Channel, old_: Word): Channel
    requires ch.wire.Sent?
  {
    ch.(wire := Answered(ch.wire.op, old_))
  }

  lemma AnswerSound(ch: Channel, gen: nat, acc: Account, old_: Word)
    requires Sound(ch, gen, acc) && ch.wire.Sent? && ch.pc.g == gen && Fits(ch.wire.op.reg, old_)
    ensures var ch' := Answer(ch, old_);
            Sound(ch', gen, if ch'.wire.Landed() then Charged(acc, ch.wire.op) else acc)
  {
  }

  // What an object's compare-and-swap may do to the free channels: take some
  // that are free, or return some that are charged to it.
  lemma SwapIsOwn(ch: Channel, gen: nat, acc: Account)
    requires Sound(ch, gen, acc) && ch.wire.Sent? && ch.pc.g == gen && ch.wire.op.Cas?
    ensures Fits(ch.wire.op.reg, ch.wire.op.cmp) && Fits(ch.wire.op.reg, ch.wire.op.new_)
    ensures ch.wire.op.cmp.Bits? ==> ch.wire.op.new_.chans - ch.wire.op.cmp.chans <= acc.channels
  {
  }

  lemma AnswerExact(ch: Channel, gen: nat, acc: Account, old_: Word)
    requires Exact(ch, gen, acc) && ch.wire.Sent? && ch.pc.g == gen && Fits(ch.wire.op.reg, old_)
    requires old_.Bits? ==> acc.channels !! old_.chans
    requires old_.Units? ==> old_.n + acc.units < TWO_TO_32
    ensures var ch' := Answer(ch, old_);
            Exact(ch', gen, if ch'.wire.Landed() then Charged(acc, ch.wire.op) else acc)
  {
  }

  lemma NewGeneration(ch: Channel, gen: nat)
    requires Shape(ch, gen)
    ensures Sound(ch, gen + 1, CLEAN)
    ensures Exact(ch, gen + 1, CLEAN) && Solvent(ch, gen + 1, CLEAN)
  {
  }

  // ----- what the fields claim never exceeds what is charged -----

  // A transaction that fails other than by a bus reset leaves no claim to
  // bandwidth that is not charged.
  predicate MayFailSolvent(ch: Channel, gen: nat, acc: Account) {
    ch.pc.Waiting() && ch.pc.g == gen ==>
      && (ch.pc.Reallocating() ==> ch.fBandwidth <= acc.units)
      && (ch.pc.AllocChannel? ==> ch.fBandwidth == 0)
  }

  // An account that covers whatever the object claims: what keeps an object
  // sound with it keeps its shape.
  function Covering(ch: Channel, gen: nat): Account {
    Account(0, Entitled(ch, gen) + {ch.fChannel}, 0, {})
  }

  lemma ResumeShape(ch: Channel, gen: nat)
    requires Shape(ch, gen) && ch.wire.Answered?
    ensures Shape(Resume(ch, gen), gen)
  {
    ResumeSound(ch, gen, Covering(ch, gen));
  }

  lemma ResumeAllocSolvent(ch: Channel, gen: nat, acc: Account)
    requires Solvent(ch, gen, acc) && ch.wire.Answered? && !ch.pc.Reallocating() && !ch.pc.Releasing()
    ensures Solvent(Resume(ch, gen), gen, acc) <==> !ChannelClaimFails(ch, gen)
  {
    ResumeShape(ch, gen);
  }

  lemma ResumeCallSolvent(ch: Channel, gen: nat, acc: Account)
    requires Solvent(ch, gen, acc) && ch.wire.Answered? && (ch.pc.Reallocating() || ch.pc.Releasing())
    ensures Solvent(Resume(ch, gen), gen, acc)
  {
    ResumeShape(ch, gen);
  }

  // A failed channel claim is what breaks it.
  lemma ResumeSolventExactlyWhen(ch: Channel, gen: nat, acc: Account)
    requires Solvent(ch, gen, acc) && ch.wire.Answered?
    ensures Solvent(Resume(ch, gen), gen, acc) <==> !ChannelClaimFails(ch, gen)
  {
    if ch.pc.Reallocating() || ch.pc.Releasing() {
      ResumeCallSolvent(ch, gen, acc);
    } else {
      ResumeAllocSolvent(ch, gen, acc);
    }
  }

  lemma FailSolventExactlyWhen(ch: Channel, gen: nat, junk: nat, acc: Account)
    requires Solvent(ch, gen, acc) && !ch.wire.Quiet?
    ensures Solvent(Fail(ch, gen, false, junk), gen, acc) <==> MayFailSolvent(ch, gen, acc)
  {
  }

  lemma ResetFailSolvent(ch: Channel, gen: nat, junk: nat, acc: Account)
    requires Solvent(ch, gen, acc) && !ch.wire.Quiet? && ch.pc.g != gen
    ensures Solvent(Fail(ch, gen, true, junk), gen, acc)
  {
  }

  lemma SampleSolventExactlyWhen(ch: Channel, gen: nat, acc: Account)
    requires Solvent(ch, gen, acc) && ch.pc.AllocStart?
    ensures Solvent(AllocSample(ch, gen), gen, acc) <==> ch.fBandwidth <= acc.units
  {
  }

  lemma StartSolvent(ch: Channel, gen: nat, g: nat, acc: Account)
    requires Solvent(ch, gen, acc) && ch.pc.Idle? && g <= gen
    ensures Solvent(StartRealloc(ch, gen, g), gen, acc) && Solvent(StartRelease(ch, gen), gen, acc)
  {
  }

  lemma AnswerSolvent(ch: Channel, gen: nat, acc: Account, old_: Word)
    requires Solvent(ch, gen, acc) && ch.wire.Sent? && ch.pc.g == gen && Fits(ch.wire.op.reg, old_)
    requires old_.Units? ==> old_.n + acc.units < TWO_TO_32
    ensures var ch' := Answer(ch, old_);
            Solvent(ch', gen, if ch'.wire.Landed() then Charged(acc, ch.wire.op) else acc)
  {
  }
}
