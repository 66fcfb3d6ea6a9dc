// The isochronous resource manager protocol: the two registers, the channel
// object as a small automaton whose states are its outstanding transactions,
// and the interleaving of many objects, foreign nodes and bus resets.
// Source: IOFWIsochChannel.cpp, releaseIRMBandwidthInGeneration.

/** The registers and the transactions that reach them. */
module IrmRegisters {
  // The value of BANDWIDTH_AVAILABLE after a bus reset.
  const INITIAL_BANDWIDTH := 0x1333
  // fChannel holds this while no channel is allocated.
  const NO_CHANNEL := 64
  const TWO_TO_32 := 0x1_0000_0000

  datatype Register = BandwidthAvailable | ChannelsHi | ChannelsLo

  // A register word: a number of bandwidth units, or the set of channel
  // numbers whose bit is one.
  datatype Word = Units(n: nat) | Bits(chans: set<nat>)

  datatype Op = Read(reg: Register) | Cas(reg: Register, cmp: Word, new_: Word)

  // The command object's view of its one outstanding transaction.
  datatype Wire = Quiet | Sent(op: Op) | Answered(op: Op, old_: Word) {
    // What locked() will say: the responder held the compare value.
    predicate Landed() {
      Answered? && op.Cas? && op.cmp == old_
    }
  }

  // The word of CHANNELS_AVAILABLE that carries the bit of channel c.
  function ChannelRegister(c: nat): Register {
    if c < 32 then ChannelsHi else ChannelsLo
  }

  predicate InHi(c: nat) {
    c < 32
  }

  predicate InLo(c: nat) {
    32 <= c < 64
  }

  // The values a register can hold.
  predicate Fits(reg: Register, v: Word) {
    match reg
    case BandwidthAvailable => v.Units?
    case ChannelsHi => v.Bits? && forall c :: c in v.chans ==> InHi(c)
    case ChannelsLo => v.Bits? && forall c :: c in v.chans ==> InLo(c)
  }

  // The two words after a bus reset: every channel is free.
  function AllHi(): set<nat> {
    set c: nat | c < 32 && InHi(c)
  }

  function AllLo(): set<nat> {
    set c: nat | c < 64 && InLo(c)
  }
}

/** One channel object: its three fields, and where its current call stands. */
module IsochAutomaton {
  import opened IrmRegisters

  // What allocateChannelBegin was asked for. The allowed channels are masked
  // in place, so a retry starts from what the failed attempt left.
  datatype Job = Job(want: nat, allowed: set<nat>)

  // One constructor for each submit() the object may be waiting in.
  datatype Pc =
    | Idle
    | AllocStart(job: Job)
    | AllocRead(g: nat, job: Job, got: seq<Word>)
    | AllocBandwidth(g: nat, job: Job, hi: set<nat>, lo: set<nat>)
    | AllocChannel(g: nat, job: Job, c: nat)
    | Refund(g: nat, job: Job, retries: nat, again: bool)
    | ReallocReadBandwidth(g: nat)
    | ReallocSwapBandwidth(g: nat)
    | ReallocReadChannel(g: nat)
    | ReallocSwapChannel(g: nat)
    | ReleaseReadBandwidth(g: nat)
    | ReleaseSwapBandwidth(g: nat)
    | ReleaseReadChannel(g: nat)
    | ReleaseSwapChannel(g: nat)
  {
    predicate Waiting() {
      !Idle? && !AllocStart?
    }

    predicate Reallocating() {
      ReallocReadBandwidth? || ReallocSwapBandwidth? || ReallocReadChannel? || ReallocSwapChannel?
    }

    predicate Releasing() {
      ReleaseReadBandwidth? || ReleaseSwapBandwidth? || ReleaseReadChannel? || ReleaseSwapChannel?
    }
  }

  datatype Channel = Channel(fBandwidth: nat, fChannel: nat, fGeneration: nat, pc: Pc, wire: Wire) {
    predicate Empty() {
      fBandwidth == 0 && fChannel == NO_CHANNEL
    }

    // The value last read off the wire.
    function Last(): Word {
      if wire.Answered? then wire.old_ else Units(0)
    }

    function At(pc: Pc, wire: Wire): Channel {
      this.(pc := pc, wire := wire)
    }
  }

  predicate IsLowest(s: set<nat>, c: nat) {
    c in s && forall d :: d in s ==> c <= d
  }

  // The smallest channel number, the first bit the scanning loop meets.
  function Lowest(s: set<nat>): (c: nat)
    requires s != {}
    ensures c in s && forall d :: d in s ==> c <= d
  {
    LowestExists(s);
    var c :| c in s && IsLowest(s, c);
    c
  }

  lemma LowestExists(s: set<nat>)
    requires s != {}
    ensures exists c :: c in s && IsLowest(s, c)
  {
    var x :| x in s;
    if s == {x} {
      assert IsLowest(s, x);
    } else {
      LowestExists(s - {x});
      var y :| y in s - {x} && IsLowest(s - {x}, y);
      OneMoreMember(s, x, y);
    }
  }

  lemma OneMoreMember(s: set<nat>, x: nat, y: nat)
    requires x in s && IsLowest(s - {x}, y)
    ensures IsLowest(s, if x < y then x else y)
  {
    forall d | d in s ensures d == x || y <= d {
      assert d == x || d in s - {x};
    }
  }

  // ----- allocateChannelBegin -----

  function AllocReadRegister(k: nat): Register {
    if k == 0 then BandwidthAvailable else if k == 1 then ChannelsHi else ChannelsLo
  }

  // The loop head: sample the generation, send the first of three quadlet reads.
  function AllocSample(ch: Channel, gen: nat): Channel
    requires ch.pc.AllocStart?
  {
    ch.At(AllocRead(gen, ch.pc.job, []), Sent(Read(BandwidthAvailable)))
  }

  // A bus reset status clears both fields and goes round the loop.
  function AllocAfterReset(ch: Channel, job: Job): Channel {
    Channel(0, NO_CHANNEL, ch.fGeneration, AllocStart(job), Quiet)
  }

  // All three words are in: claim bandwidth unless the object already has some.
  function AllocAfterRead(ch: Channel, gen: nat, g: nat, job: Job, units: nat, hi: set<nat>, lo: set<nat>): Channel {
    if ch.fBandwidth == 0 then
      if units < job.want then
        ch.At(Idle, Quiet)
      else
        ch.At(AllocBandwidth(g, job, hi, lo), Sent(Cas(BandwidthAvailable, Units(units), Units(units - job.want))))
    else
      AllocClaimChannel(ch, gen, g, job, hi, lo)
  }

  // Mask the allowed channels by the free ones and claim the first left.
  function AllocClaimChannel(ch: Channel, gen: nat, g: nat, job: Job, hi: set<nat>, lo: set<nat>): Channel {
    if ch.fChannel != NO_CHANNEL then
      ch.(fGeneration := g).At(Idle, Quiet)
    else
      var job' := job.(allowed := job.allowed * (hi + lo));
      if job'.allowed == {} then
        StartRefund(ch, gen, g, job', false)
      else
        var c := Lowest(job'.allowed);
        var word := if c < 32 then hi else lo;
        ch.At(AllocChannel(g, job', c), Sent(Cas(ChannelRegister(c), Bits(word), Bits(word - {c}))))
  }

  // The channel claim failed without a bus reset status. The bandwidth goes
  // back to the register, but fBandwidth keeps its value.
  function StartRefund(ch: Channel, gen: nat, g: nat, job: Job, again: bool): Channel {
    if ch.fBandwidth != 0 && gen == g then
      ch.At(Refund(g, job, 2, again), Sent(RefundOp(0, ch.fBandwidth)))
    else
      AfterRefund(ch, job, again)
  }

  function RefundOp(expected: nat, units: nat): Op {
    Cas(BandwidthAvailable, Units(expected), Units((expected + units) % TWO_TO_32))
  }

  function AfterRefund(ch: Channel, job: Job, again: bool): Channel {
    ch.At(if again then AllocStart(job) else Idle, Quiet)
  }

  // ----- reallocBandwidth -----

  function StartRealloc(ch: Channel, gen: nat, g: nat): Channel {
    if gen != g || ch.fGeneration == g then
      ReallocDone(ch, g)
    else if ch.fBandwidth != 0 then
      ch.At(ReallocReadBandwidth(g), Sent(Read(BandwidthAvailable)))
    else
      ReallocChannelPart(ch, g)
  }

  function ReallocTryBandwidth(ch: Channel, g: nat, units: nat): Channel {
    if units < ch.fBandwidth then
      ReallocDone(ch.(fBandwidth := 0, fChannel := NO_CHANNEL), g)
    else
      ch.At(ReallocSwapBandwidth(g), Sent(Cas(BandwidthAvailable, Units(units), Units(units - ch.fBandwidth))))
  }

  function ReallocChannelPart(ch: Channel, g: nat): Channel {
    if ch.fChannel != NO_CHANNEL then
      ch.At(ReallocReadChannel(g), Sent(Read(ChannelRegister(ch.fChannel))))
    else
      ReallocDone(ch, g)
  }

  function ReallocTryChannel(ch: Channel, g: nat, word: set<nat>): Channel {
    if ch.fChannel !in word then
      ReallocDone(ch.(fChannel := NO_CHANNEL), g)
    else
      ch.At(ReallocSwapChannel(g),
            Sent(Cas(ChannelRegister(ch.fChannel), Bits(word), Bits(word - {ch.fChannel}))))
  }

  // Every path of reallocBandwidth ends by storing the thread's generation.
  function ReallocDone(ch: Channel, g: nat): Channel {
    ch.(fGeneration := g).At(Idle, Quiet)
  }

  // ----- releaseChannelComplete -----

  function StartRelease(ch: Channel, gen: nat): Channel {
    if gen != ch.fGeneration then
      ReleaseDone(ch, gen)
    else if ch.fBandwidth != 0 then
      ch.At(ReleaseReadBandwidth(gen), Sent(Read(BandwidthAvailable)))
    else
      ReleaseChannelPart(ch, gen)
  }

  function ReleaseTryBandwidth(ch: Channel, g: nat, units: nat): Channel {
    ch.At(ReleaseSwapBandwidth(g), Sent(RefundOp(units, ch.fBandwidth)))
  }

  function ReleaseChannelPart(ch: Channel, g: nat): Channel {
    if ch.fChannel != NO_CHANNEL then
      ch.At(ReleaseReadChannel(g), Sent(Read(ChannelRegister(ch.fChannel))))
    else
      ReleaseDone(ch, g)
  }

  function ReleaseTryChannel(ch: Channel, g: nat, word: set<nat>): Channel {
    ch.At(ReleaseSwapChannel(g),
          Sent(Cas(ChannelRegister(ch.fChannel), Bits(word), Bits(word + {ch.fChannel}))))
  }

  function ReleaseDone(ch: Channel, g: nat): Channel {
    Channel(0, NO_CHANNEL, g, Idle, Quiet)
  }

  // ----- the code that follows a submit() -----

  // Values on the wire have the shape of the register they came from.
  predicate WellTyped(ch: Channel) {
    && (ch.wire.Answered? ==> Fits(ch.wire.op.reg, ch.wire.old_))
    && match ch.pc
       case Idle => ch.wire.Quiet?
       case AllocStart(_) => ch.wire.Quiet?
       case AllocRead(_, _, got) =>
         && !ch.wire.Quiet?
         && |got| < 3
         && ch.wire.op == Read(AllocReadRegister(|got|))
         && forall k :: 0 <= k < |got| ==> Fits(AllocReadRegister(k), got[k])
       case AllocBandwidth(_, _, _, _) => !ch.wire.Quiet? && ch.wire.op.Cas? && ch.wire.op.reg == BandwidthAvailable
       case AllocChannel(_, _, c) => !ch.wire.Quiet? && ch.wire.op.Cas? && ch.wire.op.reg == ChannelRegister(c)
       case Refund(_, _, retries, _) =>
         !ch.wire.Quiet? && ch.wire.op.Cas? && ch.wire.op.reg == BandwidthAvailable && retries > 0
       case ReallocReadBandwidth(_) => !ch.wire.Quiet? && ch.wire.op == Read(BandwidthAvailable)
       case ReallocSwapBandwidth(_) => !ch.wire.Quiet? && ch.wire.op.Cas? && ch.wire.op.reg == BandwidthAvailable
       case ReallocReadChannel(_) => !ch.wire.Quiet? && ch.wire.op == Read(ChannelRegister(ch.fChannel))
       case ReallocSwapChannel(_) =>
         !ch.wire.Quiet? && ch.wire.op.Cas? && ch.wire.op.reg == ChannelRegister(ch.fChannel)
       case ReleaseReadBandwidth(_) => !ch.wire.Quiet? && ch.wire.op == Read(BandwidthAvailable)
       case ReleaseSwapBandwidth(_) => !ch.wire.Quiet? && ch.wire.op.Cas? && ch.wire.op.reg == BandwidthAvailable
       case ReleaseReadChannel(_) => !ch.wire.Quiet? && ch.wire.op == Read(ChannelRegister(ch.fChannel))
       case ReleaseSwapChannel(_) =>
         !ch.wire.Quiet? && ch.wire.op.Cas? && ch.wire.op.reg == ChannelRegister(ch.fChannel)
  }

  // submit() returned success; gen is the generation at this moment.
  function Resume(ch: Channel, gen: nat): Channel
    requires WellTyped(ch) && ch.wire.Answered?
  {
    var old_ := ch.wire.old_;
    match ch.pc
    case AllocRead(g, job, got) =>
      if |got| < 2 then
        ch.At(AllocRead(g, job, got + [old_]), Sent(Read(AllocReadRegister(|got| + 1))))
      else
        AllocAfterRead(ch, gen, g, job, got[0].n, got[1].chans, old_.chans)
    case AllocBandwidth(g, job, hi, lo) =>
      if ch.wire.Landed() then
        AllocClaimChannel(ch.(fBandwidth := job.want), gen, g, job, hi, lo)
      else
        ch.At(AllocStart(job), Quiet)
    case AllocChannel(g, job, c) =>
      if ch.wire.Landed() then
        ch.(fChannel := c, fGeneration := g).At(Idle, Quiet)
      else
        StartRefund(ch, gen, g, job, true)
    case Refund(g, job, retries, again) =>
      if ch.wire.Landed() || retries == 1 then
        AfterRefund(ch, job, again)
      else
        ch.At(Refund(g, job, retries - 1, again), Sent(RefundOp(old_.n, ch.fBandwidth)))
    case ReallocReadBandwidth(g) => ReallocTryBandwidth(ch, g, old_.n)
    case ReallocSwapBandwidth(g) =>
      if ch.wire.Landed() then ReallocChannelPart(ch, g) else ReallocTryBandwidth(ch, g, old_.n)
    case ReallocReadChannel(g) => ReallocTryChannel(ch, g, old_.chans)
    case ReallocSwapChannel(g) =>
      if ch.wire.Landed() then ReallocDone(ch, g) else ReallocTryChannel(ch, g, old_.chans)
    case ReleaseReadBandwidth(g) => ReleaseTryBandwidth(ch, g, old_.n)
    case ReleaseSwapBandwidth(g) =>
      if ch.wire.Landed() then ReleaseChannelPart(ch.(fBandwidth := 0), g) else ReleaseTryBandwidth(ch, g, old_.n)
    case ReleaseReadChannel(g) => ReleaseTryChannel(ch, g, old_.chans)
    case ReleaseSwapChannel(g) =>
      if ch.wire.Landed() then ReleaseDone(ch, g) else ReleaseTryChannel(ch, g, old_.chans)
  }

  // submit() returned an error: a bus reset, or (reset false) any other one.
  // junk is what an unanswered refund leaves in its result variable.
  function Fail(ch: Channel, gen: nat, reset: bool, junk: nat): Channel
    requires WellTyped(ch) && !ch.wire.Quiet?
  {
    match ch.pc
    case AllocRead(g, job, _) => if reset then AllocAfterReset(ch, job) else ch.At(Idle, Quiet)
    case AllocBandwidth(g, job, _, _) => if reset then AllocAfterReset(ch, job) else ch.At(Idle, Quiet)
    case AllocChannel(g, job, _) => if reset then AllocAfterReset(ch, job) else StartRefund(ch, gen, g, job, false)
    case Refund(g, job, retries, again) =>
      if reset || retries == 1 then
        AfterRefund(ch, job, again)
      else
        ch.At(Refund(g, job, retries - 1, again), Sent(RefundOp(junk, ch.fBandwidth)))
    case ReallocReadBandwidth(g) => ReallocDone(ch, g)
    case ReallocSwapBandwidth(g) => ReallocDone(ch, g)
    case ReallocReadChannel(g) => ReallocDone(ch, g)
    case ReallocSwapChannel(g) => ReallocDone(ch, g)
    case ReleaseReadBandwidth(g) =>
      if reset then ReleaseDone(ch, g) else ReleaseChannelPart(ch.(fBandwidth := 0), g)
    case ReleaseSwapBandwidth(g) =>
      if reset then ReleaseDone(ch, g) else ReleaseChannelPart(ch.(fBandwidth := 0), g)
    case ReleaseReadChannel(g) => ReleaseDone(ch, g)
    case ReleaseSwapChannel(g) => ReleaseDone(ch, g)
  }
}
