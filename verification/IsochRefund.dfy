/**
 Where bandwidth conservation stops: releaseIRMBandwidthInGeneration returns
 units to the register, but the object that asked for it keeps fBandwidth.
 */
module IsochRefund {
  import opened IrmRegisters
  import opened IsochAutomaton
  import opened IsochObject
  import opened IsochWorld
  import opened IsochTheorems

  // The ways into the refund: no acceptable channel is free, after a bandwidth
  // claim or for bandwidth kept from before; the channel swap missed; or it
  // ended in an error other than a bus reset.
  predicate EntersRefund(w: World, i: nat, a: Action) {
    && a.Of(i) && Enabled(w, a) && w.chans[i].pc.Waiting() && w.chans[i].pc.g == w.gen
    && match a
       case Proceed(_) =>
         match w.chans[i].pc {
           case AllocRead(_, job, got) =>
             && |got| == 2 && w.chans[i].fBandwidth != 0 && w.chans[i].fChannel == NO_CHANNEL
             && job.allowed * (got[1].chans + w.chans[i].wire.old_.chans) == {}
           case AllocBandwidth(_, job, hi, lo) =>
             w.chans[i].wire.Landed() && w.chans[i].fChannel == NO_CHANNEL && job.allowed * (hi + lo) == {}
           case AllocChannel(_, _, _) => !w.chans[i].wire.Landed()
           case _ => false
         }
       case Break(_, reset, _) => !reset && w.chans[i].pc.AllocChannel?
       case _ => false
  }

  // Object i is in the refund, or past it; it still believes in units.
  predicate Refunding(w: World, i: nat, units: nat) {
    && i < |w.chans| == |w.accounts|
    && w.chans[i].fBandwidth == units
    && var ch := w.chans[i];
       if ch.pc.Refund? then
         && ch.pc.g == w.gen && 1 <= ch.pc.retries <= 2
         && WellTyped(ch) && ReturnsUnits(ch.wire.op, units)
       else
         (ch.pc.Idle? || ch.pc.AllocStart?) && ch.wire.Quiet?
  }

  lemma EnterRefund(w: World, i: nat, a: Action)
    requires ExactAt(w, i) && SolventWorld(w) && EntersRefund(w, i, a)
    ensures var w1 := Step(w, a);
            var b := w1.chans[i].fBandwidth;
            && w1 == SetChannel(w, i, w1.chans[i])
            && Refunding(w1, i, b) && b <= INITIAL_BANDWIDTH
            && w.accounts[i].units == b + w.accounts[i].leakedUnits && 0 <= w.accounts[i].leakedUnits
            && (b != 0 <==> w1.chans[i].pc.Refund?)
            && (b != 0 ==> w1.chans[i].pc.retries == 2 && w1.chans[i].wire == Sent(RefundOp(0, b)))
  {
    UnitsAreBounded(w);
  }

  // ----- the refund among other agents -----

  // The responder applies a refund swap of object i.
  predicate Lands(w: World, i: nat, a: Action) {
    a == Serve(i) && Enabled(w, a) && w.chans[i].wire.op.Cas?
    && w.chans[i].wire.op.cmp == Value(w, w.chans[i].wire.op.reg)
  }

  function Landings(w: World, acts: seq<Action>, i: nat): nat
    requires |w.accounts| == |w.chans|
  {
    if acts == [] then 0
    else
      var n := |acts| - 1;
      Landings(w, acts[..n], i) + if Lands(Run(w, acts[..n]), i, acts[n]) then 1 else 0
  }

  // No bus reset; object i goes on with its call; the register has 32 bits.
  function DuringRefund(i: nat): (World, Action) -> bool {
    (w: World, a: Action) =>
      !a.BusReset? && (a.Of(i) ==> a.Serve? || a.Proceed? || a.Break?) && w.bandwidth < TWO_TO_32
  }

  // How many refund swaps may still land.
  function Chances(ch: Channel): int {
    if !ch.pc.Refund? then 0 else if ch.wire.Sent? then ch.pc.retries else ch.pc.retries - 1
  }

  // The units credited by up to two swaps of b units each, modulo 2^32.
  predicate Credited(given: int, landed: nat, b: nat) {
    match landed
    case 0 => given == 0
    case 1 => given == b || given == b - TWO_TO_32
    case 2 => given == 2 * b || given == 2 * b - TWO_TO_32 || given == 2 * (b - TWO_TO_32)
    case _ => false
  }

  lemma RefundStep(w: World, i: nat, b: nat, a: Action)
    requires Refunding(w, i, b) && DuringRefund(i)(w, a) && b < TWO_TO_32
    ensures Refunding(Step(w, a), i, b) && Step(w, a).gen == w.gen
    ensures Step(w, a).accounts[i].leakedUnits == w.accounts[i].leakedUnits
    ensures 0 <= Chances(Step(w, a).chans[i])
    ensures Chances(Step(w, a).chans[i]) + (if Lands(w, i, a) then 1 else 0) <= Chances(w.chans[i])
    ensures !Lands(w, i, a) ==> Step(w, a).accounts[i].units == w.accounts[i].units
    ensures Lands(w, i, a) ==>
              || Step(w, a).accounts[i].units == w.accounts[i].units - b
              || Step(w, a).accounts[i].units == w.accounts[i].units - b + TWO_TO_32
  {
  }

  lemma RefundRun(w: World, i: nat, b: nat, acts: seq<Action>)
    requires Refunding(w, i, b) && b < TWO_TO_32 && Along(w, acts, DuringRefund(i))
    ensures var w', landed := Run(w, acts), Landings(w, acts, i);
            && Refunding(w', i, b) && i < |w'.chans| && w'.chans[i].fBandwidth == b
            && w'.accounts[i].leakedUnits == w.accounts[i].leakedUnits
            && 0 <= Chances(w'.chans[i]) && Chances(w'.chans[i]) + landed <= Chances(w.chans[i]) <= 2
            && Credited(w.accounts[i].units - w'.accounts[i].units, landed, b)
  {
    hide Step, Lands, Credited;
    if acts != [] {
      var n := |acts| - 1;
      RefundRun(w, i, b, acts[..n]);
      var w1 := Run(w, acts[..n]);
      RefundStep(w1, i, b, acts[n]);
      if Lands(w1, i, acts[n]) {
        var after := Step(w1, acts[n]).accounts[i].units;
        OneMore(w.accounts[i].units, w1.accounts[i].units, after, Landings(w, acts[..n], i), b);
      }
    } else {
      NoneYet(b);
    }
  }

  lemma NoneYet(b: nat)
    ensures Credited(0, 0, b)
  {
  }

  lemma OneMore(start: int, before: int, after: int, landed: nat, b: nat)
    requires Credited(start - before, landed, b) && landed < 2
    requires after == before - b || after == before - b + TWO_TO_32
    ensures Credited(start - after, landed + 1, b)
  {
  }

  // Whoever acts during the refund, the object ends up believing in bandwidth
  // that is not charged to it exactly when it had some and a refund swap landed.
  lemma RefundBreaksConservation(w: World, i: nat, a: Action, acts: seq<Action>)
    requires ExactAt(w, i) && SolventWorld(w) && EntersRefund(w, i, a)
    requires Along(Step(w, a), acts, DuringRefund(i))
    ensures var b, landed := Step(w, a).chans[i].fBandwidth, Landings(Step(w, a), acts, i);
            var w' := Run(Step(w, a), acts);
            && w'.chans[i].fBandwidth == b
            && landed <= 2 && Credited(w.accounts[i].units - w'.accounts[i].units, landed, b)
            && (w'.accounts[i].units == b + w'.accounts[i].leakedUnits <==> b == 0 || landed == 0)
  {
    hide Step, ExactAt, SolventWorld, Along, Run, Landings, EntersRefund, Refunding, Credited;
    EnterRefund(w, i, a);
    var w1, w' := Step(w, a), Run(Step(w, a), acts);
    var b := w1.chans[i].fBandwidth;
    RefundRun(w1, i, b, acts);
    NoneCredited(w1.accounts[i].units - w'.accounts[i].units, Landings(w1, acts, i), b);
  }

  lemma NoneCredited(given: int, landed: nat, b: nat)
    requires Credited(given, landed, b) && b <= INITIAL_BANDWIDTH && (b == 0 ==> landed == 0)
    ensures landed <= 2 && (given == 0 <==> b == 0 || landed == 0)
  {
  }

  // The other agents can make both swaps miss: the register is not 0 when the
  // blind first swap arrives, and changes before the second. The books are
  // right then.
  lemma RefundCanMiss(w: World, i: nat, a: Action) returns (acts: seq<Action>)
    requires ExactAt(w, i) && SolventWorld(w) && EntersRefund(w, i, a) && 0 < w.bandwidth
    ensures Along(Step(w, a), acts, DuringRefund(i))
    ensures var w' := Run(Step(w, a), acts);
            && !w'.chans[i].pc.Refund?
            && w'.accounts[i].units == w'.chans[i].fBandwidth + w'.accounts[i].leakedUnits
  {
    EnterRefund(w, i, a);
    UnitsAreBounded(w);
    hide ExactAt, SolventWorld, EntersRefund, Along, Run;
    acts := [];
    if Step(w, a).chans[i].pc.Refund? {
      acts := MissTwice(Step(w, a), i);
    } else {
      NothingAlong(Step(w, a), i);
    }
  }

  lemma NothingAlong(w: World, i: nat)
    requires |w.accounts| == |w.chans|
    ensures Along(w, [], DuringRefund(i)) && Run(w, []) == w
  {
  }

  // Both swaps of a refund find another value than they expect.
  lemma MissTwice(w: World, i: nat) returns (acts: seq<Action>)
    requires |w.accounts| == |w.chans| && i < |w.chans| && Refunding(w, i, w.chans[i].fBandwidth)
    requires w.chans[i].pc.Refund? && w.chans[i].pc.retries == 2
    requires w.chans[i].wire == Sent(RefundOp(0, w.chans[i].fBandwidth)) && 0 < w.bandwidth < TWO_TO_32
    requires 0 <= w.foreign.units
    ensures Along(w, acts, DuringRefund(i))
    ensures !Run(w, acts).chans[i].pc.Refund? && Run(w, acts).accounts == w.accounts
    ensures Run(w, acts).chans[i].fBandwidth == w.chans[i].fBandwidth
  {
    hide Along, Run, Transact;
    NothingAlong(w, i);
    acts := ThenMiss(w, [], w, i);
    var w2 := Transact(w, i);
    MissedRefund(w, i);
    var take := Foreign(Cas(BandwidthAvailable, Units(w.bandwidth), Units((w.bandwidth - 1) as nat)));
    assert Step(w2, take).bandwidth == w.bandwidth - 1;
    acts := ThenAlong(w, acts, i, take);
    MissedRefund(Step(w2, take), i);
    acts := ThenMiss(w, acts, Step(w2, take), i);
  }

  lemma ThenMiss(w: World, acts: seq<Action>, w1: World, i: nat) returns (acts': seq<Action>)
    requires |w.accounts| == |w.chans| && Along(w, acts, DuringRefund(i)) && w1 == Run(w, acts)
    requires i < |w1.chans| && Refunding(w1, i, w1.chans[i].fBandwidth) && w1.bandwidth < TWO_TO_32
    requires w1.chans[i].pc.Refund? && w1.chans[i].wire.Sent? && w1.chans[i].wire.op.cmp != Units(w1.bandwidth)
    ensures Along(w, acts', DuringRefund(i)) && Run(w, acts') == Transact(w1, i)
  {
    hide Along, Run;
    MissedRefund(w1, i);
    acts' := ThenAlong(w, acts, i, Serve(i));
    acts' := ThenAlong(w, acts', i, Proceed(i));
  }

  lemma ThenAlong(w: World, acts: seq<Action>, i: nat, a: Action) returns (acts': seq<Action>)
    requires |w.accounts| == |w.chans| && Along(w, acts, DuringRefund(i)) && DuringRefund(i)(Run(w, acts), a)
    ensures acts' == acts + [a] && Along(w, acts', DuringRefund(i)) && Run(w, acts') == Step(Run(w, acts), a)
  {
    acts' := acts + [a];
    assert acts'[..|acts'| - 1] == acts;
  }

  // A refund swap with a stale compare value changes nothing but the attempts left.
  lemma MissedRefund(w: World, i: nat)
    requires |w.accounts| == |w.chans| && i < |w.chans| && Refunding(w, i, w.chans[i].fBandwidth)
    requires w.chans[i].pc.Refund? && w.chans[i].wire.Sent? && w.chans[i].wire.op.cmp != Units(w.bandwidth)
    ensures var w', ch := Transact(w, i), w.chans[i];
            && w' == SetChannel(w, i, w'.chans[i])
            && Step(w, Serve(i)).bandwidth == w.bandwidth
            && w'.chans[i] ==
               if ch.pc.retries == 1 then AfterRefund(ch, ch.pc.job, ch.pc.again)
               else ch.At(Refund(w.gen, ch.pc.job, 1, ch.pc.again), Sent(RefundOp(w.bandwidth, ch.fBandwidth)))
  {
  }

  // ----- the refund with nobody else on the bus -----

  // The branch that refunds the register but keeps fBandwidth, run to its end
  // with nobody else on the bus, after the step a that enters it.
  function RefundAlone(w: World, i: nat, a: Action): World
    requires |w.accounts| == |w.chans|
  {
    var w1 := Step(w, a);
    if i < |w1.chans| && w1.chans[i].pc.Refund? then
      var w2 := Transact(w1, i);
      if w2.chans[i].pc.Refund? then Transact(w2, i) else w2
    else
      w1
  }

  // One refund transaction whose compare value is the register's value.
  lemma RefundLands(w: World, i: nat)
    requires Books(w) && Enabled(w, Serve(i)) && w.chans[i].pc.Refund? && w.chans[i].pc.retries > 0
    requires w.chans[i].wire == Sent(RefundOp(w.bandwidth, w.chans[i].fBandwidth))
    requires w.bandwidth + w.chans[i].fBandwidth < TWO_TO_32
    ensures var ch, w' := w.chans[i], Transact(w, i);
            && w'.accounts == w.accounts[i := w.accounts[i].(units := w.accounts[i].units - ch.fBandwidth)]
            && w'.bandwidth == w.bandwidth + ch.fBandwidth
            && w' == w.(bandwidth := w'.bandwidth, chans := w'.chans, accounts := w'.accounts)
            && |w'.chans| == |w.chans| && w'.chans[i] == AfterRefund(ch, ch.pc.job, ch.pc.again)
  {
    TransactSwap(w, i);
  }

  lemma RefundIsComplete(w: World, i: nat)
    requires Books(w) && Enabled(w, Serve(i)) && w.chans[i].pc.Refund? && w.chans[i].pc.retries == 2
    requires w.chans[i].wire == Sent(RefundOp(0, w.chans[i].fBandwidth))
    requires w.bandwidth + w.chans[i].fBandwidth < TWO_TO_32
    ensures var w2 := Transact(w, i);
            var w' := if w2.chans[i].pc.Refund? then Transact(w2, i) else w2;
            && !w'.chans[i].pc.Refund?
            && w'.accounts == w.accounts[i := w.accounts[i].(units := w.accounts[i].units - w.chans[i].fBandwidth)]
            && w'.bandwidth == w.bandwidth + w.chans[i].fBandwidth
            && w' == w.(bandwidth := w'.bandwidth, chans := w'.chans, accounts := w'.accounts)
            && |w'.chans| == |w.chans|
            && w'.chans[i] == AfterRefund(w.chans[i], w.chans[i].pc.job, w.chans[i].pc.again)
  {
    if w.bandwidth == 0 {
      RefundLands(w, i);
    } else {
      var ch, w2 := w.chans[i], Transact(w, i);
      TransactMiss(w, i);
      assert w2.chans[i] ==
             ch.At(Refund(ch.pc.g, ch.pc.job, 1, ch.pc.again), Sent(RefundOp(w.bandwidth, ch.fBandwidth)));
      RefundLands(w2, i);
    }
  }

  // Left alone the refund always lands, so the books are right afterwards only
  // if the object had claimed no bandwidth.
  lemma RefundAloneLands(w: World, i: nat, a: Action)
    requires ExactAt(w, i) && SolventWorld(w) && EntersRefund(w, i, a)
    ensures var w', b := RefundAlone(w, i, a), Step(w, a).chans[i].fBandwidth;
            && w'.chans[i].fBandwidth == b && !w'.chans[i].pc.Refund?
            && w'.bandwidth == w.bandwidth + b
            && w'.accounts[i].units == w'.accounts[i].leakedUnits == w.accounts[i].leakedUnits
            && (b + w'.accounts[i].leakedUnits == w'.accounts[i].units <==> b == 0)
  {
    EnterRefund(w, i, a);
    UnitsAreBounded(w);
    if Step(w, a).chans[i].fBandwidth != 0 {
      RefundIsComplete(Step(w, a), i);
    }
  }
}
