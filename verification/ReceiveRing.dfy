/**
 The ring of receive segments of an asynchronous stream: jumps at the end of each
 segment that the hardware follows while callbacks move the stop mark on.
 Source: IOFWAsyncStreamReceiver.cpp.
 */
module ReceiveRing {

  // One receive buffer of the nine is for overruns.
  const SEGMENTS: nat := 8

  datatype Target = Segment(index: nat) | Overrun

  datatype Hardware = Running | Stopped

  // Jump targets, and how many segments the hardware has entered and filled and
  // the callbacks have consumed. A callback is half done between its stores.
  datatype Ring = Ring(jumps: seq<Target>, hardware: Hardware, entered: nat, filled: nat, consumed: nat, half: bool)

  datatype Action = Fill | Jump | Close | Open | Restart

  function Forward(): (jumps: seq<Target>)
    ensures |jumps| == SEGMENTS
    ensures forall i :: 0 <= i < SEGMENTS ==> jumps[i] == if i == SEGMENTS - 1 then Overrun else Segment(i + 1)
  {
    [Segment(1), Segment(2), Segment(3), Segment(4), Segment(5), Segment(6), Segment(7), Overrun]
  }

  // After fixDCLJumps the hardware starts in segment 0.
  function Start(): Ring {
    Ring(Forward(), Running, 1, 0, 0, false)
  }

  function Before(index: nat): (before: nat)
    ensures before < SEGMENTS
  {
    (index + SEGMENTS - 1) % SEGMENTS
  }

  predicate Enabled(r: Ring, a: Action)
    requires |r.jumps| == SEGMENTS
  {
    match a
    case Fill => r.hardware.Running? && r.filled < r.entered
    case Jump => r.hardware.Running? && r.filled == r.entered && r.entered > 0
    // The callbacks come in order, for filled segments.
    case Close => !r.half && r.consumed < r.filled
    case Open => r.half && r.consumed > 0
    case Restart => r.hardware.Stopped?
  }

  function Step(r: Ring, a: Action): Ring
    requires |r.jumps| == SEGMENTS && Enabled(r, a)
  {
    match a
    case Fill => r.(filled := r.entered)
    case Jump =>
      if r.jumps[(r.entered - 1) % SEGMENTS].Overrun? then r.(hardware := Stopped)
      else r.(entered := r.entered + 1)
    // The two stores of modifyDCLJumps for the segment consumed last.
    case Close => r.(jumps := r.jumps[r.consumed % SEGMENTS := Overrun], consumed := r.consumed + 1, half := true)
    case Open =>
      var index := (r.consumed - 1) % SEGMENTS;
      r.(jumps := r.jumps[Before(index) := Segment(index)], half := false)
    case Restart => Start()
  }

  // The stop mark is before the oldest segment not consumed; while a callback
  // is half done there are two.
  predicate Marked(r: Ring, i: nat) {
    || i == Before(r.consumed % SEGMENTS)
    || (r.half && i == Before(Before(r.consumed % SEGMENTS)))
  }

  predicate Inv(r: Ring) {
    && |r.jumps| == SEGMENTS
    && r.consumed <= r.filled <= r.entered <= r.filled + 1
    && (if r.half then r.consumed > 0 && r.entered <= r.consumed - 1 + SEGMENTS else r.entered <= r.consumed + SEGMENTS)
    && forall i :: 0 <= i < SEGMENTS ==>
         r.jumps[i] == if Marked(r, i) then Overrun else Segment((i + 1) % SEGMENTS)
  }

  lemma StartInv()
    ensures Inv(Start())
  {
  }

  lemma StepInv(r: Ring, a: Action)
    requires Inv(r) && Enabled(r, a)
    ensures Inv(Step(r, a))
  {
    match a
    case Fill =>
    case Jump => JumpInv(r);
    case Close => CloseInv(r);
    case Open => OpenInv(r);
    case Restart => StartInv();
  }

  lemma JumpInv(r: Ring)
    requires Inv(r) && Enabled(r, Jump)
    ensures Inv(Step(r, Jump))
  {
    if r.entered == r.consumed + SEGMENTS || (r.half && r.entered == r.consumed - 1 + SEGMENTS) {
      assert Marked(r, (r.entered - 1) % SEGMENTS);
    }
  }

  lemma CloseInv(r: Ring)
    requires Inv(r) && Enabled(r, Close)
    ensures Inv(Step(r, Close))
  {
    var s := Step(r, Close);
    assert Before(s.consumed % SEGMENTS) == r.consumed % SEGMENTS;
  }

  lemma OpenInv(r: Ring)
    requires Inv(r) && Enabled(r, Open)
    ensures Inv(Step(r, Open))
  {
    var index := (r.consumed - 1) % SEGMENTS;
    assert index == Before(r.consumed % SEGMENTS);
    assert (Before(index) + 1) % SEGMENTS == index;
  }

  // The hardware is entering a segment that holds data no callback has seen.
  predicate Overwrites(r: Ring, a: Action)
    requires |r.jumps| == SEGMENTS && Enabled(r, a)
  {
    && a.Jump? && Step(r, a).entered == r.entered + 1
    && exists n :: r.consumed <= n < r.entered && n % SEGMENTS == r.entered % SEGMENTS
  }

  // Numbers less than a round apart are different segments.
  lemma Apart(n: nat, m: nat)
    requires n < m < n + SEGMENTS
    ensures n % SEGMENTS != m % SEGMENTS
  {
    assert m - n == SEGMENTS * (m / SEGMENTS - n / SEGMENTS) + (m % SEGMENTS - n % SEGMENTS);
  }

  lemma NeverOverwrites(r: Ring, a: Action)
    requires Inv(r) && Enabled(r, a)
    ensures !Overwrites(r, a)
  {
    if a.Jump? && Step(r, a).entered == r.entered + 1 {
      RoomAfterJump(r);
      hide Inv, Step;
      forall n | r.consumed <= n < r.entered
        ensures n % SEGMENTS != r.entered % SEGMENTS
      {
        Apart(n, r.entered);
      }
    }
  }

  lemma RoomAfterJump(r: Ring)
    requires Inv(r) && Enabled(r, Jump) && Step(r, Jump).entered == r.entered + 1
    ensures r.entered < r.consumed + SEGMENTS
  {
    JumpInv(r);
  }

  // ----- runs -----

  predicate Runs(r: Ring, actions: seq<Action>)
    decreases actions
  {
    |r.jumps| == SEGMENTS
    && (actions == [] || (Enabled(r, actions[0]) && |Step(r, actions[0]).jumps| == SEGMENTS
                          && Runs(Step(r, actions[0]), actions[1..])))
  }

  ghost predicate Safe(r: Ring, actions: seq<Action>)
    requires Runs(r, actions)
    decreases actions
  {
    actions == [] || (!Overwrites(r, actions[0]) && Safe(Step(r, actions[0]), actions[1..]))
  }

  // In every run, interleaved store by store, no unseen data is overwritten.
  lemma {:induction false} RunsAreSafe(r: Ring, actions: seq<Action>)
    requires Inv(r) && Runs(r, actions)
    ensures Safe(r, actions)
    decreases actions
  {
    if actions != [] {
      NeverOverwrites(r, actions[0]);
      StepInv(r, actions[0]);
      RunsAreSafe(Step(r, actions[0]), actions[1..]);
    }
  }

  lemma EveryRunIsSafe(actions: seq<Action>)
    requires Runs(Start(), actions)
    ensures Safe(Start(), actions)
  {
    StartInv();
    RunsAreSafe(Start(), actions);
  }

  // ----- the order of the two stores -----

  // The state between the stores if the segment before were opened first.
  function OpenedFirst(r: Ring): Ring
    requires Inv(r) && Enabled(r, Close)
  {
    var index := r.consumed % SEGMENTS;
    r.(jumps := r.jumps[Before(index) := Segment(index)], consumed := r.consumed + 1, half := true)
  }

  // Then the hardware could go round the ring over data not seen yet.
  lemma OtherOrderOverwrites(r: Ring)
    requires Inv(r) && !r.half && r.hardware.Running?
    requires r.entered == r.consumed + SEGMENTS && r.filled == r.entered
    ensures Enabled(r, Close)
    ensures var s := OpenedFirst(r);
            && Enabled(s, Jump)
            && var t := Step(s, Jump).(filled := s.entered + 1);
               Enabled(t, Jump) && Overwrites(t, Jump)
  {
    var s := OpenedFirst(r);
    OnceRound(r.consumed);
    assert !Marked(r, r.consumed % SEGMENTS);
    var t := Step(s, Jump).(filled := s.entered + 1);
    var n := r.consumed + 1;
    assert t.consumed <= n < t.entered && n % SEGMENTS == t.entered % SEGMENTS;
  }

  lemma OnceRound(c: nat)
    ensures (c + SEGMENTS - 1) % SEGMENTS == Before(c % SEGMENTS)
    ensures (c + SEGMENTS) % SEGMENTS == c % SEGMENTS && (c + 1 + SEGMENTS) % SEGMENTS == (c + 1) % SEGMENTS
    ensures Before(c % SEGMENTS) != c % SEGMENTS
  {
  }

  // The hardware stops when the ring is full of data not seen, and also when a
  // callback caught up with it before it took its jump.
  lemma StopsExactlyWhen(r: Ring)
    requires Inv(r) && Enabled(r, Jump)
    ensures Step(r, Jump).hardware.Stopped? <==>
            || r.entered == r.consumed + SEGMENTS
            || r.entered == r.consumed
            || (r.half && r.entered == r.consumed - 1 + SEGMENTS)
  {
    hide Before;
    BeforeOldest(r.consumed, r.entered);
  }

  // Which segment is before the oldest not consumed, and before that one.
  lemma BeforeOldest(n: nat, m: nat)
    requires 0 < m && n <= m <= n + SEGMENTS
    ensures (m - 1) % SEGMENTS == Before(n % SEGMENTS) <==> m == n || m == n + SEGMENTS
    ensures (m - 1) % SEGMENTS == Before(Before(n % SEGMENTS)) <==> m == n - 1 + SEGMENTS
  {
    var d := m - n;
    var k := n % SEGMENTS;
    assert (m - 1) % SEGMENTS == (k + d + SEGMENTS - 1) % SEGMENTS;
  }

  // ----- the stores -----

  class AsyncStreamReceiver {
    const jumps: array<Target>
    // Jump targets after each store so far.
    ghost var trace: seq<seq<Target>>

    constructor ()
      ensures fresh(jumps) && jumps[..] == Forward()
    {
      jumps := new Target[SEGMENTS](i => Overrun);
      trace := [];
      new;
      FixDCLJumps();
    }

    method FixDCLJumps()
      requires jumps.Length == SEGMENTS
      modifies this, jumps
      ensures jumps[..] == Forward()
    {
      var i := 0;
      while i < SEGMENTS
        invariant 0 <= i <= SEGMENTS
        invariant forall k :: 0 <= k < i ==> jumps[k] == Forward()[k]
      {
        if i != SEGMENTS - 1 {
          jumps[i] := Segment(i + 1);
        } else {
          jumps[i] := Overrun;
        }
        trace := trace + [jumps[..]];
        i := i + 1;
      }
    }

    // The callback of the oldest filled segment: its two stores are Close and
    // then Open.
    method ModifyDCLJumps(index: nat, ghost r: Ring)
      requires jumps[..] == r.jumps && Inv(r) && Enabled(r, Close) && index == r.consumed % SEGMENTS
      modifies this, jumps
      ensures trace == old(trace) + [Step(r, Close).jumps, Step(Step(r, Close), Open).jumps]
      ensures jumps[..] == Step(Step(r, Close), Open).jumps
    {
      var jumpIndex := (index + SEGMENTS - 1) % SEGMENTS;
      jumps[index] := Overrun;
      trace := trace + [jumps[..]];
      jumps[jumpIndex] := Segment(index);
      trace := trace + [jumps[..]];
    }
  }
}
