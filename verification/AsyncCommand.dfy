/**
 Asynchronous read and write commands: submission, packets and their responses,
 retries, bus resets, and completion that may be re-entered.
 Source: IOFWAsyncCommand.cpp, IOFWCommand.cpp, IOFWReadCommand.cpp,
 IOFWReadQuadCommand.cpp, IOFWWriteCommand.cpp, IOFireWireController.cpp
 (transaction labels).
 */
module AsyncTransfer {

  const WORD: nat := 0x1_0000_0000

  // kIOFireWireBusReset is the response base plus the pseudo response 16.
  datatype Status =
    | Success | Busy | Pending | Completing
    | BusReset | Timeout | Offline | OutOfTLabels | BadArgument | Response(rcode: nat) | OtherError(code: nat)
  {
    predicate Final() {
      !Busy? && !Pending? && !Completing?
    }
  }

  type FinalStatus = s: Status | s.Final() witness Success

  const RESPONSE_COMPLETE: nat := 0
  const RESPONSE_TYPE_ERROR: nat := 6
  const RESPONSE_ADDRESS_ERROR: nat := 7
  const RESPONSE_BUS_RESET: nat := 16

  function ResponseStatus(rcode: nat): FinalStatus {
    if rcode == RESPONSE_BUS_RESET then BusReset else Response(rcode)
  }

  datatype Kind = Read | ReadQuad | Write

  // The queue a command is on.
  datatype Queue = NoQueue | TimeoutQ | PendingQ | AfterResetQ

  datatype Trans = NoTrans | Trans(tcode: nat)

  // What the rest of the driver answers the next time it is asked: completions
  // while the link is told, progress and bus scan state, the link's verdict on
  // a timeout, the node and its packet limit, and the outcome of sending.
  datatype Answers = Answers(reentrant: seq<FinalStatus>, progressing: bool, scanning: bool, timeoutHandled: bool,
                             nodeID: nat, nodePack: nat, send: FinalStatus)

  // The status latched last.
  function Latched(status: FinalStatus, reentrant: seq<FinalStatus>): FinalStatus {
    if reentrant == [] then status else reentrant[|reentrant| - 1]
  }

  // ----- tiling -----

  // A packet: target address, offset in the buffer, length.
  datatype Packet = Packet(address: nat, offset: nat, length: int)

  // The packets cover the first n bytes from base once, in order, each with
  // the buffer offset that matches its address.
  predicate Tiles(packets: seq<Packet>, base: nat, n: nat) {
    if packets == [] then n == 0
    else
      var last := packets[|packets| - 1];
      && last.length > 0 && last.length <= n && last.offset == n - last.length
      && last.address == (base + last.offset) % WORD
      && Tiles(packets[..|packets| - 1], base, n - last.length)
  }

  lemma TilesAppend(packets: seq<Packet>, base: nat, n: nat, length: nat)
    requires Tiles(packets, base, n) && length > 0
    ensures Tiles(packets + [Packet((base + n) % WORD, n, length)], base, n + length)
  {
    assert (packets + [Packet((base + n) % WORD, n, length)])[..|packets|] == packets;
  }

  // Every byte is in one packet, and in no other.
  lemma {:induction false} TilesCover(packets: seq<Packet>, base: nat, n: nat, b: nat)
    requires Tiles(packets, base, n) && b < n
    ensures exists i :: 0 <= i < |packets| && packets[i].offset <= b < packets[i].offset + packets[i].length
    ensures forall i, j :: 0 <= i < j < |packets| ==> packets[i].offset + packets[i].length <= packets[j].offset
    decreases |packets|
  {
    TilesOrdered(packets, base, n);
    var last := packets[|packets| - 1];
    if b >= last.offset {
      assert packets[|packets| - 1].offset <= b;
    } else {
      var rest := packets[..|packets| - 1];
      TilesCover(rest, base, n - last.length, b);
      var i :| 0 <= i < |rest| && rest[i].offset <= b < rest[i].offset + rest[i].length;
      assert packets[i] == rest[i];
    }
  }

  lemma {:induction false} TilesOrdered(packets: seq<Packet>, base: nat, n: nat)
    requires Tiles(packets, base, n)
    ensures forall i :: 0 <= i < |packets| ==> packets[i].offset + packets[i].length <= n
    ensures forall i, j :: 0 <= i < j < |packets| ==> packets[i].offset + packets[i].length <= packets[j].offset
    decreases |packets|
  {
    if packets != [] {
      var rest := packets[..|packets| - 1];
      TilesOrdered(rest, base, n - packets[|packets| - 1].length);
      assert forall i :: 0 <= i < |rest| ==> rest[i] == packets[i];
    }
  }

  // The packets cover exactly the first n bytes of a buffer of the given size.
  predicate TilesBuffer(packets: seq<Packet>, base: nat, n: nat, size: nat) {
    n <= size && Tiles(packets, base, n)
  }

  // ----- the buffer -----

  // The buffer with bytes stored at an offset, as far as they fit.
  function Overlay(was: seq<bv8>, at: nat, bytes: seq<bv8>): (now: seq<bv8>)
    ensures |now| == |was|
  {
    if at >= |was| then was
    else if at + |bytes| <= |was| then was[..at] + bytes + was[at + |bytes|..]
    else was[..at] + bytes[..|was| - at]
  }

  // The buffer starts with the bytes, as far as they fit.
  predicate StartsWith(buffer: seq<bv8>, bytes: seq<bv8>) {
    if |bytes| <= |buffer| then buffer[..|bytes|] == bytes else buffer == bytes[..|buffer|]
  }

  lemma OverlayStartsWith(was: seq<bv8>, moved: seq<bv8>, bytes: seq<bv8>)
    requires StartsWith(was, moved)
    ensures StartsWith(Overlay(was, |moved|, bytes), moved + bytes)
  {
    var now := Overlay(was, |moved|, bytes);
    if |moved| >= |was| {
      assert (moved + bytes)[..|was|] == moved[..|was|];
    } else if |moved| + |bytes| <= |was| {
      assert now[..|moved| + |bytes|] == was[..|moved|] + bytes;
    } else {
      assert (moved + bytes)[..|was|] == moved + bytes[..|was| - |moved|];
    }
  }

  lemma OverlayNone(was: seq<bv8>, at: nat, bytes: seq<bv8>)
    ensures Overlay(was, at, bytes[..0]) == was
  {
  }

  lemma OverlayOne(was: seq<bv8>, at: nat, bytes: seq<bv8>, i: nat)
    requires i < |bytes| && at + i < |was|
    ensures Overlay(was, at, bytes[..i + 1]) == Overlay(was, at, bytes[..i])[at + i := bytes[i]]
  {
  }

  lemma OverlayFits(was: seq<bv8>, at: nat, bytes: seq<bv8>, n: nat)
    requires n <= |bytes| && (n < |bytes| ==> at + n >= |was|)
    ensures Overlay(was, at, bytes[..n]) == Overlay(was, at, bytes)
  {
  }

  lemma OverlayTwice(was: seq<bv8>, at: nat, a: seq<bv8>, b: seq<bv8>)
    ensures Overlay(Overlay(was, at, a), at + |a|, b) == Overlay(was, at, a + b)
  {
  }

  // ----- termination measure -----

  // Bytes left, whether packets may still be cut down to quadlets, retries left.
  datatype Measure = Measure(size: nat, wide: bool, retries: nat)

  predicate Less(a: Measure, b: Measure) {
    || a.size < b.size
    || (a.size == b.size && !a.wide && b.wide)
    || (a.size == b.size && a.wide == b.wide && a.retries < b.retries)
  }

  predicate AtMost(a: Measure, b: Measure) {
    a == b || Less(a, b)
  }

  // Steps that make the measure smaller end: no sequence of measures gets
  // smaller for ever from any point on.
  lemma {:induction false} LessIsWellFounded(f: nat -> Measure, i: nat)
    requires forall k :: k >= i ==> Less(f(k + 1), f(k))
    ensures false
    decreases f(i).size, f(i).wide, f(i).retries
  {
    assert Less(f(i + 1), f(i));
    LessIsWellFounded(f, i + 1);
  }
}

module AsyncCommandCode {
  import opened AsyncTransfer

  const LABELS: nat := 64

  class Controller {
    // The command that uses a transaction label; null for a free label.
    const labels: array<AsyncCommand?>
    var fLastTrans: nat
    const world: nat -> Answers
    var asked: nat

    ghost predicate Valid()
      reads this
    {
      && labels.Length == LABELS && fLastTrans < LABELS
      && forall i :: world(i).nodePack >= 4
    }

    constructor (world: nat -> Answers)
      requires forall i :: world(i).nodePack >= 4
      ensures Valid() && fresh(labels) && this.world == world
      ensures forall t :: 0 <= t < LABELS ==> labels[t] == null
    {
      labels := new AsyncCommand?[LABELS];
      fLastTrans, asked := LABELS - 1, 0;
      this.world := world;
      new;
      forall t | 0 <= t < LABELS {
        labels[t] := null;
      }
    }

    method Ask() returns (a: Answers)
      requires Valid()
      modifies this`asked
      ensures a == world(old(asked)) && asked == old(asked) + 1
    {
      a := world(asked);
      asked := asked + 1;
    }

    // The next free label after the last one handed out, if any is free.
    method AllocTrans(cmd: AsyncCommand) returns (trans: Trans)
      requires Valid()
      modifies this`fLastTrans, labels
      ensures Valid()
      ensures trans.NoTrans? <==> forall t :: 0 <= t < LABELS ==> old(labels[t]) != null
      ensures trans.NoTrans? ==> labels[..] == old(labels[..])
      ensures trans.Trans? ==>
                && trans.tcode < LABELS && old(labels[trans.tcode]) == null
                && labels[..] == old(labels[..])[trans.tcode := cmd] && fLastTrans == trans.tcode
                // it is the first free one after the last handed out, going round
                && forall t :: 0 <= t < LABELS ==>
                     (if old(fLastTrans) < trans.tcode then old(fLastTrans) < t < trans.tcode
                      else old(fLastTrans) < t || t < trans.tcode) ==> old(labels[t]) != null
    {
      var tran := fLastTrans;
      var i := 0;
      while i < LABELS
        invariant 0 <= i <= LABELS && labels[..] == old(labels[..])
        invariant tran == if fLastTrans + i < LABELS then fLastTrans + i else fLastTrans + i - LABELS
        invariant forall t :: fLastTrans < t <= fLastTrans + i && t < LABELS ==> labels[t] != null
        invariant forall t :: 0 <= t <= fLastTrans + i - LABELS ==> labels[t] != null
      {
        tran := tran + 1;
        if tran >= LABELS {
          tran := 0;
        }
        if labels[tran] == null {
          labels[tran] := cmd;
          fLastTrans := tran;
          return Trans(tran);
        }
        i := i + 1;
      }
      trans := NoTrans;
    }

    // A label is freed only while it is in use.
    method FreeTrans(tcode: nat)
      requires Valid() && tcode < LABELS && labels[tcode] != null
      modifies labels
      ensures labels[..] == old(labels[..])[tcode := null]
    {
      labels[tcode] := null;
    }
  }

  class AsyncCommand {
    const control: Controller
    const kind: Kind
    const hasDevice: bool
    const fAddressHi: nat
    const fTimeout: nat
    var fMemDesc: array<bv8>
    var fFailOnReset: bool
    var fStatus: Status
    var fCompletionStatus: FinalStatus
    var fTrans: Trans
    var fQueue: Queue
    // A signed word in the source; only its distance from 0 matters.
    var fMaxRetries: nat
    var fCurRetries: nat
    var fAckCode: int
    var fNodeID: nat
    var fMaxPack: nat
    var fPackSize: int
    // Negative once a response was longer than what was left to read.
    var fSize: int
    var fAddressLo: nat
    var fBytesTransferred: nat
    // How far a read of quadlets has moved its destination pointer.
    var fQuads: nat
    // The number of submissions and the statuses reported for them.
    ghost var submits: nat
    ghost var reported: seq<Status>
    // The transfer: target address, the bytes moved, packets acknowledged.
    ghost var base: nat
    ghost var moved: seq<bv8>
    ghost var acked: seq<Packet>
    // The packet that waits for a response.
    ghost var request: Packet

    predicate Active()
      reads this`fStatus
    {
      fStatus.Busy? || fStatus.Pending? || fStatus.Completing?
    }

    // The command's label, and no other, has it as handler.
    ghost predicate Owns(trans: Trans)
      reads control.labels
    {
      && control.labels.Length == LABELS
      && (trans.Trans? ==> trans.tcode < LABELS)
      && forall t :: 0 <= t < LABELS ==> (control.labels[t] == this <==> trans == Trans(t))
    }

    // Labels of other commands stay as they are.
    ghost predicate KeepsOthers(was: seq<AsyncCommand?>, now: seq<AsyncCommand?>) {
      && |was| == |now|
      && forall t :: 0 <= t < |was| ==>
           was[t] == now[t] || ((was[t] == null || was[t] == this) && (now[t] == null || now[t] == this))
    }

    lemma KeepsOthersReflexive(a: seq<AsyncCommand?>)
      ensures KeepsOthers(a, a)
    {
    }

    lemma KeepsOthersTransitive(a: seq<AsyncCommand?>, b: seq<AsyncCommand?>, c: seq<AsyncCommand?>)
      requires KeepsOthers(a, b) && KeepsOthers(b, c)
      ensures KeepsOthers(a, c)
    {
    }

    // What has been acknowledged, and the two copies of the bytes. A read of
    // quadlets drops what a response has beyond its last whole quadlet.
    ghost predicate Covered()
      reads this`fSize, this`fBytesTransferred, this`fQuads, this`base, this`moved, this`acked, this`fMemDesc, fMemDesc
    {
      && fBytesTransferred + fSize == fMemDesc.Length
      && (fSize >= 0 ==> Tiles(acked, base, fBytesTransferred))
      && StartsWith(fMemDesc[..], moved)
      && (kind == Write ==> fSize >= 0)
      && (if kind == ReadQuad then |moved| == 4 * fQuads <= fBytesTransferred && fMemDesc.Length % 4 == 0
          else |moved| == fBytesTransferred)
    }

    ghost predicate Transfer()
      reads this`fSize, this`fBytesTransferred, this`fQuads, this`fAddressLo, this`base, this`moved, this`acked
      reads this`fMemDesc, fMemDesc
    {
      && Covered()
      && (fSize > 0 || fBytesTransferred == 0 ==> fAddressLo == (base + fBytesTransferred) % WORD)
    }

    // The acknowledged packets cover what was transferred, inside the buffer.
    ghost predicate Tiled()
      reads this`fBytesTransferred, this`base, this`acked, this`fMemDesc, fMemDesc
    {
      TilesBuffer(acked, base, fBytesTransferred, fMemDesc.Length)
    }

    ghost predicate Limits()
      reads this`fMaxPack, this`fFailOnReset, this`fCurRetries, this`fMaxRetries, control
    {
      && control.Valid()
      && fMaxPack >= 4
      && (!fFailOnReset ==> hasDevice)
      && fMaxRetries < WORD && fCurRetries < WORD
    }

    // Each submission is reported once, or is still being worked on.
    ghost predicate Books()
      reads this`submits, this`reported, this`fStatus
    {
      submits == |reported| + if Active() then 1 else 0
    }

    ghost predicate Place()
      reads this`fStatus, this`fTrans, this`fQueue, this`request, this`fPackSize, this`fSize
      reads this`fAddressLo, this`fBytesTransferred, this`fMaxPack
    {
      match fStatus
      case Busy => fTrans.Trans? && (fTimeout != 0 ==> fQueue.TimeoutQ?)
                   && request == Packet(fAddressLo, fBytesTransferred, fPackSize)
                   && fPackSize <= fSize && fPackSize <= fMaxPack
                   && (if fSize > 0 then fPackSize > 0 else fPackSize == fSize)
      case Pending => fTrans.NoTrans? && (fQueue.PendingQ? || fQueue.AfterResetQ?)
      case _ => fTrans.NoTrans? && fQueue.NoQueue?
    }

    ghost predicate Valid()
      reads this, fMemDesc, control, control.labels
    {
      && Limits() && Transfer() && Books() && Place() && Owns(fTrans)
      && !fStatus.Completing? && (fMemDesc as object) != control.labels
    }

    ghost function Work(): Measure
      reads this`fSize, this`fMaxPack, this`fCurRetries
    {
      Measure(if fSize > 0 then fSize else 0, fMaxPack > 4, fCurRetries)
    }

    // The same without the retries.
    ghost function Left(): Measure
      reads this`fSize, this`fMaxPack
    {
      Measure(if fSize > 0 then fSize else 0, fMaxPack > 4, 0)
    }

    // initAll of a command for the bytes of memory at address.
    constructor (control: Controller, kind: Kind, hasDevice: bool, addressHi: nat, addressLo: nat, memory: array<bv8>,
                 maxPack: nat, maxRetries: nat, timeout: nat, failOnReset: bool)
      requires control.Valid() && maxPack >= 4 && addressLo < WORD && maxRetries < WORD
      requires (!failOnReset ==> hasDevice) && (memory as object) != control.labels
      requires kind == ReadQuad ==> memory.Length % 4 == 0
      ensures Valid() && !Active() && fSize == memory.Length && fBytesTransferred == 0 && acked == []
      ensures fMemDesc == memory && base == addressLo && moved == [] && this.kind == kind
      ensures reported == [] && submits == 0 && this.control == control && fCurRetries == maxRetries
    {
      this.control, this.kind, this.hasDevice, fAddressHi, fTimeout := control, kind, hasDevice, addressHi, timeout;
      fMemDesc, fFailOnReset, fStatus, fCompletionStatus := memory, failOnReset, Success, Success;
      fTrans, fQueue, fMaxRetries, fCurRetries := NoTrans, NoQueue, maxRetries, maxRetries;
      fAckCode, fNodeID, fMaxPack, fPackSize := 0, 0, maxPack, 0;
      fSize, fAddressLo, fBytesTransferred, fQuads := memory.Length, addressLo, 0, 0;
      submits, reported, base, moved, acked, request := 0, [], addressLo, [], [], Packet(0, 0, 0);
    }

    predicate AckBusy()
      reads this`fAckCode
    {
      4 <= fAckCode <= 6
    }

    // The configuration ROM of a node.
    predicate InRom()
      reads this`fAddressLo
    {
      fAddressHi == 0xFFFF && 0xF000_0400 <= fAddressLo < 0xF000_0800
    }

    // One more status has been reported, or the command is still active.
    twostate predicate ReportsOnce()
      reads this`reported, this`fStatus
    {
      if Active() then reported == old(reported) else reported == old(reported) + [fStatus]
    }

    // No label was free or the link refused the last packet, and that ended the
    // command or put it off.
    predicate PutOff()
      reads this`fStatus, this`fCompletionStatus, this`fFailOnReset, control`asked
    {
      && control.asked >= 2
      && var last, sent := control.world(control.asked - 1), control.world(control.asked - 2).send;
      && (|| fCompletionStatus == Latched(OutOfTLabels, last.reentrant)
          || (sent != Success && fCompletionStatus == Latched(sent, last.reentrant)))
      && var reset := fCompletionStatus.BusReset? && !fFailOnReset && last.progressing;
         if fStatus.Pending? then reset && last.scanning
         else fStatus == if reset && !last.scanning && hasDevice then Offline else fCompletionStatus
    }

    // The link is told; it may complete the command again while it is.
    method HandleAsyncCompletion(reentrant: seq<FinalStatus>)
      requires fStatus.Completing? && Limits() && Owns(fTrans) && Books()
      modifies this`fStatus, this`fCompletionStatus, this`fTrans, this`fQueue, this`fCurRetries, this`fNodeID
      modifies this`fMaxPack, this`fPackSize, this`reported, this`request
      modifies control`asked, control`fLastTrans, control.labels
      ensures fCompletionStatus == Latched(old(fCompletionStatus), reentrant) && Same()
      decreases fCurRetries, 2
    {
      for i := 0 to |reentrant|
        invariant fCompletionStatus == Latched(old(fCompletionStatus), reentrant[..i]) && Same()
      {
        var _ := Complete(reentrant[i]);
        assert reentrant[..i + 1][i] == reentrant[i];
      }
      assert reentrant[..|reentrant|] == reentrant;
    }

    // Nothing but the latched status has changed.
    twostate predicate Same()
      reads this, control, control.labels
    {
      && unchanged(this`fStatus, this`fTrans, this`fQueue, this`fCurRetries, this`fNodeID)
      && unchanged(this`fMaxPack, this`fPackSize, this`reported, this`request)
      && unchanged(control) && unchanged(control.labels)
    }

    method Complete(status: FinalStatus) returns (result: Status)
      requires Active() && Limits() && Owns(fTrans) && Books()
      modifies this`fStatus, this`fCompletionStatus, this`fTrans, this`fQueue, this`fCurRetries, this`fNodeID
      modifies this`fMaxPack, this`fPackSize, this`reported, this`request
      modifies control`asked, control`fLastTrans, control.labels
      // A completion inside a completion only latches its status.
      ensures old(fStatus).Completing? ==> Same() && fCompletionStatus == status
      ensures !old(fStatus).Completing? ==> result == fStatus && Ended()
      // Otherwise the status latched last decides: a timeout may be retried, a
      // reset waits for the bus scan, or has cost the device, or is reported like
      // everything else.
      ensures !old(fStatus).Completing? ==>
                var a := control.world(old(control.asked));
                var s := if a.reentrant == [] then status else a.reentrant[|a.reentrant| - 1];
                if && s.Timeout? && old(fCurRetries) != 0 && old(fNodeID) != 0x4242
                   && (|| old(4 <= fAckCode <= 6) || a.timeoutHandled
                       || (fAddressHi == 0xFFFF && old(fMaxPack > 4 && 0xF000_0400 <= fAddressLo < 0xF000_0800)))
                then
                  && (Active() ==> Less(Work(), old(Work()))) && (!fStatus.Busy? ==> PutOff())
                  && (old(fTrans).Trans? && control.world(old(control.asked) + 1).send == Success ==> fStatus.Busy?)
                else
                  && fCompletionStatus == s && control.asked == old(control.asked) + 1
                  && if s.BusReset? && !fFailOnReset && a.progressing && a.scanning then
                       && fStatus == Pending && fQueue == AfterResetQ && Work() == old(Work())
                       && reported == old(reported)
                     else if s.BusReset? && !fFailOnReset && a.progressing && hasDevice then
                       fStatus == Offline && reported == old(reported) + [Offline]
                     else
                       fStatus == s && reported == old(reported) + [s]
      ensures !old(fStatus).Completing? && Active() ==>
                AtMost(Work(), old(Work())) && (fStatus.Busy? ==> Less(Work(), old(Work())))
      decreases fCurRetries, if fStatus.Completing? then 0 else 4
    {
      hide KeepsOthers, Owns, PutOff;
      fCompletionStatus := status;
      if fStatus.Completing? {
        return Success;
      }
      var a := BeginCompletion();
      ghost var mid := control.labels[..];
      result := FinishCompletion(a);
      KeepsOthersTransitive(old(control.labels[..]), mid, control.labels[..]);
    }

    // The rest of the completion.
    method FinishCompletion(a: Answers) returns (result: Status)
      requires fStatus.Completing? && fTrans.NoTrans? && fQueue.NoQueue? && Owns(NoTrans) && Limits() && Books()
      modifies this`fStatus, this`fCompletionStatus, this`fTrans, this`fQueue, this`fCurRetries, this`fNodeID
      modifies this`fMaxPack, this`fPackSize, this`reported, this`request
      modifies control`asked, control`fLastTrans, control.labels
      ensures result == fStatus && Ended()
      // the last timeout leaves a number that counts as retries left
      ensures old(fCompletionStatus).Timeout? && old(fCurRetries) == 0 ==> fCurRetries == WORD - 1
      ensures var s := old(fCompletionStatus);
              if && s.Timeout? && old(fCurRetries) != 0 && old(fNodeID) != 0x4242
                 && (|| old(4 <= fAckCode <= 6) || a.timeoutHandled
                     || (fAddressHi == 0xFFFF && old(fMaxPack > 4 && 0xF000_0400 <= fAddressLo < 0xF000_0800)))
              then
                && (Active() ==> Less(Work(), old(Work()))) && (!fStatus.Busy? ==> PutOff())
                && (old(CanSend()) ==> fStatus.Busy?)
              else
                && fCompletionStatus == s && control.asked == old(control.asked)
                && if s.BusReset? && !fFailOnReset && a.progressing && a.scanning then
                     && fStatus == Pending && fQueue == AfterResetQ && Work() == old(Work())
                     && reported == old(reported)
                   else if s.BusReset? && !fFailOnReset && a.progressing && hasDevice then
                     fStatus == Offline && reported == old(reported) + [Offline]
                   else
                     fStatus == s && reported == old(reported) + [s]
      ensures Active() ==> AtMost(Work(), old(Work())) && (fStatus.Busy? ==> Less(Work(), old(Work())))
      decreases fCurRetries, 3
    {
      hide KeepsOthers, Owns;
      assert KeepsOthers(control.labels[..], control.labels[..]) by { KeepsOthersReflexive(control.labels[..]); }
      var completionStatus := fCompletionStatus;
      if completionStatus.BusReset? && !fFailOnReset {
        if a.progressing {
          if a.scanning {
            fQueue := AfterResetQ;
            fStatus := Pending;
            return fStatus;
          } else if hasDevice {
            completionStatus := Offline;
          }
        }
      } else if completionStatus.Timeout? {
        var again := fCurRetries != 0;
        fCurRetries := (fCurRetries + WORD - 1) % WORD;
        if again {
          var tryAgain := MayRetry(a);
          if tryAgain {
            result := StartExecution();
            return result;
          }
        }
      }
      fStatus := completionStatus;
      reported := reported + [completionStatus];
      return completionStatus;
    }

    // Up to the point where the command has left its queue and its label.
    method BeginCompletion() returns (a: Answers)
      requires Active() && !fStatus.Completing? && Limits() && Owns(fTrans) && Books()
      modifies this`fStatus, this`fCompletionStatus, this`fTrans, this`fQueue, this`fCurRetries, this`fNodeID
      modifies this`fMaxPack, this`fPackSize, this`reported, this`request
      modifies control`asked, control`fLastTrans, control.labels
      ensures a == control.world(old(control.asked))
      ensures fStatus.Completing? && fTrans.NoTrans? && fQueue.NoQueue? && Owns(NoTrans) && Limits()
      ensures KeepsOthers(old(control.labels[..]), control.labels[..])
      ensures fCompletionStatus == Latched(old(fCompletionStatus), a.reentrant)
      ensures control.asked == old(control.asked) + 1 && (old(fTrans).Trans? ==> null in control.labels[..])
      ensures unchanged(this`fCurRetries, this`fNodeID, this`fMaxPack, this`fPackSize, this`reported, this`request)
      decreases fCurRetries, 3
    {
      hide KeepsOthers, Owns;
      a := control.Ask();
      fStatus := Completing;
      HandleAsyncCompletion(a.reentrant);
      assert control.labels[..] == old(control.labels[..]);
      fQueue := NoQueue;
      DropLabel();
    }

    method SetPackSize(nodePack: nat)
      requires Limits() && nodePack >= 4
      modifies this`fPackSize
      ensures fPackSize <= fSize && (if fSize > 0 then fPackSize > 0 else fPackSize == fSize)
      ensures var size := if fSize > fMaxPack then fMaxPack else fSize;
              fPackSize == if nodePack < size then nodePack else size
    {
      fPackSize := fSize;
      if fPackSize > fMaxPack {
        fPackSize := fMaxPack;
      }
      var maxPack := nodePack;
      if maxPack < fPackSize {
        fPackSize := maxPack;
      }
    }

    method DropLabel()
      requires control.Valid() && Owns(fTrans)
      modifies this`fTrans, control.labels
      ensures fTrans.NoTrans? && Owns(NoTrans) && KeepsOthers(old(control.labels[..]), control.labels[..])
      ensures old(fTrans).Trans? ==> null in control.labels[..]
    {
      if fTrans.Trans? {
        control.FreeTrans(fTrans.tcode);
        assert control.labels[..][fTrans.tcode] == null;
        fTrans := NoTrans;
      }
    }

    method TakeLabel()
      requires control.Valid() && Owns(NoTrans)
      modifies this`fTrans, control`fLastTrans, control.labels
      ensures control.Valid() && Owns(fTrans) && KeepsOthers(old(control.labels[..]), control.labels[..])
      ensures fTrans.Trans? <==> null in old(control.labels[..])
    {
      fTrans := control.AllocTrans(this);
    }

    // Whether a command that timed out is tried again; the packets of a read
    // of the configuration ROM are cut down to quadlets.
    method MayRetry(a: Answers) returns (tryAgain: bool)
      modifies this`fMaxPack
      ensures tryAgain <==>
                && fNodeID != 0x4242
                && (|| 4 <= fAckCode <= 6 || a.timeoutHandled
                    || (fAddressHi == 0xFFFF && old(fMaxPack) > 4 && 0xF000_0400 <= fAddressLo < 0xF000_0800))
      ensures fMaxPack == if !(4 <= fAckCode <= 6) && fAddressHi == 0xFFFF && 0xF000_0400 <= fAddressLo < 0xF000_0800
                             && old(fMaxPack) > 4 then 4 else old(fMaxPack)
    {
      tryAgain := AckBusy();
      if !tryAgain {
        if fMaxPack > 4 && InRom() {
          fMaxPack := 4;
          tryAgain := true;
        } else {
          tryAgain := a.timeoutHandled;
        }
      }
      if fNodeID == 0x4242 {
        tryAgain := false;
      }
    }

    // What holds of the command after it was worked on.
    twostate predicate Ended()
      reads this, control, control.labels
    {
      && Limits() && Books() && Place() && Owns(fTrans) && !fStatus.Completing?
      && KeepsOthers(old(control.labels[..]), control.labels[..]) && ReportsOnce()
    }

    method StartExecution() returns (result: Status)
      requires Limits() && fTrans.NoTrans? && Owns(fTrans)
      requires submits == |reported| + 1
      modifies this`fStatus, this`fCompletionStatus, this`fTrans, this`fQueue, this`fCurRetries, this`fNodeID
      modifies this`fMaxPack, this`fPackSize, this`reported, this`request
      modifies control`asked, control`fLastTrans, control.labels
      ensures result == fStatus && Ended() && (Active() ==> AtMost(Work(), old(Work())))
      ensures old(CanSend()) ==> fStatus.Busy? && fPackSize == old(PackSize())
      ensures old(CanSend()) ==> fMaxPack == old(fMaxPack) && fCurRetries == old(fCurRetries)
      ensures !fStatus.Busy? ==> PutOff()
      decreases fCurRetries, 6
    {
      UpdateTimer();
      result := Execute();
    }

    // A label is free and the link takes the next packet.
    predicate CanSend()
      reads control, control.labels
    {
      null in control.labels[..] && control.world(control.asked).send == Success
    }

    function PackSize(): int
      reads this`fSize, this`fMaxPack, control`asked
    {
      var size := if fSize > fMaxPack then fMaxPack else fSize;
      var limit := control.world(control.asked).nodePack;
      if limit < size then limit else size
    }

    // A command with a timeout waits on the timeout queue.
    method UpdateTimer()
      modifies this`fQueue
      ensures fTimeout != 0 ==> fQueue.TimeoutQ?
      ensures fTimeout == 0 ==> fQueue == old(fQueue)
    {
      if fTimeout != 0 {
        fQueue := TimeoutQ;
      }
    }

    // Sends the next packet; a refusal completes the command at once.
    method Execute() returns (result: Status)
      requires Limits() && Owns(NoTrans) && (fTimeout != 0 ==> fQueue.TimeoutQ?)
      requires submits == |reported| + 1
      modifies this`fStatus, this`fCompletionStatus, this`fTrans, this`fQueue, this`fCurRetries, this`fNodeID
      modifies this`fMaxPack, this`fPackSize, this`reported, this`request
      modifies control`asked, control`fLastTrans, control.labels
      ensures result == fStatus && Ended() && (Active() ==> AtMost(Work(), old(Work())))
      ensures old(CanSend()) ==> fStatus.Busy? && fPackSize == old(PackSize())
      ensures old(CanSend()) ==> fMaxPack == old(fMaxPack) && fCurRetries == old(fCurRetries)
      // as much as is left, as the command and the node allow
      ensures null in old(control.labels[..]) && control.world(old(control.asked)).send == Success ==>
                var limit := control.world(old(control.asked)).nodePack;
                && fStatus == Busy && fPackSize <= fSize && fPackSize <= fMaxPack && fPackSize <= limit
                && (fPackSize == fSize || fPackSize == fMaxPack || fPackSize == limit)
      ensures !fStatus.Busy? ==> PutOff()
      decreases fCurRetries, 5
    {
      hide KeepsOthers, Owns, Limits, Place;
      var sent := SendPacket();
      result := fStatus;
      if sent != Success {
        ghost var mid := control.labels[..];
        var _ := Complete(sent);
        KeepsOthersTransitive(old(control.labels[..]), mid, control.labels[..]);
        result := fStatus;
      }
    }

    method SendPacket() returns (sent: FinalStatus)
      requires Limits() && Owns(NoTrans) && (fTimeout != 0 ==> fQueue.TimeoutQ?)
      requires submits == |reported| + 1
      modifies this`fStatus, this`fTrans, this`fNodeID, this`fPackSize, this`request
      modifies control`asked, control`fLastTrans, control.labels
      ensures Limits() && Books() && fStatus == Busy && Owns(fTrans)
      ensures KeepsOthers(old(control.labels[..]), control.labels[..])
      ensures sent == Success ==> Place()
      ensures sent == Success <==> old(CanSend())
      ensures control.asked == old(control.asked) + 1
      ensures sent == OutOfTLabels || sent == control.world(old(control.asked)).send
      ensures fPackSize == old(PackSize())
    {
      hide KeepsOthers, Owns, Books;
      var send := PreparePacket();
      TakeLabel();
      sent := OutOfTLabels;
      if fTrans.Trans? {
        request := Packet(fAddressLo, fBytesTransferred, fPackSize);
        sent := send;
      }
    }

    method PreparePacket() returns (send: FinalStatus)
      requires Limits() && submits == |reported| + 1
      modifies this`fStatus, this`fNodeID, this`fPackSize, control`asked
      ensures Limits() && Books() && fStatus == Busy
      ensures send == control.world(old(control.asked)).send && control.asked == old(control.asked) + 1
      ensures fPackSize == old(PackSize())
      ensures fPackSize <= fSize && (if fSize > 0 then fPackSize > 0 else fPackSize == fSize)
    {
      fStatus := Busy;
      var a := control.Ask();
      if !fFailOnReset {
        fNodeID := a.nodeID;
      }
      SetPackSize(a.nodePack);
      send := a.send;
    }

    method Submit(queue: bool) returns (result: Status)
      requires Valid() && !Active()
      modifies this`fStatus, this`fCompletionStatus, this`fTrans, this`fQueue, this`fCurRetries, this`fNodeID
      modifies this`fMaxPack, this`fPackSize, this`reported, this`request, this`submits
      modifies control`asked, control`fLastTrans, control.labels
      ensures Valid() && submits == old(submits) + 1 && ReportsOnce()
      ensures KeepsOthers(old(control.labels[..]), control.labels[..])
      ensures queue ==> fStatus == Pending && fQueue == PendingQ
      ensures !queue && old(CanSend()) ==> fStatus == Busy
      ensures !queue && !fStatus.Busy? ==> PutOff()
    {
      hide KeepsOthers, Owns, Transfer;
      KeepsOthersReflexive(control.labels[..]);
      submits := submits + 1;
      if queue {
        fQueue := PendingQ;
        fStatus := Pending;
      } else {
        var r := StartExecution();
        fStatus := r;
      }
      result := fStatus;
    }

    // A command waiting on a queue is executed.
    method ExecuteQueued()
      requires Valid() && fStatus.Pending?
      modifies this`fStatus, this`fCompletionStatus, this`fTrans, this`fQueue, this`fCurRetries, this`fNodeID
      modifies this`fMaxPack, this`fPackSize, this`reported, this`request
      modifies control`asked, control`fLastTrans, control.labels
      ensures Valid() && ReportsOnce() && KeepsOthers(old(control.labels[..]), control.labels[..])
      ensures Active() ==> AtMost(Work(), old(Work()))
      ensures !fStatus.Busy? ==> PutOff()
    {
      hide KeepsOthers, Owns, Transfer;
      fQueue := NoQueue;
      var r := StartExecution();
      fStatus := r;
    }

    // A timeout, a bus reset or the client ends the command early.
    method Cancel(reason: FinalStatus)
      requires Valid() && Active()
      modifies this`fStatus, this`fCompletionStatus, this`fTrans, this`fQueue, this`fCurRetries, this`fNodeID
      modifies this`fMaxPack, this`fPackSize, this`reported, this`request
      modifies control`asked, control`fLastTrans, control.labels
      ensures Valid() && ReportsOnce() && KeepsOthers(old(control.labels[..]), control.labels[..])
      ensures Active() ==> AtMost(Work(), old(Work())) && (fStatus.Busy? ==> Less(Work(), old(Work())))
      // what is not a timeout, nor a reset that the command outlives, is reported
      ensures var a := control.world(old(control.asked));
              var s := if a.reentrant == [] then reason else a.reentrant[|a.reentrant| - 1];
              !s.Timeout? && (s.BusReset? ==> fFailOnReset) ==>
                fStatus == s && reported == old(reported) + [s]
    {
      hide KeepsOthers, Owns, Transfer;
      var _ := Complete(reason);
    }

    // The part all gotPacket methods share: the old label is freed, the next
    // packet is sent with the retries restored.
    method NextPacket()
      requires Limits() && Books() && fStatus.Busy? && Owns(fTrans) && fTrans.Trans?
      modifies this`fStatus, this`fCompletionStatus, this`fTrans, this`fQueue, this`fCurRetries, this`fNodeID
      modifies this`fMaxPack, this`fPackSize, this`reported, this`request
      modifies control`asked, control`fLastTrans, control.labels
      ensures Ended()
      ensures Active() ==> AtMost(Left(), old(Left()))
      ensures old(CanSendAgain()) ==> fStatus.Busy? && fMaxPack == old(fMaxPack) && fCurRetries == fMaxRetries
      ensures !fStatus.Busy? ==> PutOff()
    {
      hide KeepsOthers;
      control.FreeTrans(fTrans.tcode);
      ghost var mid := control.labels[..];
      assert KeepsOthers(old(control.labels[..]), mid) by { Freed(old(control.labels[..]), fTrans.tcode); }
      UpdateTimer();
      fCurRetries := fMaxRetries;
      assert mid[fTrans.tcode] == null;
      var _ := Execute();
      KeepsOthersTransitive(old(control.labels[..]), mid, control.labels[..]);
    }

    lemma Freed(labels: seq<AsyncCommand?>, t: nat)
      requires t < |labels| && labels[t] == this
      ensures KeepsOthers(labels, labels[t := null])
    {
    }

    // The link takes the next packet: the label just freed can be had again.
    predicate CanSendAgain()
      reads control
    {
      control.world(control.asked).send == Success
    }

    // What a response of n bytes does to the transfer. A refused block is asked
    // for again in quadlets if fallsBack.
    twostate predicate Advances(rcode: nat, n: int, fallsBack: bool)
      reads this, control
    {
      if rcode == RESPONSE_COMPLETE then
        && fBytesTransferred == old(fBytesTransferred) + n && fSize == old(fSize) - n
        && acked == old(acked) + (if n > 0 then [Packet(old(fAddressLo), old(fBytesTransferred), n)] else [])
        && (fSize > 0 && old(CanSendAgain()) ==> fStatus.Busy? && reported == old(reported))
        && (fSize > 0 && !fStatus.Busy? ==> PutOff())
        && (fSize <= 0 && Quiet(old(control.asked)) ==> reported == old(reported) + [Success])
      else
        && fBytesTransferred == old(fBytesTransferred) && fSize == old(fSize) && acked == old(acked)
        && fAddressLo == old(fAddressLo)
        && (fallsBack && old(fMaxPack) > 4 && fSize > 0 && old(CanSendAgain()) ==> fStatus.Busy? && fMaxPack == 4)
        // refused, and nothing is left to ask for: that counts as success
        && (fallsBack && old(fMaxPack) > 4 && fSize <= 0 && Quiet(old(control.asked)) ==>
              reported == old(reported) + [Success])
        && (!(fallsBack && old(fMaxPack) > 4) && Quiet(old(control.asked)) && rcode != RESPONSE_BUS_RESET ==>
              reported == old(reported) + [Response(rcode)])
        && (rcode == RESPONSE_BUS_RESET && !fallsBack && Quiet(old(control.asked)) ==> ResetAnswered())
    }

    // A response that stands for a bus reset is reported as one, or the command
    // waits until the bus scan is done.
    twostate predicate ResetAnswered()
      reads this`fFailOnReset, this`reported, this`fStatus, this`fQueue, control
    {
      && (fFailOnReset ==> fStatus == BusReset && reported == old(reported) + [BusReset])
      && (!fFailOnReset && control.world(old(control.asked)).progressing && control.world(old(control.asked)).scanning
          ==> fStatus == Pending && fQueue == AfterResetQ && reported == old(reported))
    }

    // What a complete response of n bytes does to the promises of the transfer:
    // the packets keep tiling the buffer exactly if no more came than was left,
    // and a command that goes on is nearer to its end exactly if a byte came.
    twostate predicate Progresses(n: nat)
      reads this, fMemDesc, control
    {
      && (old(Tiled()) ==> (Tiled() <==> n <= old(fSize)))
      && (fSize > 0 && old(CanSendAgain()) ==>
            (Less(Work(), old(Work())) <==> n > 0 || fMaxRetries < old(fCurRetries)))
      && (fStatus.Busy? && (n > 0 || old(fSize) <= 0) ==> Less(Work(), old(Work())))
    }

    // The link completes nothing on its own at this point.
    predicate Quiet(at: nat)
      reads control
    {
      control.world(at).reentrant == []
    }

    // writeBytes on the memory descriptor, which stores what fits.
    method WriteBytes(data: seq<bv8>)
      modifies fMemDesc
      ensures fMemDesc[..] == Overlay(old(fMemDesc[..]), fBytesTransferred, data)
    {
      hide Overlay;
      ghost var was := fMemDesc[..];
      var room := if fBytesTransferred <= fMemDesc.Length then fMemDesc.Length - fBytesTransferred else 0;
      var n := if |data| <= room then |data| else room;
      OverlayNone(was, fBytesTransferred, data);
      var i := 0;
      while i < n
        invariant 0 <= i <= n
        invariant fMemDesc[..] == Overlay(was, fBytesTransferred, data[..i])
      {
        OverlayOne(was, fBytesTransferred, data, i);
        fMemDesc[fBytesTransferred + i] := data[i];
        i := i + 1;
      }
      OverlayFits(was, fBytesTransferred, data, n);
    }

    // The response is copied one whole quadlet at a time. The source does not
    // look where the destination ends; what would go past it is not stored here.
    method CopyQuads(data: seq<bv8>)
      requires fMemDesc.Length % 4 == 0
      modifies this`fQuads, fMemDesc
      ensures fQuads == old(fQuads) + |data| / 4
      ensures fMemDesc[..] == Overlay(old(fMemDesc[..]), 4 * old(fQuads), WholeQuads(data))
    {
      hide Overlay;
      ghost var was, from := fMemDesc[..], 4 * fQuads;
      OverlayNone(was, from, data);
      var i := 0;
      while i < |data| / 4
        invariant 0 <= i <= |data| / 4 && fQuads == old(fQuads) + i
        invariant fMemDesc[..] == Overlay(was, from, data[..4 * i])
      {
        OverlayTwice(was, from, data[..4 * i], data[4 * i..4 * i + 4]);
        assert data[..4 * i] + data[4 * i..4 * i + 4] == data[..4 * (i + 1)];
        CopyQuad(4 * fQuads, data[4 * i..4 * i + 4]);
        fQuads := fQuads + 1;
        i := i + 1;
      }
    }

    static function WholeQuads(data: seq<bv8>): (whole: seq<bv8>)
      ensures whole <= data && |whole| == |data| / 4 * 4
    {
      data[..|data| / 4 * 4]
    }

    method CopyQuad(at: nat, quad: seq<bv8>)
      requires |quad| == 4 && at % 4 == 0 && fMemDesc.Length % 4 == 0
      modifies fMemDesc
      ensures fMemDesc[..] == Overlay(old(fMemDesc[..]), at, quad)
    {
      hide Overlay;
      ghost var was := fMemDesc[..];
      OverlayNone(was, at, quad);
      var i := 0;
      while i < 4 && at < fMemDesc.Length
        invariant 0 <= i <= 4 && fMemDesc[..] == Overlay(was, at, quad[..i])
        invariant at >= fMemDesc.Length ==> i == 0
      {
        OverlayOne(was, at, quad, i);
        fMemDesc[at + i] := quad[i];
        i := i + 1;
      }
      OverlayFits(was, at, quad, i);
    }

    // The books of the transfer, before the next bytes are counted.
    ghost predicate Counted()
      reads this`fSize, this`fBytesTransferred, this`fAddressLo, this`base, this`acked, this`fMemDesc
    {
      && fBytesTransferred + fSize == fMemDesc.Length
      && (fSize >= 0 ==> Tiles(acked, base, fBytesTransferred))
      && (fSize > 0 || fBytesTransferred == 0 ==> fAddressLo == (base + fBytesTransferred) % WORD)
    }

    // Size bytes of the target have been dealt with; bytes of them were moved.
    method Acknowledge(size: nat, ghost bytes: seq<bv8>)
      requires Counted() && StartsWith(fMemDesc[..], moved + bytes) && (kind == Write ==> size <= fSize)
      requires if kind == ReadQuad then
                 |moved| + |bytes| == 4 * fQuads <= fBytesTransferred + size && fMemDesc.Length % 4 == 0
               else
                 |moved| + |bytes| == fBytesTransferred + size
      modifies this`fSize, this`fBytesTransferred, this`acked, this`moved
      ensures Covered() && fSize == old(fSize) - size && fBytesTransferred == old(fBytesTransferred) + size
      ensures acked == old(acked) + (if size > 0 then [Packet(fAddressLo, old(fBytesTransferred), size)] else [])
      ensures moved == old(moved) + bytes
      ensures fSize > 0 ==> (fAddressLo + size) % WORD == (base + fBytesTransferred) % WORD
      ensures fBytesTransferred == 0 ==> fAddressLo == base % WORD
      ensures old(Tiled()) ==> (Tiled() <==> size <= old(fSize))
    {
      hide Tiles, StartsWith;
      if size > 0 {
        if size <= fSize {
          TilesAppend(acked, base, fBytesTransferred, size);
        }
        acked := acked + [Packet(fAddressLo, fBytesTransferred, size)];
      }
      ghost var at := base + fBytesTransferred;
      AddModulo(at, size);
      moved := moved + bytes;
      fSize := fSize - size;
      fBytesTransferred := fBytesTransferred + size;
      assert base + fBytesTransferred == at + size;
    }

    static lemma AddModulo(a: nat, n: nat)
      ensures (a % WORD + n) % WORD == (a + n) % WORD
    {
    }

    // The bytes of the response are in the buffer, as far as they fit.
    method Receive(data: seq<bv8>)
      requires Transfer() && kind == Read
      modifies this`fSize, this`fBytesTransferred, this`acked, this`moved, fMemDesc
      ensures Covered() && fSize == old(fSize) - |data| && fBytesTransferred == old(fBytesTransferred) + |data|
      ensures acked == old(acked) + (if |data| > 0 then [Packet(fAddressLo, old(fBytesTransferred), |data|)] else [])
      ensures moved == old(moved) + data
      ensures fMemDesc[..] == Overlay(old(fMemDesc[..]), old(fBytesTransferred), data)
      ensures fSize > 0 ==> (fAddressLo + |data|) % WORD == (base + fBytesTransferred) % WORD
      ensures fBytesTransferred == 0 ==> fAddressLo == base % WORD
      ensures old(Tiled()) ==> (Tiled() <==> |data| <= old(fSize))
    {
      hide Tiles, Overlay, StartsWith;
      ghost var was := fMemDesc[..];
      WriteBytes(data);
      OverlayStartsWith(was, moved, data);
      Acknowledge(|data|, data);
    }

    method ReceiveQuads(data: seq<bv8>)
      requires Transfer() && kind == ReadQuad
      modifies this`fSize, this`fBytesTransferred, this`fQuads, this`acked, this`moved, fMemDesc
      ensures Covered() && fSize == old(fSize) - |data| && fBytesTransferred == old(fBytesTransferred) + |data|
      ensures acked == old(acked) + (if |data| > 0 then [Packet(fAddressLo, old(fBytesTransferred), |data|)] else [])
      ensures moved == old(moved) + WholeQuads(data) && fQuads == old(fQuads) + |data| / 4
      ensures fMemDesc[..] == Overlay(old(fMemDesc[..]), 4 * old(fQuads), WholeQuads(data))
      ensures fSize > 0 ==> (fAddressLo + |data|) % WORD == (base + fBytesTransferred) % WORD
      ensures fBytesTransferred == 0 ==> fAddressLo == base % WORD
      ensures old(Tiled()) ==> (Tiled() <==> |data| <= old(fSize))
    {
      hide Tiles, Overlay, StartsWith;
      ghost var was := fMemDesc[..];
      CopyQuads(data);
      OverlayStartsWith(was, moved, WholeQuads(data));
      Acknowledge(|data|, WholeQuads(data));
    }

    // The device stores the packet and the transfer moves on.
    method Deliver()
      requires Transfer() && kind == Write && 0 <= fPackSize <= fSize
      modifies this`fSize, this`fBytesTransferred, this`acked, this`moved
      ensures Covered() && fSize == old(fSize) - fPackSize && fBytesTransferred == old(fBytesTransferred) + fPackSize
      ensures acked == old(acked) +
                       (if fPackSize > 0 then [Packet(fAddressLo, old(fBytesTransferred), fPackSize)] else [])
      ensures moved == fMemDesc[..fBytesTransferred]
      ensures fSize > 0 ==> (fAddressLo + fPackSize) % WORD == (base + fBytesTransferred) % WORD
      ensures fBytesTransferred == 0 ==> fAddressLo == base % WORD
      ensures old(Tiled()) ==> Tiled()
    {
      hide Tiles;
      ghost var end := fBytesTransferred + fPackSize;
      ghost var bytes := fMemDesc[fBytesTransferred..end];
      assert moved + bytes == fMemDesc[..end];
      Acknowledge(fPackSize, bytes);
    }

    // The part all gotPacket methods share: the next packet, or success.
    method Continue(size: nat)
      requires Limits() && Books() && fStatus.Busy? && Owns(fTrans) && fTrans.Trans? && Covered()
      requires (fMemDesc as object) != control.labels
      requires fSize > 0 ==> (fAddressLo + size) % WORD == (base + fBytesTransferred) % WORD
      requires fSize <= 0 && fBytesTransferred == 0 ==> fAddressLo == base % WORD
      modifies this`fStatus, this`fCompletionStatus, this`fTrans, this`fQueue, this`fCurRetries, this`fNodeID
      modifies this`fMaxPack, this`fPackSize, this`reported, this`request, this`fAddressLo
      modifies control`asked, control`fLastTrans, control.labels
      ensures Transfer() && Ended()
      ensures Active() ==> AtMost(Left(), old(Left()))
      ensures fSize > 0 && old(CanSendAgain()) ==>
                fStatus.Busy? && fMaxPack == old(fMaxPack) && fCurRetries == fMaxRetries
      ensures fSize > 0 && !fStatus.Busy? ==> PutOff()
      ensures fSize <= 0 && fStatus.Busy? ==> Less(Work(), old(Work()))
      ensures fSize <= 0 && Quiet(old(control.asked)) ==> reported == old(reported) + [Success]
      ensures fSize > 0 ==> fAddressLo == (old(fAddressLo) + size) % WORD
      ensures fSize <= 0 ==> fAddressLo == old(fAddressLo)
    {
      hide KeepsOthers, Owns, Covered;
      if fSize > 0 {
        fAddressLo := (fAddressLo + size) % WORD;
        NextPacket();
      } else {
        var _ := Complete(Success);
      }
    }

    lemma AddressInRange()
      requires Transfer() && fSize > 0
      ensures fAddressLo < WORD && (fAddressLo + 0) % WORD == fAddressLo
    {
    }

    lemma OnlyCovered()
      requires Transfer()
      ensures Covered() && (fSize > 0 || fBytesTransferred == 0 ==> fAddressLo == (base + fBytesTransferred) % WORD)
    {
    }

    // An error response: blocks that fall back are tried again in quadlets,
    // anything else ends the command.
    method Refused(rcode: nat, fallsBack: bool) returns (again: bool)
      requires Limits() && Books() && fStatus.Busy? && Owns(fTrans) && rcode != RESPONSE_COMPLETE
      modifies this`fStatus, this`fCompletionStatus, this`fTrans, this`fQueue, this`fCurRetries, this`fNodeID
      modifies this`fMaxPack, this`fPackSize, this`reported, this`request
      modifies control`asked, control`fLastTrans, control.labels
      ensures again <==> fallsBack && old(fMaxPack) > 4
      ensures again ==>
                && fMaxPack == 4 && Limits() && Books()
                && unchanged(this`fStatus, this`fTrans, this`fQueue, this`fCurRetries, this`reported)
                && unchanged(control) && unchanged(control.labels)
      ensures !again ==>
                && Ended()
                && (Active() ==> AtMost(Work(), old(Work())) && (fStatus.Busy? ==> Less(Work(), old(Work()))))
                && (Quiet(old(control.asked)) && rcode != RESPONSE_BUS_RESET ==>
                      reported == old(reported) + [Response(rcode)])
                && (Quiet(old(control.asked)) && rcode == RESPONSE_BUS_RESET ==> ResetAnswered())
    {
      hide KeepsOthers, Owns;
      if fallsBack && fMaxPack > 4 {
        fMaxPack := 4;
        return true;
      }
      var _ := Complete(ResponseStatus(rcode));
      again := false;
    }

    method GotError(rcode: nat, fallsBack: bool)
      requires Valid() && fStatus.Busy? && rcode != RESPONSE_COMPLETE
      modifies this`fStatus, this`fCompletionStatus, this`fTrans, this`fQueue, this`fCurRetries, this`fNodeID
      modifies this`fMaxPack, this`fPackSize, this`reported, this`request, this`fAddressLo
      modifies control`asked, control`fLastTrans, control.labels
      ensures Valid() && ReportsOnce() && KeepsOthers(old(control.labels[..]), control.labels[..])
      ensures Advances(rcode, 0, fallsBack)
      ensures fStatus.Busy? ==> Less(Work(), old(Work()))
    {
      hide KeepsOthers, Owns, Transfer, Covered, Books, Limits;
      OnlyCovered();
      if fSize > 0 {
        AddressInRange();
      }
      var again := Refused(rcode, fallsBack);
      if again {
        assert control.labels[..] == old(control.labels[..]);
        Continue(0);
      }
    }

    // A response to a block read, of any length: the source takes it as it comes.
    method GotReadPacket(rcode: nat, data: seq<bv8>)
      requires Valid() && fStatus.Busy? && kind == Read
      modifies this`fStatus, this`fCompletionStatus, this`fTrans, this`fQueue, this`fCurRetries, this`fNodeID
      modifies this`fMaxPack, this`fPackSize, this`reported, this`request
      modifies this`fSize, this`fBytesTransferred, this`fQuads, this`fAddressLo, this`moved, this`acked, fMemDesc
      modifies control`asked, control`fLastTrans, control.labels
      ensures Valid() && ReportsOnce() && KeepsOthers(old(control.labels[..]), control.labels[..])
      ensures Advances(rcode, |data|, rcode == RESPONSE_TYPE_ERROR)
      ensures rcode == RESPONSE_COMPLETE ==>
                && Progresses(|data|) && moved == old(moved) + data
                && fMemDesc[..] == Overlay(old(fMemDesc[..]), old(fBytesTransferred), data)
      ensures rcode != RESPONSE_COMPLETE ==>
                (fStatus.Busy? ==> Less(Work(), old(Work()))) && unchanged(fMemDesc) && moved == old(moved)
    {
      hide KeepsOthers, Owns, Transfer, Covered, Books, Limits, Overlay, Tiled;
      OnlyCovered();
      if rcode != RESPONSE_COMPLETE {
        GotError(rcode, rcode == RESPONSE_TYPE_ERROR);
      } else {
        Receive(data);
        Continue(|data|);
      }
    }

    // A response to a read of quadlets. As long as no more came than was left,
    // nothing has been stored past the destination.
    method GotQuadPacket(rcode: nat, data: seq<bv8>)
      requires Valid() && fStatus.Busy? && kind == ReadQuad
      modifies this`fStatus, this`fCompletionStatus, this`fTrans, this`fQueue, this`fCurRetries, this`fNodeID
      modifies this`fMaxPack, this`fPackSize, this`reported, this`request
      modifies this`fSize, this`fBytesTransferred, this`fQuads, this`fAddressLo, this`moved, this`acked, fMemDesc
      modifies control`asked, control`fLastTrans, control.labels
      ensures Valid() && ReportsOnce() && KeepsOthers(old(control.labels[..]), control.labels[..])
      ensures Advances(rcode, |data|, rcode == RESPONSE_TYPE_ERROR || rcode == RESPONSE_ADDRESS_ERROR)
      ensures rcode == RESPONSE_COMPLETE ==>
                && Progresses(|data|) && moved == old(moved) + WholeQuads(data)
                && fMemDesc[..] == Overlay(old(fMemDesc[..]), 4 * old(fQuads), WholeQuads(data))
                && fQuads == old(fQuads) + |data| / 4
      ensures fSize >= 0 ==> 4 * fQuads <= fMemDesc.Length
      ensures rcode == RESPONSE_COMPLETE && old(4 * fQuads == fBytesTransferred) && |data| % 4 == 0 ==>
                4 * fQuads == fBytesTransferred && (fSize < 0 <==> 4 * fQuads > fMemDesc.Length)
      ensures rcode != RESPONSE_COMPLETE ==>
                (fStatus.Busy? ==> Less(Work(), old(Work()))) && unchanged(fMemDesc) && moved == old(moved)
    {
      hide KeepsOthers, Owns, Transfer, Covered, Books, Limits, Overlay, Tiled;
      OnlyCovered();
      if rcode != RESPONSE_COMPLETE {
        GotError(rcode, rcode == RESPONSE_TYPE_ERROR || rcode == RESPONSE_ADDRESS_ERROR);
      } else {
        ReceiveQuads(data);
        Continue(|data|);
      }
      QuadsInside();
    }

    lemma QuadsInside()
      requires Valid() && kind == ReadQuad
      ensures 4 * fQuads <= fBytesTransferred && fBytesTransferred + fSize == fMemDesc.Length
    {
    }

    // A response to a block write; the device has the bytes of the request.
    method GotWritePacket(rcode: nat)
      requires Valid() && fStatus.Busy? && kind == Write
      modifies this`fStatus, this`fCompletionStatus, this`fTrans, this`fQueue, this`fCurRetries, this`fNodeID
      modifies this`fMaxPack, this`fPackSize, this`reported, this`request
      modifies this`fSize, this`fBytesTransferred, this`fAddressLo, this`moved, this`acked
      modifies control`asked, control`fLastTrans, control.labels
      ensures Valid() && ReportsOnce() && KeepsOthers(old(control.labels[..]), control.labels[..])
      ensures Advances(rcode, old(fPackSize), false)
      ensures fStatus.Busy? ==> Less(Work(), old(Work()))
      ensures old(Tiled()) ==> Tiled()
    {
      hide KeepsOthers, Owns, Transfer, Covered, Books, Limits, Tiled, PutOff;
      PackIsInside();
      OnlyCovered();
      var size := fPackSize;
      if rcode != RESPONSE_COMPLETE {
        var _ := Complete(ResponseStatus(rcode));
      } else {
        Deliver();
        Continue(size);
      }
    }

    lemma PackIsInside()
      requires Valid() && fStatus.Busy?
      ensures kind == Write ==> fSize >= 0
      ensures fSize >= 0 ==> 0 <= fPackSize <= fSize && (fSize > 0 ==> fPackSize > 0)
      ensures fBytesTransferred + fSize == fMemDesc.Length && (kind != ReadQuad ==> |moved| == fBytesTransferred)
      ensures fPackSize <= fMaxPack
    {
    }

    // The acknowledgement of a request. Busy and missing ones are left to the
    // timeout; any other counts as a response without data.
    method GotAck(ackCode: int)
      requires Valid() && fStatus.Busy?
      modifies this`fStatus, this`fCompletionStatus, this`fTrans, this`fQueue, this`fCurRetries, this`fNodeID
      modifies this`fMaxPack, this`fPackSize, this`reported, this`request, this`fAckCode
      modifies this`fSize, this`fBytesTransferred, this`fQuads, this`fAddressLo, this`moved, this`acked, fMemDesc
      modifies control`asked, control`fLastTrans, control.labels
      ensures Valid() && ReportsOnce() && KeepsOthers(old(control.labels[..]), control.labels[..])
      ensures fAckCode == ackCode
      ensures ackCode in {-1, 2, 4, 5, 6} ==> fStatus == Busy && Work() == old(Work()) && fTrans == old(fTrans)
                                              && acked == old(acked)
      ensures ackCode !in {-1, 2, 4, 5, 6} ==>
                Advances(if ackCode == 1 then RESPONSE_COMPLETE else RESPONSE_TYPE_ERROR,
                         if kind == Write then old(fPackSize) else 0, kind != Write)
      // a read acknowledged as complete is asked for again, for ever if need be
      ensures ackCode == 1 && kind != Write ==> Progresses(0) && moved == old(moved)
    {
      hide KeepsOthers, Owns, Transfer;
      KeepsOthersReflexive(control.labels[..]);
      fAckCode := ackCode;
      var rcode := RESPONSE_TYPE_ERROR;
      if ackCode == 2 {
        return;
      } else if ackCode == 1 {
        rcode := RESPONSE_COMPLETE;
      } else if ackCode in {4, 5, 6} {
        return;
      } else if ackCode == -1 {
        return;
      }
      match kind
      case Read => GotReadPacket(rcode, []);
      case ReadQuad => GotQuadPacket(rcode, []);
      case Write => GotWritePacket(rcode);
    }

    // Prepares a command that is not active for another transfer; devicePack is
    // the packet limit of its device.
    method Reinit(address: nat, memory: array<bv8>, devicePack: nat, failOnReset: bool) returns (result: Status)
      requires Valid() && address < WORD && devicePack >= 4 && (!failOnReset ==> hasDevice)
      requires kind == ReadQuad ==> memory.Length % 4 == 0
      requires (memory as object) != control.labels
      modifies this
      ensures Valid() && submits == old(submits) && reported == old(reported)
      ensures old(Active()) ==> unchanged(this) && result == fStatus
      ensures !old(Active()) ==>
                && result == fStatus == Success && Fresh(address, memory) && fFailOnReset == failOnReset
                && fMaxPack == if hasDevice then devicePack else old(fMaxPack)
    {
      if Active() {
        return fStatus;
      }
      Restart(address, memory);
      if hasDevice {
        fMaxPack := devicePack;
      }
      fFailOnReset := failOnReset;
      result := fStatus;
    }

    // The same for a command without a device, to a node of one generation.
    method ReinitNode(nodeID: nat, address: nat, memory: array<bv8>, nodePack: nat) returns (result: Status)
      requires Valid() && address < WORD && nodePack >= 4
      requires kind == ReadQuad ==> memory.Length % 4 == 0
      requires (memory as object) != control.labels
      modifies this
      ensures Valid() && submits == old(submits) && reported == old(reported)
      ensures old(Active()) ==> unchanged(this) && result == fStatus
      ensures !old(Active()) && hasDevice ==> unchanged(this) && result == BadArgument
      ensures !old(Active()) && !hasDevice ==>
                && result == fStatus == Success && Fresh(address, memory) && fFailOnReset == old(fFailOnReset)
                && fMaxPack == nodePack && fNodeID == nodeID
    {
      if Active() {
        return fStatus;
      }
      if hasDevice {
        return BadArgument;
      }
      Restart(address, memory);
      fNodeID := nodeID;
      fMaxPack := nodePack;
      result := fStatus;
    }

    // What both overloads do.
    method Restart(address: nat, memory: array<bv8>)
      requires Valid() && !Active() && address < WORD
      requires kind == ReadQuad ==> memory.Length % 4 == 0
      requires (memory as object) != control.labels
      modifies this`fMemDesc, this`fSize, this`fBytesTransferred, this`fQuads, this`fTrans, this`fCurRetries
      modifies this`fAddressLo, this`base, this`moved, this`acked, this`fStatus, this`fAckCode
      ensures Valid() && Fresh(address, memory) && fStatus == Success
    {
      hide Owns, Valid, Controller.Valid;
      IdleFacts();
      SetTransfer(address, memory);
      fStatus := Success;
      IdleIsValid();
    }

    // Nothing of the transfer has been done.
    ghost predicate Fresh(address: nat, memory: array<bv8>)
      reads this
    {
      && fMemDesc == memory && fSize == memory.Length && fBytesTransferred == 0 && fQuads == 0
      && fAddressLo == base == address && moved == [] && acked == [] && fCurRetries == fMaxRetries
      && fAckCode == 0
    }

    method SetTransfer(address: nat, memory: array<bv8>)
      modifies this`fMemDesc, this`fSize, this`fBytesTransferred, this`fQuads, this`fTrans, this`fCurRetries
      modifies this`fAddressLo, this`fAckCode, this`base, this`moved, this`acked
      ensures Fresh(address, memory) && fTrans.NoTrans?
    {
      fMemDesc := memory;
      fSize := memory.Length;
      fBytesTransferred, fQuads := 0, 0;
      fTrans := NoTrans;
      fCurRetries := fMaxRetries;
      fAddressLo := address;
      fAckCode := 0;
      base, moved, acked := address, [], [];
    }

    ghost predicate Idle()
      reads this, control, control.labels
    {
      && control.Valid() && Owns(NoTrans) && fQueue.NoQueue? && fMaxRetries < WORD && submits == |reported|
      && !Active() && fMaxPack >= 4 && (!fFailOnReset ==> hasDevice)
    }

    lemma IdleFacts()
      requires Valid() && !Active()
      ensures Idle()
    {
    }

    lemma IdleIsValid()
      requires Idle() && fTrans.NoTrans? && (fMemDesc as object) != control.labels
      requires Fresh(fAddressLo, fMemDesc) && fAddressLo < WORD && (kind == ReadQuad ==> fSize % 4 == 0)
      ensures Valid()
    {
    }

    // When no byte is left, and no read of quadlets has dropped any, the two
    // copies are equal, and every byte was moved by exactly one packet.
    lemma TransferIsComplete(b: nat)
      requires Valid() && fSize == 0 && |moved| == fBytesTransferred && b < |moved|
      ensures fMemDesc[..] == moved && fBytesTransferred == fMemDesc.Length
      ensures exists i :: 0 <= i < |acked| && acked[i].offset <= b < acked[i].offset + acked[i].length
      ensures forall i, j :: 0 <= i < j < |acked| ==> acked[i].offset + acked[i].length <= acked[j].offset
    {
      TilesCover(acked, base, |moved|, b);
    }
  }

  // Working on one command leaves every other command the one label it has.
  lemma OthersKeepTheirLabels(c: AsyncCommand, d: AsyncCommand, was: seq<AsyncCommand?>, now: seq<AsyncCommand?>,
                              trans: Trans)
    requires c != d && c.KeepsOthers(was, now)
    requires forall t :: 0 <= t < |was| ==> (was[t] == d <==> trans == Trans(t))
    ensures forall t :: 0 <= t < |now| ==> (now[t] == d <==> trans == Trans(t))
  {
    forall t | 0 <= t < |now|
      ensures now[t] == d <==> was[t] == d
    {
      assert was[t] == now[t] || ((was[t] == null || was[t] == c) && (now[t] == null || now[t] == c));
    }
  }

  // A link that sends every packet and completes nothing on its own.
  ghost predicate Obliging(control: Controller)
    reads control
  {
    forall i :: control.world(i).send == Success && control.world(i).reentrant == []
  }

  // A read whose device answers every request with the bytes at the address
  // ends with success, reported once, and with the device's bytes in the buffer.
  method ReadEverything(cmd: AsyncCommand, device: seq<bv8>)
    requires cmd.Valid() && cmd.fStatus.Busy? && cmd.kind == Read && Obliging(cmd.control)
    requires |device| == cmd.fMemDesc.Length && cmd.moved <= device && cmd.fSize >= 0
    modifies cmd, cmd.fMemDesc, cmd.control, cmd.control.labels
    ensures cmd.Valid() && !cmd.Active() && cmd.reported == old(cmd.reported) + [Success]
    ensures cmd.fMemDesc == old(cmd.fMemDesc) && cmd.fMemDesc[..] == device && Tiles(cmd.acked, cmd.base, |device|)
  {
    hide AsyncCommand.Valid, AsyncCommand.Tiled, AsyncCommand.PutOff, AsyncCommand.Progresses, Overlay;
    var memory := cmd.fMemDesc;
    while cmd.fStatus.Busy?
      invariant cmd.Valid() && Obliging(cmd.control) && cmd.fMemDesc == memory
      invariant cmd.moved <= device && 0 <= cmd.fSize
      invariant if cmd.fStatus.Busy? then cmd.reported == old(cmd.reported)
                else !cmd.Active() && cmd.fSize == 0 && cmd.reported == old(cmd.reported) + [Success]
      decreases cmd.fSize, cmd.fStatus.Busy?
    {
      cmd.PackIsInside();
      cmd.GotReadPacket(RESPONSE_COMPLETE, device[cmd.fBytesTransferred..cmd.fBytesTransferred + cmd.fPackSize]);
    }
    Whole(cmd);
  }

  // A device that refuses every request for more than a quadlet is asked again
  // in quadlets, and the read ends all the same.
  method ReadFromQuadletDevice(cmd: AsyncCommand, device: seq<bv8>)
    requires cmd.Valid() && cmd.fStatus.Busy? && cmd.kind == Read && Obliging(cmd.control)
    requires |device| == cmd.fMemDesc.Length && cmd.moved <= device && cmd.fSize >= 0
    modifies cmd, cmd.fMemDesc, cmd.control, cmd.control.labels
    ensures cmd.Valid() && !cmd.Active() && cmd.reported == old(cmd.reported) + [Success]
    ensures cmd.fMemDesc == old(cmd.fMemDesc) && cmd.fMemDesc[..] == device && Tiles(cmd.acked, cmd.base, |device|)
    ensures forall i :: |old(cmd.acked)| <= i < |cmd.acked| ==> cmd.acked[i].length <= 4
  {
    hide AsyncCommand.Valid, AsyncCommand.Tiled, AsyncCommand.PutOff, AsyncCommand.Progresses, Overlay;
    hide AsyncCommand.ResetAnswered;
    var memory := cmd.fMemDesc;
    while cmd.fStatus.Busy?
      invariant cmd.Valid() && Obliging(cmd.control) && cmd.fMemDesc == memory
      invariant cmd.moved <= device && 0 <= cmd.fSize && |old(cmd.acked)| <= |cmd.acked|
      invariant forall i :: |old(cmd.acked)| <= i < |cmd.acked| ==> cmd.acked[i].length <= 4
      invariant if cmd.fStatus.Busy? then cmd.reported == old(cmd.reported)
                else !cmd.Active() && cmd.fSize == 0 && cmd.reported == old(cmd.reported) + [Success]
      decreases cmd.fSize, cmd.fStatus.Busy?, cmd.fMaxPack > 4
    {
      cmd.PackIsInside();
      if cmd.fPackSize > 4 {
        cmd.GotReadPacket(RESPONSE_TYPE_ERROR, []);
      } else {
        cmd.GotReadPacket(RESPONSE_COMPLETE, device[cmd.fBytesTransferred..cmd.fBytesTransferred + cmd.fPackSize]);
      }
    }
    Whole(cmd);
  }

  // A device that answers with no data keeps the command busy for as long as it
  // likes, and nobody is told.
  method EmptyResponses(cmd: AsyncCommand, n: nat)
    requires cmd.Valid() && cmd.fStatus.Busy? && cmd.kind == Read && Obliging(cmd.control) && cmd.fSize > 0
    modifies cmd, cmd.fMemDesc, cmd.control, cmd.control.labels
    ensures cmd.Valid() && cmd.fStatus.Busy? && cmd.reported == old(cmd.reported)
    ensures cmd.fSize == old(cmd.fSize) && cmd.fBytesTransferred == old(cmd.fBytesTransferred)
    ensures cmd.fMemDesc == old(cmd.fMemDesc) && cmd.fMemDesc[..] == old(cmd.fMemDesc[..])
  {
    var memory := cmd.fMemDesc;
    for k := 0 to n
      invariant cmd.Valid() && cmd.fStatus.Busy? && cmd.reported == old(cmd.reported) && Obliging(cmd.control)
      invariant cmd.fSize == old(cmd.fSize) && cmd.fBytesTransferred == old(cmd.fBytesTransferred)
      invariant cmd.fMemDesc == memory && cmd.fMemDesc[..] == old(cmd.fMemDesc[..])
    {
      hide AsyncCommand.KeepsOthers, AsyncCommand.Owns;
      cmd.GotReadPacket(RESPONSE_COMPLETE, []);
    }
  }

  // A device that answers every request with some data, of whatever length,
  // brings the read to its end; the last answer may be too long.
  method ReadAnything(cmd: AsyncCommand, answers: nat -> seq<bv8>) returns (k: nat)
    requires cmd.Valid() && cmd.fStatus.Busy? && cmd.kind == Read && Obliging(cmd.control)
    requires cmd.fSize > 0 && forall i :: answers(i) != []
    modifies cmd, cmd.fMemDesc, cmd.control, cmd.control.labels
    ensures cmd.Valid() && !cmd.Active() && cmd.reported == old(cmd.reported) + [Success]
    ensures cmd.fSize <= 0 && 0 < k <= old(cmd.fSize) && cmd.moved == old(cmd.moved) + Joined(answers, k)
    ensures |Joined(answers, k - 1)| < old(cmd.fSize)
    ensures cmd.fSize == old(cmd.fSize) - |Joined(answers, k)|
  {
    hide AsyncCommand.Valid, AsyncCommand.Tiled, AsyncCommand.PutOff, Overlay, AsyncCommand.Work, Less;
    var memory := cmd.fMemDesc;
    k := 0;
    while cmd.fStatus.Busy?
      invariant cmd.Valid() && Obliging(cmd.control) && cmd.fMemDesc == memory
      invariant cmd.moved == old(cmd.moved) + Joined(answers, k)
      invariant cmd.fSize == old(cmd.fSize) - |Joined(answers, k)|
      invariant if cmd.fStatus.Busy? then 0 < cmd.fSize <= old(cmd.fSize) - k && cmd.reported == old(cmd.reported)
                else && !cmd.Active() && cmd.fSize <= 0 && cmd.reported == old(cmd.reported) + [Success]
                     && 0 < k <= old(cmd.fSize) && |Joined(answers, k - 1)| < old(cmd.fSize)
      decreases cmd.fSize, cmd.fStatus.Busy?
    {
      cmd.GotReadPacket(RESPONSE_COMPLETE, answers(k));
      k := k + 1;
    }
  }

  // The first k answers.
  ghost function Joined(answers: nat -> seq<bv8>, k: nat): seq<bv8> {
    if k == 0 then [] else Joined(answers, k - 1) + answers(k - 1)
  }

  // A write to a device that acknowledges every request.
  method WriteEverything(cmd: AsyncCommand)
    requires cmd.Valid() && cmd.fStatus.Busy? && cmd.kind == Write && Obliging(cmd.control)
    modifies cmd, cmd.control, cmd.control.labels
    ensures cmd.Valid() && !cmd.Active() && cmd.reported == old(cmd.reported) + [Success]
    ensures cmd.fMemDesc == old(cmd.fMemDesc) && cmd.moved == cmd.fMemDesc[..] == old(cmd.fMemDesc[..])
    ensures Tiles(cmd.acked, cmd.base, |cmd.moved|)
  {
    var memory := cmd.fMemDesc;
    while cmd.fStatus.Busy?
      invariant cmd.Valid() && Obliging(cmd.control) && cmd.fMemDesc == memory
      invariant if cmd.fStatus.Busy? then cmd.reported == old(cmd.reported)
                else !cmd.Active() && cmd.fSize == 0 && cmd.reported == old(cmd.reported) + [Success]
      decreases cmd.fSize, cmd.fStatus.Busy?
    {
      hide AsyncCommand.KeepsOthers, AsyncCommand.Owns;
      cmd.PackIsInside();
      cmd.GotWritePacket(RESPONSE_COMPLETE);
    }
    Whole(cmd);
  }

  lemma Whole(cmd: AsyncCommand)
    requires cmd.Valid() && cmd.fSize == 0 && cmd.kind != ReadQuad
    ensures cmd.fMemDesc[..] == cmd.moved && Tiles(cmd.acked, cmd.base, |cmd.moved|)
  {
    assert cmd.fMemDesc[..cmd.fMemDesc.Length] == cmd.fMemDesc[..];
  }
}
