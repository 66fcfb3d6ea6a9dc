/**
 The bounded pool of notification elements that passes received PHY packets to
 a user process, one at a time, and counts those it has to skip.
 Source: IOFWUserPHYPacketListener.cpp, IOFWUserPHYPacketListener.h.
 */
module PhyNotes {

  datatype Packet = Packet(data1: nat, data2: nat)

  // What the user process is told: a packet, or how many were skipped.
  datatype Note = Data(packet: Packet) | Skipped(count: nat)

  // The notes stand for the packets, each exactly once and in order.
  predicate Accounts(notes: seq<Note>, packets: seq<Packet>)
    decreases notes
  {
    if notes == [] then packets == []
    else match notes[0]
      case Data(p) => packets != [] && packets[0] == p && Accounts(notes[1..], packets[1..])
      case Skipped(c) => 1 <= c <= |packets| && Accounts(notes[1..], packets[c..])
  }

  // How many packets a note stands for.
  function Weight(note: Note): nat {
    match note
    case Data(_) => 1
    case Skipped(c) => c
  }

  lemma {:induction false} AccountsData(notes: seq<Note>, packets: seq<Packet>, p: Packet)
    requires Accounts(notes, packets)
    ensures Accounts(notes + [Data(p)], packets + [p])
    decreases notes
  {
    if notes == [] {
      assert ([] + [Data(p)])[1..] == [];
      assert (packets + [p])[1..] == [];
    } else {
      var w := Weight(notes[0]);
      AccountsData(notes[1..], packets[w..], p);
      assert (notes + [Data(p)])[1..] == notes[1..] + [Data(p)];
      assert (packets + [p])[w..] == packets[w..] + [p];
    }
  }

  lemma {:induction false} AccountsSkip(notes: seq<Note>, packets: seq<Packet>, p: Packet)
    requires Accounts(notes, packets)
    ensures Accounts(notes + [Skipped(1)], packets + [p])
    decreases notes
  {
    if notes == [] {
      assert ([] + [Skipped(1)])[1..] == [];
      assert (packets + [p])[1..] == [];
    } else {
      var w := Weight(notes[0]);
      AccountsSkip(notes[1..], packets[w..], p);
      assert (notes + [Skipped(1)])[1..] == notes[1..] + [Skipped(1)];
      assert (packets + [p])[w..] == packets[w..] + [p];
    }
  }

  // One more skipped packet is counted in the last note.
  lemma {:induction false} AccountsBump(notes: seq<Note>, c: nat, packets: seq<Packet>, p: Packet)
    requires Accounts(notes + [Skipped(c)], packets)
    ensures Accounts(notes + [Skipped(c + 1)], packets + [p])
    ensures c <= |packets|
    decreases notes
  {
    if notes == [] {
      assert ([] + [Skipped(c)])[1..] == [];
      assert ([] + [Skipped(c + 1)])[1..] == [];
      assert packets[c..] == [];
      assert (packets + [p])[c + 1..] == [];
    } else {
      var w := Weight(notes[0]);
      assert (notes + [Skipped(c)])[1..] == notes[1..] + [Skipped(c)];
      AccountsBump(notes[1..], c, packets[w..], p);
      assert (notes + [Skipped(c + 1)])[1..] == notes[1..] + [Skipped(c + 1)];
      assert (packets + [p])[w..] == packets[w..] + [p];
    }
  }

  // No packet is lost or told twice: the notes weigh what was received.
  lemma {:induction false} AccountsWeigh(notes: seq<Note>, packets: seq<Packet>)
    requires Accounts(notes, packets)
    ensures TotalWeight(notes) == |packets|
    decreases notes
  {
    if notes != [] {
      AccountsWeigh(notes[1..], packets[Weight(notes[0])..]);
    }
  }

  function TotalWeight(notes: seq<Note>): nat {
    if notes == [] then 0 else Weight(notes[0]) + TotalWeight(notes[1..])
  }
}

module PhyListener {
  import opened PhyNotes

  datatype ElementState = FreeState | PendingState
  datatype ElementType = TypeNone | TypeData | TypeSkipped

  class PHYRxElement {
    var next: PHYRxElement?
    var prev: PHYRxElement?
    var state: ElementState
    var kind: ElementType
    var data1: nat
    var data2: nat

    constructor ()
      ensures next == null && prev == null && state == FreeState
    {
      next, prev, state, kind, data1, data2 := null, null, FreeState, TypeNone, 0, 0;
    }

    ghost function Note(): Note
      reads this`kind, this`data1, this`data2
    {
      if kind == TypeData then Data(Packet(data1, data2)) else Skipped(data1)
    }
  }

  function At(s: seq<PHYRxElement>, i: int): PHYRxElement? {
    if 0 <= i < |s| then s[i] else null
  }

  ghost predicate Linked(s: seq<PHYRxElement>, i: int)
    requires 0 <= i < |s|
    reads s`next, s`prev
  {
    s[i].next == At(s, i + 1) && s[i].prev == At(s, i - 1)
  }

  predicate Distinct(s: seq<PHYRxElement>) {
    forall i, j :: 0 <= i < j < |s| ==> s[i] != s[j]
  }

  // The doubly linked list from head to tail is s.
  ghost predicate List(s: seq<PHYRxElement>, head: PHYRxElement?, tail: PHYRxElement?)
    reads s`next, s`prev
  {
    && head == At(s, 0) && tail == At(s, |s| - 1)
    && Distinct(s)
    && forall i {:trigger Linked(s, i)} :: 0 <= i < |s| ==> Linked(s, i)
  }

  // How element i is linked after the removal of element k.
  ghost predicate LinkedAround(s: seq<PHYRxElement>, k: int, i: int)
    requires 0 <= i < |s| && 0 <= k < |s|
    reads s
  {
    && s[i].next == (if i == k - 1 then At(s, k + 1) else At(s, i + 1))
    && s[i].prev == (if i == k - 1 == |s| - 2 then null else if i == k + 1 then At(s, k - 1) else At(s, i - 1))
  }

  lemma Relinked(s: seq<PHYRxElement>, k: nat)
    requires k < |s| && Distinct(s)
    requires forall i {:trigger LinkedAround(s, k, i)} :: 0 <= i < |s| && i != k ==> LinkedAround(s, k, i)
    ensures var rest := s[..k] + s[k + 1..];
            List(rest, if k == 0 then At(s, 1) else s[0], if k == |s| - 1 then At(s, k - 1) else s[|s| - 1])
            <==> !(k == |s| - 1 && k >= 2)
  {
    var rest := s[..k] + s[k + 1..];
    if k == |s| - 1 && k >= 2 {
      assert LinkedAround(s, k, k - 1);
      assert !Linked(rest, k - 1);
    } else {
      forall i | 0 <= i < |rest|
        ensures Linked(rest, i)
      {
        assert LinkedAround(s, k, if i < k then i else i + 1);
      }
    }
  }

  lemma ListFacts(s: seq<PHYRxElement>, head: PHYRxElement?, tail: PHYRxElement?)
    requires List(s, head, tail)
    ensures Distinct(s) && head == At(s, 0) && tail == At(s, |s| - 1)
  {
  }

  // The notes the elements will be told as.
  ghost predicate ReadAs(s: seq<PHYRxElement>, notes: seq<Note>)
    reads s`kind, s`data1, s`data2
  {
    |s| == |notes| && forall i :: 0 <= i < |s| ==> s[i].Note() == notes[i]
  }

  lemma ReadAsMore(s: seq<PHYRxElement>, notes: seq<Note>, e: PHYRxElement)
    requires ReadAs(s, notes)
    ensures ReadAs(s + [e], notes + [e.Note()])
  {
  }

  lemma ReadAsLength(s: seq<PHYRxElement>, notes: seq<Note>)
    requires ReadAs(s, notes)
    ensures |s| == |notes|
  {
  }

  const WORD: nat := 0x1_0000_0000

  class Listener {
    const fMaxQueueCount: nat
    var fAllocatedQueueCount: nat
    var fElementWaitingCompletion: PHYRxElement?
    var fFreeListHead: PHYRxElement?
    var fFreeListTail: PHYRxElement?
    var fPendingListHead: PHYRxElement?
    var fPendingListTail: PHYRxElement?
    ghost var free: seq<PHYRxElement>
    ghost var pending: seq<PHYRxElement>
    // Notes sent to the user process, notes still pending, packets received.
    ghost var sent: seq<Note>
    ghost var queued: seq<Note>
    ghost var received: seq<Packet>

    ghost function Busy(): nat
      reads this`fElementWaitingCompletion
    {
      if fElementWaitingCompletion == null then 0 else 1
    }

    // Free, pending and in flight elements, with held more in hand, are all
    // elements, each in one place.
    ghost predicate Shape(held: nat)
      reads this`fAllocatedQueueCount, this`fElementWaitingCompletion, this`free, this`pending
      reads this`fFreeListHead, this`fFreeListTail, this`fPendingListHead, this`fPendingListTail
      reads free`next, free`prev, free`state, pending`next, pending`prev, pending`state, pending`kind
    {
      && List(free, fFreeListHead, fFreeListTail)
      && List(pending, fPendingListHead, fPendingListTail)
      && (forall i, j :: 0 <= i < |free| && 0 <= j < |pending| ==> free[i] != pending[j])
      && fElementWaitingCompletion !in free && fElementWaitingCompletion !in pending
      && (forall i :: 0 <= i < |free| ==> free[i].state == FreeState)
      && (forall i :: 0 <= i < |pending| ==> pending[i].state == PendingState && pending[i].kind != TypeNone)
      && fAllocatedQueueCount == |free| + |pending| + Busy() + held
      && fAllocatedQueueCount <= fMaxQueueCount && fMaxQueueCount >= 2
    }

    ghost predicate TailSkips()
      reads this`pending, pending`kind
    {
      pending != [] && pending[|pending| - 1].kind == TypeSkipped
    }

    // A skipped packet can always be counted.
    ghost predicate CanCount()
      reads this`free, this`fAllocatedQueueCount, this`pending, pending`kind
    {
      free != [] || fAllocatedQueueCount < fMaxQueueCount || TailSkips()
    }

    // With three elements or more, something is in flight whenever something is
    // pending; with two, nothing ever is.
    ghost predicate Flows()
      reads this`fElementWaitingCompletion, this`sent, this`pending, this`fAllocatedQueueCount, pending`kind
    {
      if fMaxQueueCount == 2 then
        fElementWaitingCompletion == null && sent == [] && fAllocatedQueueCount <= 1 && (pending == [] || TailSkips())
      else pending != [] ==> fElementWaitingCompletion != null
    }

    ghost predicate Valid()
      reads this, free, pending
    {
      Shape(0) && CanCount() && ReadAs(pending, queued)
    }

    // The notes sent and pending account for every packet received, in order,
    // and pending ones will be sent.
    ghost predicate InOrder()
      reads this, pending
    {
      Flows() && Accounts(sent + queued, received)
    }

    constructor (queueCount: nat)
      ensures Valid() && InOrder() && fMaxQueueCount == (if queueCount < 2 then 2 else queueCount)
      ensures free == [] && pending == [] && sent == [] && queued == [] && received == []
      ensures fElementWaitingCompletion == null
    {
      fMaxQueueCount := if queueCount < 2 then 2 else queueCount;
      fAllocatedQueueCount, fElementWaitingCompletion := 0, null;
      fFreeListHead, fFreeListTail, fPendingListHead, fPendingListTail := null, null, null, null;
      free, pending, sent, queued, received := [], [], [], [], [];
    }

    // A new element, linked in as the whole free list.
    method CreateElement()
      requires Shape(0) && free == [] && fAllocatedQueueCount < fMaxQueueCount
      modifies this`free, this`fFreeListHead, this`fFreeListTail, this`fAllocatedQueueCount
      ensures Shape(0) && |free| == 1 && fresh(free[0]) && fAllocatedQueueCount == old(fAllocatedQueueCount) + 1
    {
      var element := new PHYRxElement();
      fFreeListHead := element;
      fFreeListTail := element;
      fAllocatedQueueCount := fAllocatedQueueCount + 1;
      free := [element];
    }

    method UnlinkFreeHead() returns (element: PHYRxElement)
      requires Shape(0) && free != []
      modifies this`free, this`fFreeListHead, this`fFreeListTail, free
      ensures Shape(1) && InHand(element) && element == old(free)[0] && free == old(free)[1..]
    {
      hide List;
      element := TakeFreeHead();
    }

    method TakeFreeHead() returns (element: PHYRxElement)
      requires List(free, fFreeListHead, fFreeListTail) && free != []
      modifies this`free, this`fFreeListHead, this`fFreeListTail, free
      ensures List(free, fFreeListHead, fFreeListTail)
      ensures element == old(free)[0] && free == old(free)[1..] && element !in free
      ensures element.next == null && element.prev == null && element.state == FreeState
      ensures forall e :: e in free ==> e.state == old(e.state)
    {
      element := fFreeListHead;
      assert Linked(free, 0);
      ghost var was := free;
      fFreeListHead := element.next;
      if fFreeListHead != null {
        assert Linked(free, 1);
        fFreeListHead.prev := null;
      } else {
        fFreeListTail := null;
      }
      element.next := null;
      element.prev := null;
      element.state := FreeState;
      free := free[1..];
      forall i | 0 <= i < |free|
        ensures Linked(free, i)
      {
        assert old(Linked(was, i + 1));
      }
    }

    // For a note of skipped packets: the last element may be used.
    method AllocateElement(memory: bool) returns (element: PHYRxElement?)
      requires Shape(0)
      modifies this`free, this`fFreeListHead, this`fFreeListTail, this`fAllocatedQueueCount, free
      ensures element == null <==> old(free) == [] && (old(fAllocatedQueueCount) == fMaxQueueCount || !memory)
      ensures element == null ==> Shape(0) && free == [] && fAllocatedQueueCount == old(fAllocatedQueueCount)
      ensures element != null ==> Shape(1) && InHand(element)
      ensures old(free) != [] ==> element == old(free)[0]
      ensures element != null && old(free) == [] ==> fresh(element)
      ensures element != null ==> fAllocatedQueueCount == old(fAllocatedQueueCount) + if old(free) == [] then 1 else 0
      ensures (forall e :: e in free ==> e in old(free))
    {
      element := fFreeListHead;
      if element == null {
        if fAllocatedQueueCount < fMaxQueueCount && memory {
          CreateElement();
          element := fFreeListHead;
        }
      }
      if element != null {
        element := UnlinkFreeHead();
      }
    }

    ghost predicate InHand(element: PHYRxElement)
      reads this, element
    {
      && element !in free && element !in pending && element != fElementWaitingCompletion
      && element.next == null && element.prev == null && element.state == FreeState
    }

    // For a packet: never the last element.
    method AllocateDataElement(memory: bool) returns (element: PHYRxElement?)
      requires Shape(0)
      modifies this`free, this`fFreeListHead, this`fFreeListTail, this`fAllocatedQueueCount, free
      ensures element == null <==>
              if old(free) == [] then !memory || old(fAllocatedQueueCount) >= fMaxQueueCount - 2
              else |old(free)| == 1 && old(fAllocatedQueueCount) >= fMaxQueueCount - 1
      ensures element == null ==> Shape(0) && (old(free) != [] ==> free == old(free))
      ensures element == null && old(free) == [] ==>
                if memory && old(fAllocatedQueueCount) == fMaxQueueCount - 2 then |free| == 1 && fresh(free[0])
                else free == []
      ensures element != null ==> Shape(1) && InHand(element)
      ensures element != null ==> free != [] || fAllocatedQueueCount < fMaxQueueCount - 1
      ensures element != null ==> if old(free) != [] then element == old(free)[0] else fresh(element)
      ensures fAllocatedQueueCount >= old(fAllocatedQueueCount)
    {
      element := fFreeListHead;
      if element == null {
        if fAllocatedQueueCount < fMaxQueueCount - 1 && memory {
          CreateElement();
          element := fFreeListHead;
        }
      }
      if element != null {
        if element != fFreeListTail || fAllocatedQueueCount < fMaxQueueCount - 1 {
          element := UnlinkFreeHead();
        } else {
          element := null;
        }
      }
    }

    // Back to the end of the free list.
    method DeallocateElement(element: PHYRxElement)
      requires Shape(1) && element !in free && element !in pending && element != fElementWaitingCompletion
      modifies this`free, this`fFreeListHead, this`fFreeListTail
      modifies free`next, free`prev, element`next, element`prev, element`state
      ensures Shape(0) && free == old(free) + [element]
    {
      hide List;
      element.state := FreeState;
      AppendFree(element);
    }

    method AppendFree(element: PHYRxElement)
      requires List(free, fFreeListHead, fFreeListTail) && element !in free
      modifies this`free, this`fFreeListHead, this`fFreeListTail, free`next, free`prev, element`next, element`prev
      ensures List(free, fFreeListHead, fFreeListTail) && free == old(free) + [element]
    {
      ghost var was := free;
      element.next := null;
      element.prev := fFreeListTail;
      if fFreeListTail != null {
        fFreeListTail.next := element;
      } else {
        fFreeListHead := element;
      }
      fFreeListTail := element;
      free := free + [element];
      forall i | 0 <= i < |free|
        ensures Linked(free, i)
      {
        assert i < |was| ==> old(Linked(was, i));
      }
    }

    method AddElementToPendingList(element: PHYRxElement)
      requires Shape(1) && InHand(element) && element.kind != TypeNone
      modifies this`pending, this`fPendingListHead, this`fPendingListTail
      modifies pending`next, pending`prev, element`next, element`prev, element`state
      ensures Shape(0) && pending == old(pending) + [element]
    {
      hide List;
      element.state := PendingState;
      AppendPending(element);
    }

    method AppendPending(element: PHYRxElement)
      requires List(pending, fPendingListHead, fPendingListTail) && element !in pending
      modifies this`pending, this`fPendingListHead, this`fPendingListTail
      modifies pending`next, pending`prev, element`next, element`prev
      ensures List(pending, fPendingListHead, fPendingListTail) && pending == old(pending) + [element]
    {
      ghost var was := pending;
      element.next := null;
      element.prev := fPendingListTail;
      if fPendingListTail != null {
        fPendingListTail.next := element;
      } else {
        fPendingListHead := element;
      }
      fPendingListTail := element;
      pending := pending + [element];
      forall i | 0 <= i < |pending|
        ensures Linked(pending, i)
      {
        assert i < |was| ==> old(Linked(was, i));
      }
    }

    // As written, the removal of the last of three or more elements leaves a
    // broken list, and no other removal does.
    method RemoveElementFromPendingList(element: PHYRxElement, ghost k: nat)
      requires List(pending, fPendingListHead, fPendingListTail) && k < |pending| && element == pending[k]
      modifies this`pending, this`fPendingListHead, this`fPendingListTail, pending`next, pending`prev
      ensures pending == old(pending)[..k] + old(pending)[k + 1..]
      ensures List(pending, fPendingListHead, fPendingListTail) <==> !(k == |old(pending)| - 1 && k >= 2)
      ensures element.next == null && element.prev == null
    {
      ghost var was := pending;
      Unlink(element, k);
      pending := pending[..k] + pending[k + 1..];
      Relinked(was, k);
    }

    // The pointer stores of the removal.
    method Unlink(element: PHYRxElement, ghost k: nat)
      requires List(pending, fPendingListHead, fPendingListTail) && k < |pending| && element == pending[k]
      modifies this`fPendingListHead, this`fPendingListTail, pending`next, pending`prev
      ensures fPendingListHead == (if k == 0 then At(pending, 1) else pending[0])
      ensures fPendingListTail == (if k == |pending| - 1 then At(pending, k - 1) else pending[|pending| - 1])
      ensures forall i {:trigger LinkedAround(pending, k, i)} ::
                0 <= i < |pending| && i != k ==> LinkedAround(pending, k, i)
      ensures element.next == null && element.prev == null
    {
      assert Linked(pending, k);
      assert k > 0 ==> Linked(pending, k - 1);
      assert k + 1 < |pending| ==> Linked(pending, k + 1);
      if fPendingListHead == element {
        fPendingListHead := element.next;
        if fPendingListHead != null {
          fPendingListHead.prev := null;
        }
      } else {
        element.prev.next := element.next;
      }
      if fPendingListTail == element {
        fPendingListTail := element.prev;
        if fPendingListTail != null {
          fPendingListTail.prev := null;
        }
      } else {
        element.next.prev := element.prev;
      }
      element.next := null;
      element.prev := null;
      forall i | 0 <= i < |pending| && i != k
        ensures LinkedAround(pending, k, i)
      {
        assert old(Linked(pending, i));
      }
    }

    // Tells the user process, unless it is still busy.
    method SendPacketNotification(element: PHYRxElement)
      requires Shape(1) && element !in free && element !in pending && element.kind != TypeNone
      requires fElementWaitingCompletion == null
      modifies this`fElementWaitingCompletion, this`sent
      ensures Shape(0) && fElementWaitingCompletion == element && sent == old(sent) + [element.Note()]
    {
      if fElementWaitingCompletion == null {
        if element.kind == TypeData {
          fElementWaitingCompletion := element;
          sent := sent + [Data(Packet(element.data1, element.data2))];
        } else if element.kind == TypeSkipped {
          fElementWaitingCompletion := element;
          sent := sent + [Skipped(element.data1)];
        }
      }
    }

    // A packet arrives. dataMemory and skipMemory: whether a new element could
    // be had from the kernel at the two places that ask for one.
    method ProcessPHYPacket(data1: nat, data2: nat, dataMemory: bool, skipMemory: bool) returns (dropped: bool)
      requires Valid() && InOrder() && |received| < WORD - 1
      modifies this, free, pending
      ensures Valid()
      // Order and progress are lost only if no element can be had for a packet
      // that finds nothing in flight, but one can be had to count it.
      ensures InOrder() <==>
              || old(fElementWaitingCompletion) != null || fMaxQueueCount == 2
              || dataMemory || old(free) != [] || !skipMemory
      // The packet is lost only for want of memory.
      ensures dropped <==> !skipMemory && old(free) == [] && !old(TailSkips()) && !old(CanCreateSpare(dataMemory))
      ensures received == if dropped then old(received) else old(received) + [Packet(data1, data2)]
      // It is sent when nothing is in flight.
      ensures (
        if old(fElementWaitingCompletion) == null && fMaxQueueCount >= 3 && (dataMemory || old(free) != []) then
          sent == old(sent) + [Data(Packet(data1, data2))] && fElementWaitingCompletion != null
        else
          sent == old(sent) && fElementWaitingCompletion == old(fElementWaitingCompletion))
      ensures fElementWaitingCompletion == old(fElementWaitingCompletion) && !dropped ==> pending != []
      // Behind another note it is queued as it is exactly when an element can be
      // had that leaves one for counting; otherwise it is counted.
      ensures (
        if if old(free) == [] then dataMemory && old(fAllocatedQueueCount) < fMaxQueueCount - 2
           else |old(free)| > 1 || old(fAllocatedQueueCount) < fMaxQueueCount - 1
        then
          queued == old(queued) +
                    if old(fElementWaitingCompletion) == null then [] else [Data(Packet(data1, data2))]
        else if dropped then queued == old(queued)
        else if old(queued) != [] && old(queued)[|old(queued)| - 1].Skipped? then
          queued == old(queued)[..|old(queued)| - 1] + [Skipped(old(queued)[|old(queued)| - 1].count + 1)]
        else
          queued == old(queued) + [Skipped(1)])
    {
      hide List, Accounts, ReadAs;
      assert fElementWaitingCompletion == null && fMaxQueueCount >= 3 ==> fAllocatedQueueCount == |free|;
      var element := AllocateDataElement(dataMemory);
      if element != null {
        QueueData(element, data1, data2);
        dropped := false;
      } else {
        dropped := CountSkipped(Packet(data1, data2), skipMemory);
      }
    }

    // The search for a data element can make a new one.
    ghost predicate CanCreateSpare(memory: bool)
      reads this
    {
      memory && fAllocatedQueueCount < fMaxQueueCount - 1
    }

    // The part of processPHYPacket that has a data element.
    method QueueData(element: PHYRxElement, data1: nat, data2: nat)
      requires Shape(1) && InHand(element) && ReadAs(pending, queued) && Accounts(sent + queued, received)
      requires free != [] || fAllocatedQueueCount < fMaxQueueCount - 1
      requires Flows() && fMaxQueueCount >= 3
      modifies this`fElementWaitingCompletion, this`sent, this`queued, this`pending, this`received
      modifies this`fPendingListHead, this`fPendingListTail, pending`next, pending`prev, element
      ensures Valid() && InOrder() && received == old(received) + [Packet(data1, data2)]
      ensures (
        if old(fElementWaitingCompletion) == null then
          && sent == old(sent) + [Data(Packet(data1, data2))]
          && fElementWaitingCompletion == element && pending == old(pending) && queued == old(queued)
        else
          && sent == old(sent) && fElementWaitingCompletion == old(fElementWaitingCompletion)
          && pending == old(pending) + [element] && queued == old(queued) + [Data(Packet(data1, data2))])
    {
      hide List, Accounts, Shape, ReadAs;
      ReadAsLength(pending, queued);
      ghost var p := Packet(data1, data2);
      AccountsData(sent + queued, received, p);
      element.kind := TypeData;
      element.data1 := data1;
      element.data2 := data2;
      if fElementWaitingCompletion == null {
        SendPacketNotification(element);
        assert sent + queued == old(sent + queued) + [Data(p)];
      } else {
        QueueNote(element);
        assert sent + queued == old(sent + queued) + [Data(p)];
      }
      received := received + [p];
    }

    // The element's note waits behind the others.
    method QueueNote(element: PHYRxElement)
      requires Shape(1) && InHand(element) && ReadAs(pending, queued) && element.kind != TypeNone
      modifies this`pending, this`queued, this`fPendingListHead, this`fPendingListTail
      modifies pending`next, pending`prev, element`next, element`prev, element`state
      ensures Shape(0) && ReadAs(pending, queued)
      ensures pending == old(pending) + [element] && queued == old(queued) + [element.Note()]
    {
      hide List, Shape, ReadAs;
      ReadAsMore(pending, queued, element);
      AddElementToPendingList(element);
      queued := queued + [element.Note()];
    }

    // The part of processPHYPacket that has no data element.
    method CountSkipped(ghost p: Packet, memory: bool) returns (dropped: bool)
      requires Valid() && InOrder() && |received| < WORD - 1
      modifies this`free, this`fFreeListHead, this`fFreeListTail, this`fAllocatedQueueCount, this`received
      modifies this`pending, this`queued, this`fPendingListHead, this`fPendingListTail, free, pending
      ensures Valid()
      ensures InOrder() <==> fMaxQueueCount == 2 || fElementWaitingCompletion != null || dropped
      ensures dropped <==> !memory && old(free) == [] && !old(TailSkips())
      ensures received == if dropped then old(received) else old(received) + [p]
      ensures !dropped ==> pending != []
      ensures dropped ==> queued == old(queued)
      ensures !dropped ==> OneMoreSkipped(old(queued), queued)
    {
      hide List, Accounts;
      ListFacts(pending, fPendingListHead, fPendingListTail);
      dropped := false;
      if fPendingListTail != null && fPendingListTail.kind == TypeSkipped {
        BumpTail(p);
      } else {
        var element := AllocateElement(memory);
        if element != null {
          QueueSkipped(element, p);
        } else {
          dropped := true;
        }
      }
    }

    // The last note counts one more packet, or a new note counts it.
    static ghost predicate OneMoreSkipped(was: seq<Note>, now: seq<Note>) {
      if was != [] && was[|was| - 1].Skipped? then
        now == was[..|was| - 1] + [Skipped(was[|was| - 1].count + 1)]
      else
        now == was + [Skipped(1)]
    }

    method QueueSkipped(element: PHYRxElement, ghost p: Packet)
      requires Shape(1) && InHand(element) && ReadAs(pending, queued) && Accounts(sent + queued, received)
      requires fMaxQueueCount >= 2
      requires if fMaxQueueCount == 2 then fElementWaitingCompletion == null && sent == [] && fAllocatedQueueCount == 1
               else Flows()
      modifies this`pending, this`queued, this`received
      modifies this`fPendingListHead, this`fPendingListTail, pending`next, pending`prev, element
      ensures Valid() && received == old(received) + [p] && pending == old(pending) + [element]
      ensures queued == old(queued) + [Skipped(1)]
      ensures InOrder() <==> fMaxQueueCount == 2 || fElementWaitingCompletion != null
    {
      hide List, Accounts, Shape, ReadAs;
      AccountsSkip(sent + queued, received, p);
      element.kind := TypeSkipped;
      element.data1 := 1;
      QueueNote(element);
      assert sent + queued == old(sent + queued) + [Skipped(1)];
      received := received + [p];
    }

    method BumpTail(ghost p: Packet)
      requires Valid() && InOrder() && |received| < WORD - 1 && TailSkips()
      requires forall i :: 0 <= i < |pending| - 1 ==> pending[i] != pending[|pending| - 1]
      requires fPendingListTail == pending[|pending| - 1]
      modifies this`received, this`queued, pending`data1
      ensures Valid() && InOrder() && received == old(received) + [p]
      ensures OneMoreSkipped(old(queued), queued)
    {
      hide List, Accounts, Shape;
      var element := fPendingListTail;
      Bump(sent, queued, received, p);
      var count := element.data1;
      count := (count + 1) % WORD;
      element.data1 := count;
      queued := queued[|queued| - 1 := Skipped(queued[|queued| - 1].count + 1)];
      received := received + [p];
    }

    // The user process has dealt with a note: the next one is sent.
    method ClientCommandIsComplete(commandID: PHYRxElement)
      requires Valid() && InOrder()
      modifies this, free, pending, fElementWaitingCompletion
      ensures Valid() && InOrder() && received == old(received)
      ensures commandID != old(fElementWaitingCompletion) ==>
                && unchanged(this)
      ensures commandID == old(fElementWaitingCompletion) ==>
                && free == old(free) + [commandID]
                && sent == old(sent) + (if old(pending) == [] then [] else [old(queued)[0]])
                && fElementWaitingCompletion == At(old(pending), 0)
                && pending == (if old(pending) == [] then [] else old(pending)[1..])
                && queued == (if old(pending) == [] then [] else old(queued)[1..])
    {
      hide List, Accounts, ReadAs;
      if fElementWaitingCompletion == commandID {
        Release();
        var element := fPendingListHead;
        ListFacts(pending, fPendingListHead, fPendingListTail);
        assert |queued| == |pending| by { ReadAsLength(pending, queued); }
        if element != null {
          assert (sent + [queued[0]]) + queued[1..] == sent + queued;
          SendNext(element);
        }
      }
    }

    method Release()
      requires Shape(0) && fElementWaitingCompletion != null
      modifies this`free, this`fFreeListHead, this`fFreeListTail, this`fElementWaitingCompletion
      modifies free`next, free`prev, free`state
      modifies fElementWaitingCompletion`next, fElementWaitingCompletion`prev, fElementWaitingCompletion`state
      ensures Shape(0) && fElementWaitingCompletion == null && free == old(free) + [old(fElementWaitingCompletion)]
    {
      hide List;
      var element := fElementWaitingCompletion;
      fElementWaitingCompletion := null;
      DeallocateElement(element);
    }

    // Takes the oldest pending element off its list.
    method TakePending(element: PHYRxElement)
      requires Shape(0) && pending != [] && element == pending[0]
      modifies this`pending, this`fPendingListHead, this`fPendingListTail, pending`next, pending`prev
      ensures Shape(1) && pending == old(pending)[1..]
      ensures element !in free && element !in pending && element.kind != TypeNone
      ensures element != fElementWaitingCompletion
    {
      hide List;
      ghost var was := pending;
      RemovePendingHead(element);
      assert forall i :: 0 <= i < |pending| ==> pending[i] == was[i + 1];
    }

    method RemovePendingHead(element: PHYRxElement)
      requires List(pending, fPendingListHead, fPendingListTail) && pending != [] && element == pending[0]
      modifies this`pending, this`fPendingListHead, this`fPendingListTail, pending`next, pending`prev
      ensures List(pending, fPendingListHead, fPendingListTail) && pending == old(pending)[1..]
      ensures element !in pending
    {
      hide List;
      ListFacts(pending, fPendingListHead, fPendingListTail);
      RemoveElementFromPendingList(element, 0);
    }

    // The user process is told the oldest pending note.
    method SendNext(element: PHYRxElement)
      requires Shape(0) && pending != [] && element == pending[0] && fElementWaitingCompletion == null
      requires ReadAs(pending, queued)
      modifies this`pending, this`queued, this`fPendingListHead, this`fPendingListTail
      modifies pending`next, pending`prev, this`fElementWaitingCompletion, this`sent
      ensures Shape(0) && pending == old(pending)[1..] && queued == old(queued)[1..] && ReadAs(pending, queued)
      ensures fElementWaitingCompletion == element && sent == old(sent) + [old(queued)[0]]
    {
      hide List, Shape;
      ghost var was := pending;
      TakePending(element);
      queued := queued[1..];
      assert forall i :: 0 <= i < |pending| ==> pending[i] == was[i + 1];
      SendPacketNotification(element);
    }

    ghost function Elements(): set<PHYRxElement>
      reads this
    {
      (set e | e in free) + (set e | e in pending)
      + if fElementWaitingCompletion == null then {} else {fElementWaitingCompletion}
    }

    ghost predicate Within(elements: set<PHYRxElement>)
      reads this`free, this`pending
    {
      && (forall i :: 0 <= i < |free| ==> free[i] in elements)
      && (forall i :: 0 <= i < |pending| ==> pending[i] in elements)
    }

    static lemma Shift<T>(a: seq<T>, b: seq<T>)
      ensures b != [] ==> (a + [b[0]]) + b[1..] == a + b
    {
    }

    // A user process that deals with every note is told everything pending.
    method CompleteEverything()
      requires Valid() && InOrder() && fMaxQueueCount >= 3
      modifies this, Elements()
      ensures Valid() && InOrder() && pending == [] && fElementWaitingCompletion == null
      ensures sent == old(sent) + old(queued) && received == old(received)
      ensures TotalWeight(sent) == |received|
    {
      hide List, Accounts, Shape, ReadAs;
      ghost var notes := sent + queued;
      ghost var elements := Elements();
      while fElementWaitingCompletion != null
        invariant Valid() && InOrder() && sent + queued == notes && received == old(received)
        invariant Within(elements) && (fElementWaitingCompletion == null || fElementWaitingCompletion in elements)
        decreases |pending|, fElementWaitingCompletion != null
      {
        ghost var before, q := sent, queued;
        assert |queued| == |pending| by { ReadAsLength(pending, queued); }
        ClientCommandIsComplete(fElementWaitingCompletion);
        Shift(before, q);
      }
      assert queued == [] by { ReadAsLength(pending, queued); }
      assert sent + queued == sent;
      AccountsWeigh(sent, received);
    }

    // Frees every element that is not with the user process.
    method DestroyAllElements() returns (ghost deleted: seq<PHYRxElement>)
      requires Shape(0)
      modifies this, Elements()
      ensures fPendingListHead == null && fPendingListTail == null && fFreeListHead == null && fFreeListTail == null
      ensures deleted == old(free) + old(pending)
      // An element the user process still has is not freed.
      ensures |deleted| == old(fAllocatedQueueCount) - old(Busy())
    {
      ReturnPending();
      deleted := DeleteFree();
    }

    method ReturnPending()
      requires Shape(0)
      modifies this, Elements()
      ensures Shape(0) && pending == [] && free == old(free) + old(pending)
      ensures fElementWaitingCompletion == old(fElementWaitingCompletion)
      ensures fAllocatedQueueCount == old(fAllocatedQueueCount)
    {
      ListFacts(pending, fPendingListHead, fPendingListTail);
      assert fPendingListHead == At(pending, 0) && Within(Elements());
      hide List, Shape;
      var element := fPendingListHead;
      ghost var all, elements := free + pending, Elements();
      while element != null
        invariant Shape(0) && element == At(pending, 0) && free + pending == all && Within(elements)
        invariant fElementWaitingCompletion == old(fElementWaitingCompletion)
        invariant fAllocatedQueueCount == old(fAllocatedQueueCount)
        decreases |pending|
      {
        element := ReturnNext(element, elements);
      }
    }

    // One turn of the loop: the link is read before the element is returned.
    method ReturnNext(element: PHYRxElement, ghost elements: set<PHYRxElement>) returns (nextElement: PHYRxElement?)
      requires Shape(0) && pending != [] && element == pending[0] && Within(elements)
      modifies this`free, this`fFreeListHead, this`fFreeListTail, free`next, free`prev, free`state
      modifies this`pending, this`fPendingListHead, this`fPendingListTail, pending`next, pending`prev, pending`state
      ensures Shape(0) && nextElement == At(pending, 0) && Within(elements)
      ensures |pending| == |old(pending)| - 1 && free + pending == old(free + pending)
    {
      hide List, Shape;
      ghost var was, before := pending, free;
      SecondPending();
      nextElement := element.next;
      ReturnFirst(element);
      Shift(before, was);
    }

    method ReturnFirst(element: PHYRxElement)
      requires Shape(0) && pending != [] && element == pending[0]
      modifies this`free, this`fFreeListHead, this`fFreeListTail, free`next, free`prev, free`state
      modifies this`pending, this`fPendingListHead, this`fPendingListTail, pending`next, pending`prev, pending`state
      ensures Shape(0) && pending == old(pending)[1..] && free == old(free) + [element]
    {
      hide List, Shape;
      TakePending(element);
      DeallocateElement(element);
    }

    lemma SecondPending()
      requires Shape(0) && pending != []
      ensures pending[0].next == At(pending, 1)
    {
      assert Linked(pending, 0);
    }

    method DeleteFree() returns (ghost deleted: seq<PHYRxElement>)
      requires Shape(0)
      modifies this`free, this`fFreeListHead, this`fFreeListTail
      ensures deleted == old(free) && fFreeListHead == null && fFreeListTail == null && free == []
    {
      var element := fFreeListHead;
      deleted := [];
      while element != null
        invariant |deleted| <= |free| && deleted == free[..|deleted|] && element == At(free, |deleted|)
        decreases |free| - |deleted|
      {
        assert Linked(free, |deleted|);
        var nextElement := element.next;
        deleted := deleted + [element];
        element := nextElement;
      }
      fFreeListHead, fFreeListTail, free := null, null, [];
    }
  }

  lemma Bump(sent: seq<Note>, queued: seq<Note>, received: seq<Packet>, p: Packet)
    requires Accounts(sent + queued, received) && queued != [] && queued[|queued| - 1].Skipped?
    ensures var c := queued[|queued| - 1].count;
            c <= |received| && Accounts(sent + queued[|queued| - 1 := Skipped(c + 1)], received + [p])
  {
    var c := queued[|queued| - 1].count;
    var before := sent + queued[..|queued| - 1];
    assert sent + queued == before + [Skipped(c)];
    AccountsBump(before, c, received, p);
    assert sent + queued[|queued| - 1 := Skipped(c + 1)] == before + [Skipped(c + 1)];
  }
}
