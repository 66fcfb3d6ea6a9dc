/**
 IOFWRingBufferQ: byte strings of any length kept contiguous in one circular
 range. Writer and reader each work out the padding at the end of the range
 from sizes alone; the class is proved to be a FIFO of byte strings.
 Source: IOFWRingBufferQ.cpp.
 */
module RingLayout {
  import opened Remainders

  // An entry: where its first byte is, and its bytes.
  datatype Entry = Entry(start: nat, bytes: seq<bv8>)

  // The layout rule. An entry that does not fit between pos and the end of a
  // range of size b goes to the start of the range.
  function Start(b: nat, pos: nat, size: nat): nat
    requires pos <= b
  {
    if size > b - pos then 0 else pos
  }

  function Padding(b: nat, pos: nat, size: nat): nat
    requires pos <= b
  {
    if size > b - pos then b - pos else 0
  }

  // The entries lie one after the other by the rule, from pos on.
  predicate Laid(b: nat, pos: nat, es: seq<Entry>)
    requires pos <= b
    decreases es
  {
    es == [] ||
    (0 < |es[0].bytes| <= b
     && es[0].start == Start(b, pos, |es[0].bytes|)
     && Laid(b, es[0].start + |es[0].bytes|, es[1..]))
  }

  // The bytes they take, padding included, and where the last one ends.
  function Used(b: nat, pos: nat, es: seq<Entry>): nat
    requires pos <= b && Laid(b, pos, es)
    decreases es
  {
    if es == [] then 0 else
    Padding(b, pos, |es[0].bytes|) + |es[0].bytes| + Used(b, es[0].start + |es[0].bytes|, es[1..])
  }

  function EndPos(b: nat, pos: nat, es: seq<Entry>): (e: nat)
    requires pos <= b && Laid(b, pos, es)
    ensures e <= b
    decreases es
  {
    if es == [] then pos else EndPos(b, es[0].start + |es[0].bytes|, es[1..])
  }

  ghost predicate Within(e: Entry, lo: nat, hi: nat) {
    lo <= e.start && e.start + |e.bytes| <= hi
  }

  // Where everything is, once the total is known: either one stretch from pos,
  // or the top of the range and a stretch at its start.
  lemma {:induction false} Extent(b: nat, pos: nat, es: seq<Entry>)
    requires pos <= b && Laid(b, pos, es) && Used(b, pos, es) <= b
    ensures var n := pos + Used(b, pos, es);
            if n <= b then
              EndPos(b, pos, es) == n && forall i :: 0 <= i < |es| ==> Within(es[i], pos, n)
            else
              && EndPos(b, pos, es) == n - b
              && forall i :: 0 <= i < |es| ==> Within(es[i], pos, b) || Within(es[i], 0, n - b)
    decreases es
  {
    if es != [] {
      var next := es[0].start + |es[0].bytes|;
      Extent(b, next, es[1..]);
      forall i | 0 <= i < |es|
        ensures var n := pos + Used(b, pos, es);
                if n <= b then Within(es[i], pos, n) else Within(es[i], pos, b) || Within(es[i], 0, n - b)
      {
        if i > 0 {
          assert es[i] == es[1..][i - 1];
        }
      }
    }
  }

  // The layout ends where its newest entry does.
  lemma {:induction false} NewestEnds(b: nat, pos: nat, es: seq<Entry>)
    requires pos <= b && Laid(b, pos, es) && es != []
    ensures EndPos(b, pos, es) == es[|es| - 1].start + |es[|es| - 1].bytes| > 0
    decreases es
  {
    if |es| == 1 {
      assert es[1..] == [];
    } else {
      NewestEnds(b, es[0].start + |es[0].bytes|, es[1..]);
    }
  }

  // Adding one entry where the layout ends.
  lemma {:induction false} Append(b: nat, pos: nat, es: seq<Entry>, bytes: seq<bv8>)
    requires pos <= b && Laid(b, pos, es) && 0 < |bytes| <= b
    ensures var e := Entry(Start(b, EndPos(b, pos, es), |bytes|), bytes);
            && Laid(b, pos, es + [e])
            && Used(b, pos, es + [e]) == Used(b, pos, es) + Padding(b, EndPos(b, pos, es), |bytes|) + |bytes|
    decreases es
  {
    var e := Entry(Start(b, EndPos(b, pos, es), |bytes|), bytes);
    if es == [] {
      assert es + [e] == [e] && [e][1..] == [];
    } else {
      Append(b, es[0].start + |es[0].bytes|, es[1..], bytes);
      assert (es + [e])[1..] == es[1..] + [e];
    }
  }

  // The end of the range is as good a front as its start.
  lemma EndIsStart(b: nat, es: seq<Entry>)
    ensures Laid(b, b, es) <==> Laid(b, 0, es)
    ensures Laid(b, 0, es) ==> Used(b, b, es) == Used(b, 0, es)
    ensures Laid(b, 0, es) && es != [] ==> EndPos(b, b, es) == EndPos(b, 0, es)
  {
  }

  // Remainders of small numbers, as the code's offset arithmetic uses them.
  lemma Wrap(x: nat, b: nat)
    requires b > 0 && x <= 2 * b
    ensures x % b == if x < b then x else if x < 2 * b then x - b else 0
  {
    if b <= x < 2 * b {
      Remainder(x, b, 1, x - b);
    } else if x == 2 * b {
      Remainder(x, b, 2, 0);
    }
  }

  lemma StartAfterPadding(b: nat, pos: nat, size: nat)
    requires pos <= b
    ensures || pos + Padding(b, pos, size) == Start(b, pos, size)
            || (Start(b, pos, size) == 0 && pos + Padding(b, pos, size) == b)
  {
  }

  // Taking the first entry off the layout.
  lemma EmptyTakesNothing(b: nat, pos: nat)
    ensures pos <= b ==> Laid(b, pos, []) && Used(b, pos, []) == 0
  {
  }

  lemma UsesSome(b: nat, pos: nat, es: seq<Entry>)
    requires pos <= b && Laid(b, pos, es) && es != []
    ensures Used(b, pos, es) > 0
  {
  }

  lemma PopFront(b: nat, pos: nat, es: seq<Entry>)
    requires pos <= b && Laid(b, pos, es) && es != []
    ensures var e := es[0];
            && 0 < |e.bytes| && e.start == Start(b, pos, |e.bytes|) && e.start + |e.bytes| <= b
            && Laid(b, e.start + |e.bytes|, es[1..])
            && Used(b, pos, es) == Padding(b, pos, |e.bytes|) + |e.bytes| + Used(b, e.start + |e.bytes|, es[1..])
  {
  }
}

module RingBufferQueue {
  import opened RingLayout

  datatype Option<T> = None | Some(value: T)

  // How many values the unsigned type of the offsets and lengths has.
  const BYTE_COUNTS := 0x1_0000_0000

  class RingBufferQ {
    const memory: array<bv8>
    const fBufferSize: nat
    var fFrontOffset: nat
    var fQueueLength: nat
    ghost var entries: seq<Entry>

    ghost predicate Valid()
      reads this, memory
    {
      && 0 < fBufferSize == memory.Length < BYTE_COUNTS
      && fFrontOffset <= fBufferSize
      && Laid(fBufferSize, fFrontOffset, entries)
      && fQueueLength == Used(fBufferSize, fFrontOffset, entries) <= fBufferSize
      && forall i :: 0 <= i < |entries| ==> Holds(entries[i])
    }

    ghost predicate Holds(e: Entry)
      reads memory
    {
      e.start + |e.bytes| <= memory.Length && memory[e.start..e.start + |e.bytes|] == e.bytes
    }

    // Where the next entry of this size goes, if it fits.
    ghost function InsertOffset(size: nat): nat
      requires Valid()
      reads this, memory
    {
      Start(fBufferSize, EndPos(fBufferSize, fFrontOffset, entries), size)
    }

    // It fits when, laid by the same rule, everything still takes no more than
    // the whole range.
    ghost predicate Fits(size: nat)
      requires Valid()
      reads this, memory
    {
      && fQueueLength < fBufferSize
      && fQueueLength + Padding(fBufferSize, EndPos(fBufferSize, fFrontOffset, entries), size) + size <= fBufferSize
    }

    constructor (size: nat)
      requires 0 < size < BYTE_COUNTS
      ensures Valid() && entries == [] && fBufferSize == size && fresh(memory)
    {
      memory := new bv8[size];
      fBufferSize := size;
      fFrontOffset, fQueueLength, entries := 0, 0, [];
    }

    predicate IsEmpty()
      reads this
    {
      fQueueLength == 0
    }

    method WillFitAtEnd(sizeOfEntry: nat) returns (success: bool, offset: nat, padding: nat)
      requires Valid()
      ensures success <==> Fits(sizeOfEntry)
      ensures success && sizeOfEntry > 0 ==>
                && offset == InsertOffset(sizeOfEntry)
                && padding == Padding(fBufferSize, EndPos(fBufferSize, fFrontOffset, entries), sizeOfEntry)
      ensures sizeOfEntry == 0 ==> padding == 0
    {
      success := true;
      padding := 0;
      Extent(fBufferSize, fFrontOffset, entries);
      Wrap(fFrontOffset + fQueueLength, fBufferSize);
      var endOffset := (fFrontOffset + fQueueLength) % fBufferSize;
      if fQueueLength < fBufferSize {
        if endOffset >= fFrontOffset {
          if sizeOfEntry > fBufferSize - endOffset {
            padding := fBufferSize - endOffset;
            Wrap(fFrontOffset + fQueueLength + padding, fBufferSize);
            endOffset := (fFrontOffset + fQueueLength + padding) % fBufferSize;
            if sizeOfEntry > fFrontOffset {
              success := false;
            }
          }
        } else {
          if sizeOfEntry > fBufferSize - fQueueLength {
            success := false;
          }
        }
      } else if fQueueLength > fBufferSize {
        success := false;
      } else {
        success := false;
      }
      offset := endOffset;
    }

    method IsSpaceAvailable(size: nat) returns (success: bool, offset: nat)
      requires Valid()
      ensures success <==> Fits(size)
      ensures success && size > 0 ==> offset == InsertOffset(size)
    {
      var padding;
      success, offset, padding := WillFitAtEnd(size);
    }

    // The descriptor's writeBytes: how many bytes were written.
    method WriteBytes(offset: nat, bytes: seq<bv8>) returns (written: nat)
      requires offset + |bytes| <= memory.Length
      modifies memory
      ensures written == |bytes|
      ensures memory[offset..offset + |bytes|] == bytes
      ensures forall k :: 0 <= k < memory.Length && !(offset <= k < offset + |bytes|) ==> memory[k] == old(memory[k])
    {
      for i := 0 to |bytes|
        invariant memory[offset..offset + i] == bytes[..i]
        invariant forall k :: 0 <= k < memory.Length && !(offset <= k < offset + i) ==> memory[k] == old(memory[k])
      {
        memory[offset + i] := bytes[i];
      }
      written := |bytes|;
    }

    // bytes is None for a null pointer.
    method EnqueueBytes(bytes: Option<seq<bv8>>, size: nat) returns (success: bool)
      requires Valid() && (bytes.Some? ==> |bytes.value| == size)
      modifies this`fQueueLength, this`entries, memory
      ensures Valid()
      ensures success <==> bytes.Some? && size > 0 && old(Fits(size))
      ensures if success then entries == old(entries) + [Entry(old(InsertOffset(size)), bytes.value)]
              else entries == old(entries) && fQueueLength == old(fQueueLength) && memory[..] == old(memory[..])
    {
      var offset, padding;
      success, offset, padding := WillFitAtEnd(size);
      if success {
        if bytes.Some? && size > 0 {
          Append(bytes.value, offset, padding);
        } else {
          // a null pointer, or no bytes to write
          success := false;
        }
      }
    }

    method Append(bytes: seq<bv8>, offset: nat, padding: nat)
      requires Valid() && |bytes| > 0 && Fits(|bytes|) && offset == InsertOffset(|bytes|)
      requires padding == Padding(fBufferSize, EndPos(fBufferSize, fFrontOffset, entries), |bytes|)
      modifies this`fQueueLength, this`entries, memory
      ensures Valid() && entries == old(entries) + [Entry(offset, bytes)]
    {
      hide Laid, Used, EndPos, Start, Padding;
      ghost var es := entries;
      ClearOfEntries(|bytes|);
      RingLayout.Append(fBufferSize, fFrontOffset, es, bytes);
      fQueueLength := fQueueLength + |bytes| + padding;
      var written := WriteBytes(offset, bytes);
      forall i | 0 <= i < |es| ensures Holds(es[i]) {
        assert old(Holds(es[i]));
        var lo, n := es[i].start, |es[i].bytes|;
        assert forall k :: lo <= k < lo + n ==> memory[k] == old(memory[k]);
      }
      entries := es + [Entry(offset, bytes)];
    }

    // The free stretch the next entry goes to overlaps no live entry.
    lemma ClearOfEntries(size: nat)
      requires Valid() && Fits(size) && size > 0
      ensures InsertOffset(size) + size <= fBufferSize
      ensures forall i :: 0 <= i < |entries| ==>
                InsertOffset(size) + size <= entries[i].start
                || entries[i].start + |entries[i].bytes| <= InsertOffset(size)
    {
      hide Laid, Used, EndPos;
      Extent(fBufferSize, fFrontOffset, entries);
    }

    method FrontEntryOffset(sizeOfEntry: nat) returns (offset: nat, padding: nat)
      requires Valid() && (entries != [] ==> sizeOfEntry == |entries[0].bytes|)
      ensures entries != [] ==> offset == entries[0].start && padding == Padding(fBufferSize, fFrontOffset, sizeOfEntry)
      ensures entries == [] ==> offset == fFrontOffset && padding == 0
    {
      offset := fFrontOffset;
      Extent(fBufferSize, fFrontOffset, entries);
      Wrap(fFrontOffset + fQueueLength, fBufferSize);
      var endOffset := (fFrontOffset + fQueueLength) % fBufferSize;
      padding := 0;
      if !IsEmpty() {
        if fFrontOffset >= endOffset {
          if sizeOfEntry > fBufferSize - fFrontOffset {
            padding := fBufferSize - fFrontOffset;
            Wrap(fFrontOffset + padding, fBufferSize);
            offset := (fFrontOffset + padding) % fBufferSize;
          }
        }
      }
    }

    // A copy of the oldest entry, asked for by its size.
    method Front(size: nat) returns (success: bool, copy: seq<bv8>, padding: nat)
      requires Valid() && (entries != [] ==> size == |entries[0].bytes|)
      ensures success <==> entries != []
      ensures success ==> copy == entries[0].bytes && padding == Padding(fBufferSize, fFrontOffset, size)
    {
      copy, padding := [], 0;
      if IsEmpty() {
        success := false;
      } else {
        var frontOffset;
        frontOffset, padding := FrontEntryOffset(size);
        assert Holds(entries[0]);
        copy := memory[frontOffset..frontOffset + size];
        success := |copy| != 0;
      }
    }

    // With wanted the bytes are copied out; without, they are only dropped, and
    // that is done unchecked: a drop from an empty queue takes its length below
    // zero. The queue stays sound exactly when there was an entry to drop.
    method DequeueBytesWithCopy(wanted: bool, size: nat) returns (success: bool, copy: seq<bv8>)
      requires Valid() && (entries != [] ==> size == |entries[0].bytes|) && size < BYTE_COUNTS
      modifies this
      ensures success <==> !wanted || old(entries) != []
      ensures Valid() <==> wanted || old(entries) != [] || size == 0
      ensures old(entries) != [] ==> entries == old(entries)[1..] && (wanted ==> copy == old(entries)[0].bytes)
      ensures old(entries) == [] ==> entries == []
      ensures !success ==> fFrontOffset == old(fFrontOffset) && fQueueLength == old(fQueueLength)
      ensures success && old(entries) == [] && size > 0 ==> fQueueLength == BYTE_COUNTS - size
    {
      hide Laid, Used, EndPos, Holds, Start;
      success, copy := true, [];
      var paddingBytes := 0;
      if entries != [] {
        PopFront(fBufferSize, fFrontOffset, entries);
      }
      if wanted {
        var ok;
        ok, copy, paddingBytes := Front(size);
        if ok {
          Wrap(fFrontOffset + paddingBytes + size, fBufferSize);
          StartAfterPadding(fBufferSize, fFrontOffset, size);
          DropFront((fFrontOffset + paddingBytes + size) % fBufferSize, paddingBytes, size);
        } else {
          success := false;
        }
      } else {
        var theRealFrontOffset;
        theRealFrontOffset, paddingBytes := FrontEntryOffset(size);
        DropFront(theRealFrontOffset + size, paddingBytes, size);
      }
    }

    // The front moves past the oldest entry, to the end of the range or, what
    // is as good, to its start. Both updates are unsigned and unchecked.
    method DropFront(newFront: nat, paddingBytes: nat, size: nat)
      requires Valid() && size < BYTE_COUNTS
      requires if entries == [] then newFront == fFrontOffset + size && paddingBytes == 0 else
                 && size == |entries[0].bytes| && paddingBytes == Padding(fBufferSize, fFrontOffset, size)
                 && var end := entries[0].start + |entries[0].bytes|;
                    newFront == end || (end == fBufferSize && newFront == 0)
      modifies this`fFrontOffset, this`fQueueLength, this`entries
      ensures Valid() <==> old(entries) != [] || size == 0
      ensures if old(entries) == [] then entries == [] else entries == old(entries)[1..]
      ensures old(entries) == [] && size > 0 ==> fQueueLength == BYTE_COUNTS - size
    {
      hide Laid, Used, EndPos, Holds, Start;
      ghost var es := entries;
      if es != [] {
        PopFront(fBufferSize, fFrontOffset, es);
        EndIsStart(fBufferSize, es[1..]);
        entries := es[1..];
        assert forall i :: 0 <= i < |entries| ==> entries[i] == es[i + 1];
      }
      EmptyTakesNothing(fBufferSize, fFrontOffset);
      Wrap(fQueueLength + (BYTE_COUNTS - paddingBytes - size), BYTE_COUNTS);
      Wrap(newFront, BYTE_COUNTS);
      fQueueLength := (fQueueLength + (BYTE_COUNTS - paddingBytes - size)) % BYTE_COUNTS;
      fFrontOffset := newFront % BYTE_COUNTS;
      EmptyTakesNothing(fBufferSize, fFrontOffset);
    }
  }

  // A queue with entries takes a size that fits behind its newest entry or, if
  // the free part goes round the end of the range, below its oldest byte. When
  // the entries go round, the free part is what is between the two.
  lemma NonemptyQueueFits(q: RingBufferQ, size: nat)
    requires q.Valid() && q.entries != [] && size > 0
    ensures var newest := q.entries[|q.entries| - 1];
            var end := newest.start + |newest.bytes|;
            var front := if q.fFrontOffset == q.fBufferSize then 0 else q.fFrontOffset;
            && (q.Fits(size) <==>
                  if front < end then size <= q.fBufferSize - end || size <= front else size <= front - end)
            && (q.Fits(size) ==>
                  q.InsertOffset(size) == if front < end && size > q.fBufferSize - end then 0 else end)
  {
    hide Laid, Used, EndPos;
    NewestEnds(q.fBufferSize, q.fFrontOffset, q.entries);
    Extent(q.fBufferSize, q.fFrontOffset, q.entries);
    UsesSome(q.fBufferSize, q.fFrontOffset, q.entries);
  }

  // An empty queue does not take every size up to its capacity: only what fits
  // above its front, or below it.
  lemma EmptyQueueFits(q: RingBufferQ, size: nat)
    requires q.Valid() && q.entries == []
    ensures q.Fits(size) <==> size <= q.fBufferSize - q.fFrontOffset || size <= q.fFrontOffset
  {
  }
}
