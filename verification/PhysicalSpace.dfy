/**
 Remote reads and writes of a memory descriptor by physical address: the search
 for the segments that hold the whole request.
 Source: IOFWPhysicalAddressSpace.cpp.
 */
module PhysicalSpace {

  const WORD: nat := 0x1_0000_0000

  datatype Response = Complete(offset: nat) | AddressError

  // A memory descriptor: the physical address of every byte, and the length of
  // the physical segment reported for a position.
  datatype Descriptor = Descriptor(phys: seq<nat>, run: seq<nat>) {

    // The segment reported at i is not empty, shorter than 2^32, contiguous.
    predicate Segment(i: nat)
      requires i < |phys| == |run|
    {
      && 0 < run[i] < WORD && i + run[i] <= |phys|
      && forall j :: i <= j < i + run[i] ==> phys[j] == phys[i] + (j - i)
    }

    // The physical byte is mapped at most once.
    predicate Once(address: int) {
      forall i, j :: 0 <= i < |phys| && 0 <= j < |phys| && phys[i] == address == phys[j] ==> i == j
    }

    predicate Valid() {
      && |run| == |phys|
      && forall i :: 0 <= i < |phys| ==> Segment(i)
    }

    // Descriptor bytes o to o + len are the physical bytes from address on.
    predicate Maps(o: nat, address: nat, len: nat) {
      && o + len <= |phys|
      && forall j :: o <= j < o + len ==> phys[j] == address + (j - o)
    }

    ghost predicate Reaches(address: nat, len: nat) {
      exists o: nat :: Maps(o, address, len)
    }

    // Some place that holds the request is looked at.
    ghost predicate IsMet(address: nat, len: nat)
      requires Valid()
    {
      exists o: nat :: Maps(o, address, len) && !Missed(0, o, address, len)
    }

    // ----- what the search computes -----

    // The look-ahead at position pos for the physical address expected there,
    // with len bytes still to be found: whether they are, and the length of the
    // segment looked at last, which is before if there is none.
    function LookAhead(pos: nat, expected: nat, len: nat, before: nat): (bool, nat)
      requires Valid()
      decreases |phys| - pos
    {
      if pos >= |phys| then (false, before)
      else
        assert Segment(pos);
        if phys[pos] != expected then (false, run[pos])
        else if len <= run[pos] then (true, run[pos])
        else LookAhead(pos + run[pos], expected + run[pos], len - run[pos], run[pos])
    }

    predicate Inside(pos: nat, address: nat)
      requires Valid() && pos < |phys|
    {
      phys[pos] <= address < phys[pos] + run[pos]
    }

    // Found in the segment at pos, and how far the search goes on if not.
    function Look(pos: nat, address: nat, len: nat): (bool, nat)
      requires Valid() && pos < |phys|
    {
      if !Inside(pos, address) then (false, run[pos])
      else
        var part := run[pos] - (address - phys[pos]);
        if len <= part then (true, run[pos])
        else LookAhead(pos + run[pos], phys[pos] + run[pos], len - part, run[pos])
    }

    lemma LookAheadAdvances(pos: nat, expected: nat, len: nat, before: nat)
      requires Valid() && before > 0
      ensures LookAhead(pos, expected, len, before).1 > 0
      decreases |phys| - pos
    {
      if pos < |phys| {
        assert Segment(pos);
        if phys[pos] == expected && len > run[pos] {
          LookAheadAdvances(pos + run[pos], expected + run[pos], len - run[pos], run[pos]);
        }
      }
    }

    lemma LookAdvances(pos: nat, address: nat, len: nat)
      requires Valid() && pos < |phys|
      ensures Look(pos, address, len).1 > 0
    {
      assert Segment(pos);
      if Inside(pos, address) && len > run[pos] - (address - phys[pos]) {
        LookAheadAdvances(pos + run[pos], phys[pos] + run[pos], len - (run[pos] - (address - phys[pos])), run[pos]);
      }
    }

    function Search(pos: nat, address: nat, len: nat): Response
      requires Valid()
      decreases |phys| - pos
    {
      if pos >= |phys| then AddressError
      else
        var look := Look(pos, address, len);
        LookAdvances(pos, address, len);
        if look.0 then Complete(pos + (address - phys[pos])) else Search(pos + look.1, address, len)
    }

    // ----- exactness -----

    // The look-ahead finds the rest of a request whose bytes up to pos have
    // been found from o on, if and only if it is contiguous.
    lemma {:induction false} LookAheadExact(o: nat, pos: nat, address: nat, len: nat, before: nat)
      requires Valid() && o <= pos && len > pos - o && pos <= |phys|
      requires forall j :: o <= j < pos ==> phys[j] == address + (j - o)
      ensures LookAhead(pos, address + (pos - o), len - (pos - o), before).0 <==> Maps(o, address, len)
      decreases |phys| - pos
    {
      if pos < |phys| {
        assert Segment(pos);
        if phys[pos] == address + (pos - o) && len - (pos - o) > run[pos] {
          LookAheadExact(o, pos + run[pos], address, len, run[pos]);
        }
      }
    }

    lemma LookExact(pos: nat, address: nat, len: nat)
      requires Valid() && pos < |phys|
      ensures Look(pos, address, len).0 <==>
              Inside(pos, address) && Maps(pos + (address - phys[pos]), address, len)
    {
      assert Segment(pos);
      if Inside(pos, address) && len > run[pos] - (address - phys[pos]) {
        LookAheadExact(pos + (address - phys[pos]), pos + run[pos], address, len, run[pos]);
      }
    }

    // What is found is right, even if physical bytes are shared.
    lemma {:induction false} SearchSound(pos: nat, address: nat, len: nat)
      requires Valid() && Search(pos, address, len).Complete?
      ensures Maps(Search(pos, address, len).offset, address, len)
      decreases |phys| - pos
    {
      LookExact(pos, address, len);
      LookAdvances(pos, address, len);
      if !Look(pos, address, len).0 {
        SearchSound(pos + Look(pos, address, len).1, address, len);
      }
    }

    // If the first byte of the request is mapped once, the request is found
    // where it is: a failed look-ahead may skip segments, but none that could help.
    lemma {:induction false} SearchComplete(pos: nat, address: nat, len: nat, o: nat)
      requires Valid() && Once(address) && len > 0 && pos <= o && Maps(o, address, len)
      ensures Search(pos, address, len) == Complete(o)
      decreases |phys| - pos
    {
      assert phys[o] == address;
      assert Segment(pos);
      LookExact(pos, address, len);
      LookAdvances(pos, address, len);
      if Inside(pos, address) {
        assert phys[pos + (address - phys[pos])] == address;
        assert pos + (address - phys[pos]) == o;
      } else {
        assert !(o < pos + run[pos]);
        SearchComplete(pos + run[pos], address, len, o);
      }
    }

    lemma SearchExact(address: nat, len: nat)
      requires Valid() && Once(address) && len > 0
      ensures Search(0, address, len).Complete? <==> Reaches(address, len)
    {
      if Search(0, address, len).Complete? {
        SearchSound(0, address, len);
      }
      if Reaches(address, len) {
        var o: nat :| Maps(o, address, len);
        SearchComplete(0, address, len, o);
      }
    }

    // ----- physical bytes that are mapped more than once -----

    // A search from pos that finds nothing on the way never looks into the
    // segment that holds byte o.
    predicate Missed(pos: nat, o: nat, address: nat, len: nat)
      requires Valid()
      decreases |phys| - pos
    {
      if pos >= |phys| then true
      else
        LookAdvances(pos, address, len);
        assert Segment(pos);
        !(pos <= o < pos + run[pos]) && Missed(pos + Look(pos, address, len).1, o, address, len)
    }

    // The search fails exactly when every place that holds the request is missed.
    lemma {:induction false} SearchFailsExactlyWhen(pos: nat, address: nat, len: nat)
      requires Valid() && len > 0
      ensures Search(pos, address, len) == AddressError
              <==> forall o: nat :: Maps(o, address, len) ==> Missed(pos, o, address, len)
      decreases |phys| - pos
    {
      if pos < |phys| {
        assert Segment(pos);
        LookExact(pos, address, len);
        LookAdvances(pos, address, len);
        SearchFailsExactlyWhen(pos + Look(pos, address, len).1, address, len);
        forall o: nat | Maps(o, address, len) && pos <= o < pos + run[pos]
          ensures Look(pos, address, len).0
        {
          assert phys[o] == address;
        }
      }
    }

    // The segment at p holds another copy of the first byte; the look-ahead from
    // there fails, and the length it leaves behind is that of a later segment
    // and carries the search past byte o.
    predicate SkippedFrom(p: nat, o: nat, address: nat, len: nat)
      requires Valid()
    {
      && p < |phys| && Inside(p, address) && !Look(p, address, len).0
      && p + run[p] <= o < p + Look(p, address, len).1
    }

    // A search that fails has skipped every place that holds the request.
    lemma {:induction false} FailureSkips(pos: nat, o: nat, address: nat, len: nat)
      requires Valid() && len > 0 && pos <= o && Maps(o, address, len)
      requires Search(pos, address, len) == AddressError
      ensures exists p :: pos <= p < o && SkippedFrom(p, o, address, len)
      decreases |phys| - pos
    {
      assert phys[o] == address;
      assert Segment(pos);
      LookExact(pos, address, len);
      LookAdvances(pos, address, len);
      var next := pos + Look(pos, address, len).1;
      if o < next {
        assert SkippedFrom(pos, o, address, len);
      } else {
        FailureSkips(next, o, address, len);
      }
    }
  }

  // And it happens: here the look-ahead from byte 0 fails on
  // the segment at 1, whose length then carries the search past it.
  lemma SharedBytesCanBeMissed()
    ensures var d := Descriptor([10, 10, 11], [1, 2, 1]);
            d.Valid() && !d.Once(10) && d.Reaches(10, 2) && d.Search(0, 10, 2) == AddressError
  {
    var d := Descriptor([10, 10, 11], [1, 2, 1]);
    assert d.Segment(0) && d.Segment(1) && d.Segment(2);
    assert d.Maps(1, 10, 2);
    assert d.phys[0] == d.phys[1];
    assert d.Look(0, 10, 2) == (false, 2);
    assert d.Look(2, 10, 2) == (false, 1);
    assert d.Search(3, 10, 2) == AddressError;
    assert d.Search(2, 10, 2) == AddressError;
  }

  class PhysicalAddressSpace {
    const d: Descriptor
    const memory: array<bv8>
    var trusted: set<nat>
    var prepared: bool

    constructor (d: Descriptor, memory: array<bv8>, trusted: set<nat>, prepared: bool)
      requires d.Valid() && |d.phys| == memory.Length
      ensures this.d == d && this.memory == memory && this.trusted == trusted && this.prepared == prepared
    {
      this.d, this.memory, this.trusted, this.prepared := d, memory, trusted, prepared;
    }

    method GetPhysicalSegment(pos: nat) returns (phys: nat, length: nat)
      requires d.Valid() && pos < |d.phys|
      ensures phys == d.phys[pos] && length == d.run[pos] && d.Segment(pos)
    {
      phys, length := d.phys[pos], d.run[pos];
    }

    // Looks for more segments that continue the one at pos. The length of the
    // segment looked at last is what the caller goes on with.
    method LookAhead(pos: nat, address: nat, len: nat) returns (found: bool, lengthOfSegment: nat)
      requires d.Valid() && pos < |d.phys| && d.Inside(pos, address)
      requires len > d.run[pos] - (address - d.phys[pos])
      ensures (found, lengthOfSegment) == d.Look(pos, address, len)
    {
      assert d.Segment(pos);
      lengthOfSegment := d.run[pos];
      var contiguousAddress: nat := d.phys[pos] + lengthOfSegment;
      var contiguousPos: nat := pos + lengthOfSegment;
      var contiguousLength: nat := len - (lengthOfSegment - (address - d.phys[pos]));
      found := false;
      while contiguousPos < |d.phys|
        invariant !found
        invariant d.LookAhead(contiguousPos, contiguousAddress, contiguousLength, lengthOfSegment)
               == d.Look(pos, address, len)
        decreases |d.phys| - contiguousPos
      {
        var contigPhys;
        contigPhys, lengthOfSegment := GetPhysicalSegment(contiguousPos);
        if contiguousAddress != contigPhys {
          break;
        }
        if contiguousLength <= lengthOfSegment {
          found := true;
          break;
        }
        contiguousLength := contiguousLength - lengthOfSegment;
        contiguousPos := contiguousPos + lengthOfSegment;
        contiguousAddress := contiguousAddress + lengthOfSegment;
      }
    }

    // The search of doRead and doWrite.
    method FindSegment(address: nat, len: nat) returns (r: Response)
      requires d.Valid() && len < WORD
      ensures r == d.Search(0, address, len)
    {
      var pos := 0;
      while pos < |d.phys|
        invariant d.Search(pos, address, len) == d.Search(0, address, len)
        decreases |d.phys| - pos
      {
        var found := false;
        var phys, lengthOfSegment := GetPhysicalSegment(pos);
        d.LookAdvances(pos, address, len);
        if phys <= address < phys + lengthOfSegment {
          var unionLength := (lengthOfSegment - (address - phys)) % WORD;
          if len <= unionLength {
            found := true;
          } else {
            found, lengthOfSegment := LookAhead(pos, address, len);
          }
        }
        if found {
          return Complete(pos + (address - phys));
        }
        pos := pos + lengthOfSegment;
      }
      r := AddressError;
    }

    method DoRead(nodeID: nat, address: nat, len: nat) returns (r: Response)
      requires d.Valid() && len < WORD
      ensures r == if nodeID in trusted && prepared then d.Search(0, address, len) else AddressError
      ensures r.Complete? ==> d.Maps(r.offset, address, len)
      ensures len > 0 ==> (r.Complete? <==> nodeID in trusted && prepared && d.IsMet(address, len))
      ensures d.Once(address) && len > 0 ==> (r.Complete? <==> nodeID in trusted && prepared && d.Reaches(address, len))
    {
      hide Descriptor.Search, Descriptor.Valid, Descriptor.Reaches, Descriptor.IsMet;
      if nodeID !in trusted {
        return AddressError;
      }
      if !prepared {
        return AddressError;
      }
      r := FindSegment(address, len);
      Found(address, len);
    }

    lemma Found(address: nat, len: nat)
      requires d.Valid()
      ensures var r := d.Search(0, address, len);
              && (r.Complete? ==> d.Maps(r.offset, address, len))
              && (len > 0 ==> (r.Complete? <==> d.IsMet(address, len)))
              && (d.Once(address) && len > 0 ==> (r.Complete? <==> d.Reaches(address, len)))
    {
      if len > 0 {
        d.SearchFailsExactlyWhen(0, address, len);
      }
      if d.Search(0, address, len).Complete? {
        d.SearchSound(0, address, len);
      }
      if d.Once(address) && len > 0 {
        d.SearchExact(address, len);
      }
    }

    method DoWrite(nodeID: nat, address: nat, buf: seq<bv8>) returns (r: Response)
      requires d.Valid() && |buf| < WORD && |d.phys| == memory.Length
      modifies memory
      ensures r == if nodeID in trusted && prepared then d.Search(0, address, |buf|) else AddressError
      ensures |buf| > 0 ==> (r.Complete? <==> nodeID in trusted && prepared && d.IsMet(address, |buf|))
      ensures d.Once(address) && |buf| > 0 ==>
                (r.Complete? <==> nodeID in trusted && prepared && d.Reaches(address, |buf|))
      ensures r.Complete? ==>
                && d.Maps(r.offset, address, |buf|)
                && memory[..] == Overwritten(old(memory[..]), r.offset, buf)
      ensures !r.Complete? ==> memory[..] == old(memory[..])
    {
      hide Descriptor.Search, Descriptor.Valid, Descriptor.Reaches, Descriptor.IsMet;
      if nodeID !in trusted {
        return AddressError;
      }
      if !prepared {
        return AddressError;
      }
      r := FindSegment(address, |buf|);
      Found(address, |buf|);
      if r.Complete? {
        WriteBytes(r.offset, buf);
      }
    }

    method WriteBytes(offset: nat, buf: seq<bv8>)
      requires offset + |buf| <= memory.Length
      modifies memory
      ensures memory[..] == Overwritten(old(memory[..]), offset, buf)
    {
      forall i | offset <= i < offset + |buf| {
        memory[i] := buf[i - offset];
      }
    }
  }

  function Overwritten(memory: seq<bv8>, o: nat, buf: seq<bv8>): (now: seq<bv8>)
    requires o + |buf| <= |memory|
  {
    memory[..o] + buf + memory[o + |buf|..]
  }

  // A read of any range after a write of any range: the bytes written, at the
  // physical addresses they were written to, and the old ones elsewhere.
  lemma ReadAfterWrite(d: Descriptor, memory: seq<bv8>, o: nat, address: nat, buf: seq<bv8>, o': nat, address': nat,
                       len: nat, j: nat)
    requires |memory| == |d.phys| && d.Once(address' + (j - o'))
    requires d.Maps(o, address, |buf|) && d.Maps(o', address', len) && o' <= j < o' + len
    ensures var a := address' + (j - o');
            Overwritten(memory, o, buf)[j] == if address <= a < address + |buf| then buf[a - address] else memory[j]
  {
    var a := address' + (j - o');
    assert d.phys[j] == a;
    if address <= a < address + |buf| {
      assert d.phys[o + (a - address)] == a;
    }
  }
}
