/**
 A compare-and-swap lock transaction from end to end: the requesting command and
 the address space that responds.
 Source: IOFWCompareAndSwapCommand.cpp, IOFWAddressSpace.cpp.
 */
module CompareAndSwap {

  const RESPONSE_COMPLETE: nat := 0
  const RESPONSE_TYPE_ERROR: nat := 6
  const RESPONSE_ADDRESS_ERROR: nat := 7
  const COMPARE_SWAP: nat := 2

  datatype Status = Success | InvalidResponseLength | Response(rcode: nat)

  // What the transaction is for: memory at position at, size quadlets, is
  // replaced if it holds the compare value.
  function Swapped(memory: seq<bv32>, at: nat, cmp: seq<bv32>, new_: seq<bv32>): (now: seq<bv32>)
    requires |cmp| == |new_| && at + |cmp| <= |memory|
  {
    if memory[at..at + |cmp|] == cmp then memory[..at] + new_ + memory[at + |cmp|..] else memory
  }

  class AddressSpace {
    const memory: array<bv32>

    constructor (memory: array<bv32>)
      ensures this.memory == memory
    {
      this.memory := memory;
    }

    predicate InSpace(at: nat, size: nat) {
      at + size <= memory.Length
    }

    method Write(at: nat, quads: seq<bv32>)
      requires at + |quads| <= memory.Length
      modifies memory
      ensures memory[..] == old(memory[..])[..at] + quads + old(memory[..])[at + |quads|..]
    {
      forall k | at <= k < at + |quads| {
        memory[k] := quads[k - at];
      }
    }

    // The comparing loop.
    static method Matches(oldVal: seq<bv32>, cmpVal: seq<bv32>) returns (ok: bool)
      requires |oldVal| == |cmpVal|
      ensures ok <==> oldVal == cmpVal
    {
      ok := true;
      var i := 0;
      while i < |oldVal|
        invariant 0 <= i <= |oldVal|
        invariant ok <==> oldVal[..i] == cmpVal[..i]
      {
        ok := ok && oldVal[i] == cmpVal[i];
        assert oldVal[..i + 1] == oldVal[..i] + [oldVal[i]];
        assert cmpVal[..i + 1] == cmpVal[..i] + [cmpVal[i]];
        i := i + 1;
      }
      assert oldVal[..i] == oldVal && cmpVal[..i] == cmpVal;
    }

    // The number of quadlets of the value, which is right for a compare-and-swap
    // and used for every type.
    static function LockSize(inLen: nat): nat {
      inLen / 8
    }

    // newVal holds inLen bytes: for a compare-and-swap the compare value, then
    // the new value.
    method DoLock(at: nat, inLen: nat, newVal: seq<bv32>, kind: nat) returns (ret: nat, outLen: nat, oldVal: seq<bv32>)
      requires 2 * LockSize(inLen) <= |newVal|
      modifies memory
      ensures outLen == inLen / 2
      ensures var size := LockSize(inLen);
              if !InSpace(at, size) then ret == RESPONSE_ADDRESS_ERROR && memory[..] == old(memory[..])
              else
                && oldVal == old(memory[..])[at..at + size]
                && if kind == COMPARE_SWAP then
                     && ret == RESPONSE_COMPLETE
                     && memory[..] == Swapped(old(memory[..]), at, newVal[..size], newVal[size..2 * size])
                   else
                     ret == RESPONSE_TYPE_ERROR && memory[..] == old(memory[..])
    {
      hide LockSize;
      var size := LockSize(inLen);
      outLen := inLen / 2;
      oldVal := [];
      if !InSpace(at, size) {
        return RESPONSE_ADDRESS_ERROR, outLen, oldVal;
      }
      oldVal := memory[at..at + size];
      if kind == COMPARE_SWAP {
        var ok := Matches(oldVal, newVal[..size]);
        if ok {
          Write(at, newVal[size..2 * size]);
        }
        ret := RESPONSE_COMPLETE;
      } else {
        ret := RESPONSE_TYPE_ERROR;
      }
    }
  }

  class CompareAndSwapCommand {
    const fInputVals: array<bv32>
    const fOldVal: array<bv32>
    var fSize: nat

    ghost predicate Valid()
      reads this
    {
      && fInputVals.Length == 4 && fOldVal.Length == 2 && fInputVals != fOldVal
      && (fSize == 8 || fSize == 16)
    }

    constructor (cmpVal: seq<bv32>, newVal: seq<bv32>)
      requires |cmpVal| == |newVal| && 1 <= |cmpVal| <= 2
      ensures Valid() && fresh(fInputVals) && fresh(fOldVal)
      ensures fSize == 8 * |cmpVal| && fInputVals[..fSize / 4] == cmpVal + newVal
    {
      fInputVals := new bv32[4];
      fOldVal := new bv32[2];
      fSize := 8;
      new;
      SetInputVals(cmpVal, newVal);
    }

    method SetInputVals(cmpVal: seq<bv32>, newVal: seq<bv32>)
      requires Valid() && |cmpVal| == |newVal| && 1 <= |cmpVal| <= 2
      modifies this`fSize, fInputVals
      ensures Valid() && fSize == 8 * |cmpVal|
      ensures fInputVals[..fSize / 4] == cmpVal + newVal
    {
      var size := |cmpVal|;
      var i := 0;
      while i < size
        invariant 0 <= i <= size
        invariant forall k :: 0 <= k < i ==> fInputVals[k] == cmpVal[k] && fInputVals[size + k] == newVal[k]
      {
        fInputVals[i] := cmpVal[i];
        fInputVals[size + i] := newVal[i];
        i := i + 1;
      }
      fSize := 8 * size;
    }

    // The response; size is its length in bytes.
    method GotPacket(rcode: nat, data: seq<bv32>, size: nat) returns (status: Status)
      requires Valid() && 4 * |data| == size
      modifies fOldVal
      ensures rcode != RESPONSE_COMPLETE ==> status == Response(rcode) && fOldVal[..] == old(fOldVal[..])
      ensures rcode == RESPONSE_COMPLETE ==> status == if size == fSize / 2 then Success else InvalidResponseLength
      ensures status == Success ==> fOldVal[..fSize / 8] == data
    {
      var result := Success;
      if rcode != RESPONSE_COMPLETE {
        return Response(rcode);
      }
      if size != fSize / 2 {
        result := InvalidResponseLength;
      }
      var clippedSize := size;
      if clippedSize > 8 {
        clippedSize := 8;
      }
      var i := 0;
      while i < clippedSize / 4
        invariant 0 <= i <= clippedSize / 4 <= |data|
        invariant forall k :: 0 <= k < i ==> fOldVal[k] == data[k]
      {
        fOldVal[i] := data[i];
        i := i + 1;
      }
      return result;
    }

    method Locked(oldVal: array<bv32>) returns (result: bool)
      requires Valid() && oldVal.Length >= fSize / 8 && oldVal != fInputVals && oldVal != fOldVal
      modifies oldVal
      ensures result <==> fInputVals[..fSize / 8] == fOldVal[..fSize / 8]
      ensures oldVal[..fSize / 8] == fOldVal[..fSize / 8]
    {
      var i := 0;
      result := true;
      while i < fSize / 8
        invariant 0 <= i <= fSize / 8
        invariant result <==> forall k :: 0 <= k < i ==> fInputVals[k] == fOldVal[k]
        invariant forall k :: 0 <= k < i ==> oldVal[k] == fOldVal[k]
      {
        result := result && fInputVals[i] == fOldVal[i];
        oldVal[i] := fOldVal[i];
        i := i + 1;
      }
    }
  }

  // One lock transaction, request to result. locked says whether the memory
  // held the compare value, which is exactly when it was replaced.
  method Transact(space: AddressSpace, at: nat, cmd: CompareAndSwapCommand, cmpVal: seq<bv32>, newVal: seq<bv32>,
                  oldVal: array<bv32>)
    returns (status: Status, locked: bool)
    requires cmd.Valid() && |cmpVal| == |newVal| && 1 <= |cmpVal| <= 2 && oldVal.Length == 2
    requires oldVal != cmd.fInputVals && oldVal != cmd.fOldVal && oldVal != space.memory
    requires space.memory != cmd.fInputVals && space.memory != cmd.fOldVal
    modifies cmd, cmd.fInputVals, cmd.fOldVal, space.memory, oldVal
    ensures status == Success <==> at + |cmpVal| <= space.memory.Length
    ensures status == Success ==>
              var was := old(space.memory[..])[at..at + |cmpVal|];
              && (locked <==> was == cmpVal)
              && oldVal[..|cmpVal|] == was
              && space.memory[..] == (if was != cmpVal then old(space.memory[..]) else
                                        old(space.memory[..])[..at] + newVal + old(space.memory[..])[at + |cmpVal|..])
    ensures status != Success ==> space.memory[..] == old(space.memory[..]) && !locked
  {
    cmd.SetInputVals(cmpVal, newVal);
    var payload := cmd.fInputVals[..cmd.fSize / 4];
    assert payload == cmpVal + newVal && AddressSpace.LockSize(cmd.fSize) == |cmpVal|;
    assert payload[..|cmpVal|] == cmpVal && payload[|cmpVal|..2 * |cmpVal|] == newVal;
    hide AddressSpace.LockSize;
    var ret, outLen, data := space.DoLock(at, cmd.fSize, payload, COMPARE_SWAP);
    locked := false;
    if ret == RESPONSE_COMPLETE {
      status := cmd.GotPacket(ret, data, outLen);
      assert cmd.fInputVals[..|cmpVal|] == payload[..|cmpVal|];
      locked := cmd.Locked(oldVal);
    } else {
      status := cmd.GotPacket(ret, [], 0);
    }
  }

  // Of two requesters that compare with the same value, the second wins only
  // if the first wrote that value back: a turn that fails although its value
  // was read earlier means another agent has updated the memory.
  lemma FailureMeansProgress(before: seq<bv32>, now: seq<bv32>, at: nat, cmp: seq<bv32>, new_: seq<bv32>)
    requires |cmp| == |new_| > 0 && at + |cmp| <= |before| == |now|
    requires before[at..at + |cmp|] == cmp && cmp != new_
    ensures Swapped(now, at, cmp, new_) == now <==> now[at..at + |cmp|] != before[at..at + |cmp|]
    ensures now[at..at + |cmp|] == before[at..at + |cmp|] ==> Swapped(now, at, cmp, new_)[at..at + |cmp|] == new_
  {
    var swapped := now[..at] + new_ + now[at + |cmp|..];
    assert swapped[at..at + |cmp|] == new_;
  }
}
