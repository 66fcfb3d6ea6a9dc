/**
 The packet engine of the DCL translator: a group of send commands makes one
 packet, a group of receive commands takes one.
 Source: IOFWDCLTranslator.cpp.
 */
module DclGroups {

  type byte = b: int | 0 <= b < 256

  datatype Op = SendStart | Send | ReceiveStart | Receive | Other

  // A command with the buffer it points to; Other commands move no data.
  datatype Command = Command(op: Op, buffer: seq<byte>)

  function Min(a: nat, b: nat): nat {
    if a < b then a else b
  }

  // The first command from i on that moves data.
  function First(program: seq<Command>, i: nat): (j: nat)
    requires i <= |program|
    ensures i <= j <= |program| && (j < |program| ==> program[j].op != Other)
    ensures forall k :: i <= k < j ==> program[k].op == Other
    decreases |program| - i
  {
    if i == |program| || program[i].op != Other then i else First(program, i + 1)
  }

  // The end of the group that command i is in: as long as the next command
  // continues it with op.
  function GroupEnd(program: seq<Command>, i: nat, op: Op): (j: nat)
    requires i < |program|
    ensures i < j <= |program|
    decreases |program| - i
  {
    if i + 1 < |program| && program[i + 1].op == op then GroupEnd(program, i + 1, op) else i + 1
  }

  // The buffers of commands i to j, one after the other.
  function Contents(program: seq<Command>, i: nat, j: nat): (bytes: seq<byte>)
    requires i <= j <= |program|
    decreases j
  {
    if i == j then [] else Contents(program, i, j - 1) + program[j - 1].buffer
  }

  lemma ContentsNext(program: seq<Command>, i: nat, k: nat)
    requires i <= k < |program|
    ensures Contents(program, i, k + 1) == Contents(program, i, k) + program[k].buffer
    ensures Contents(program, i, i) == []
  {
  }

  // The command after one of the group, if any is left.
  lemma {:induction false} GroupFrom(program: seq<Command>, i: nat, k: nat, op: Op)
    requires i < |program| && i <= k < GroupEnd(program, i, op)
    ensures GroupEnd(program, k, op) == GroupEnd(program, i, op)
    ensures k + 1 < GroupEnd(program, i, op) <==> k + 1 < |program| && program[k + 1].op == op
    ensures k > i ==> program[k].op == op
    decreases k
  {
    if k > i {
      GroupFrom(program, i, k - 1, op);
    }
  }

  // The buffers of a group up to command k, and those of the whole group.
  lemma {:induction false} GroupPart(program: seq<Command>, i: nat, k: nat, e: nat)
    requires i <= k <= e <= |program|
    ensures |Contents(program, i, k)| <= |Contents(program, i, e)|
    decreases e
  {
    if k < e {
      GroupPart(program, i, k, e - 1);
    }
  }

  // Buffers of the same size, and everything but buffers i to j the same.
  predicate SameShape(a: seq<Command>, b: seq<Command>, i: nat, j: nat) {
    && |a| == |b|
    && (forall k :: 0 <= k < |a| ==> a[k].op == b[k].op && |a[k].buffer| == |b[k].buffer|)
    && forall k :: 0 <= k < |a| && !(i <= k < j) ==> a[k] == b[k]
  }

  lemma {:induction false} ContentsShape(a: seq<Command>, b: seq<Command>, i: nat, j: nat)
    requires |a| == |b| && i <= j <= |a|
    requires forall k :: i <= k < j ==> |a[k].buffer| == |b[k].buffer|
    ensures |Contents(a, i, j)| == |Contents(b, i, j)|
    ensures (forall k :: i <= k < j ==> a[k].buffer == b[k].buffer) ==> Contents(a, i, j) == Contents(b, i, j)
    decreases j
  {
    if i < j {
      ContentsShape(a, b, i, j - 1);
    }
  }

  lemma {:induction false} GroupShape(a: seq<Command>, b: seq<Command>, i: nat, op: Op)
    requires |a| == |b| && i < |a| && forall k :: 0 <= k < |a| ==> a[k].op == b[k].op
    ensures GroupEnd(a, i, op) == GroupEnd(b, i, op)
    decreases |a| - i
  {
    if i + 1 < |a| && a[i + 1].op == op {
      GroupShape(a, b, i + 1, op);
    }
  }

  // ----- a packet laid into buffers -----

  // Memory after as much of data as fits was put at its start.
  function Fill(memory: seq<byte>, data: seq<byte>): (now: seq<byte>)
    ensures |now| == |memory|
  {
    var n := Min(|memory|, |data|);
    data[..n] + memory[n..]
  }

  lemma FillNothing(data: seq<byte>)
    ensures Fill([], data) == []
  {
  }

  // One buffer more takes what the buffers before it left.
  lemma FillMore(memory: seq<byte>, buffer: seq<byte>, data: seq<byte>)
    ensures Fill(memory + buffer, data) == Fill(memory, data) + Fill(buffer, data[Min(|memory|, |data|)..])
  {
    var m := Min(|memory|, |data|);
    var n := Min(|memory + buffer|, |data|);
    assert (memory + buffer)[n..] == (if n < |memory| then memory[n..] + buffer else buffer[n - |memory|..]);
    assert data[..n] == data[..m] + data[m..n];
  }

  // One command of a group takes its part of the data.
  lemma CommandTakes(was: seq<Command>, before: seq<Command>, j: nat, at: nat, data: seq<byte>, rest: seq<byte>)
    requires j <= at < |was| && SameShape(before, was, j, at)
    requires Contents(before, j, at) == Fill(Contents(was, j, at), data)
    requires rest == data[Min(|Contents(was, j, at)|, |data|)..]
    ensures var now := before[at := Command(was[at].op, Fill(was[at].buffer, rest))];
            && SameShape(now, was, j, at + 1)
            && Contents(now, j, at + 1) == Fill(Contents(was, j, at + 1), data)
    ensures rest[Min(|was[at].buffer|, |rest|)..] == data[Min(|Contents(was, j, at + 1)|, |data|)..]
  {
    hide Fill;
    var now := before[at := Command(was[at].op, Fill(was[at].buffer, rest))];
    ContentsShape(now, before, j, at);
    FillMore(Contents(was, j, at), was[at].buffer, data);
  }

  // ----- the packet header -----

  // Data length in the upper half, the rest in the lower, big endian.
  function Header(length: nat, low: nat): (h: seq<byte>)
    requires length < 0x1_0000 && low < 0x1_0000
    ensures |h| == 4
  {
    var lengthHigh: int := length / 256;
    var lowHigh: int := low / 256;
    [lengthHigh, length % 256, lowHigh, low % 256]
  }

  function DataLength(h: seq<byte>): nat
    requires |h| == 4
  {
    var high: int := h[0];
    var rest: int := h[1];
    high * 256 + rest
  }

  // The header is one big-endian number.
  lemma HeaderIsNumber(length: nat, low: nat)
    requires length < 0x1_0000 && low < 0x1_0000
    ensures var h := Header(length, low);
            h[0] as int * 0x100_0000 + h[1] as int * 0x1_0000 + h[2] as int * 0x100 + h[3] as int
            == length * 0x1_0000 + low
  {
  }

  // What a reader takes for the length is the upper half, whatever the lower.
  lemma DataLengthIsUpperHalf(h: seq<byte>)
    requires |h| == 4
    ensures DataLength(h) ==
            (h[0] as int * 0x100_0000 + h[1] as int * 0x1_0000 + h[2] as int * 0x100 + h[3] as int) / 0x1_0000
  {
  }

  lemma HeaderRoundTrip(length: nat, low: nat)
    requires length < 0x1_0000 && low < 0x1_0000
    ensures DataLength(Header(length, low)) == length
  {
  }
}

module DclPackets {
  import opened DclGroups

  class Talker {
    const program: seq<Command>
    var current: nat
    var low: nat

    constructor (program: seq<Command>, low: nat)
      requires forall i :: 0 <= i < |program| ==> program[i].op in {SendStart, Send, Other}
      requires low < 0x1_0000
      ensures this.program == program && current == 0 && this.low == low && Valid()
    {
      this.program, current, this.low := program, 0, low;
    }

    ghost predicate Valid()
      reads this
    {
      && current <= |program| && low < 0x1_0000
      && forall i :: 0 <= i < |program| ==> program[i].op in {SendStart, Send, Other}
    }

    // Runs one command; size counts the header.
    method RunEngine(packet: array<byte>, size: nat) returns (newSize: nat, getNextPacket: bool)
      requires Valid() && current < |program|
      requires program[current].op != Other ==> size + |program[current].buffer| <= packet.Length
      modifies this`current, packet
      ensures Valid() && current == old(current) + 1
      ensures program[old(current)].op == Other ==>
                newSize == size && !getNextPacket && packet[..] == old(packet[..])
      ensures program[old(current)].op != Other ==>
                && newSize == size + |program[old(current)].buffer|
                && packet[..newSize] == old(packet[..size]) + program[old(current)].buffer
                && (getNextPacket <==> !(current < |program| && program[current].op == Send))
    {
      var command := program[current];
      if command.op == SendStart || command.op == Send {
        forall k | size <= k < size + |command.buffer| {
          packet[k] := command.buffer[k - size];
        }
        newSize := size + |command.buffer|;
        getNextPacket := true;
        if current + 1 < |program| {
          if program[current + 1].op == Send {
            getNextPacket := false;
          }
        }
      } else {
        newSize := size;
        getNextPacket := false;
      }
      current := current + 1;
    }

    // The buffers of the next group of send commands.
    function NextSent(): seq<byte>
      requires current <= |program|
      reads this`current
    {
      var j := First(program, current);
      if j == |program| then [] else Contents(program, j, GroupEnd(program, j, Send))
    }

    // One packet: the next group of send commands, behind its header.
    method TalkPacket(packet: array<byte>) returns (size: nat)
      requires Valid() && |NextSent()| < 0x1_0000 && 4 + |NextSent()| <= packet.Length
      modifies this`current, packet
      ensures Valid()
      ensures var j, bytes := First(program, old(current)), old(NextSent());
              && size == 4 + |bytes| && packet[4..size] == bytes
              && (packet[0] as int * 0x100_0000 + packet[1] as int * 0x1_0000 + packet[2] as int * 0x100
                  + packet[3] as int) == |bytes| * 0x1_0000 + low
              && packet[..size] == Header(|bytes|, low) + bytes
              && current == if j == |program| then j else GroupEnd(program, j, Send)
    {
      ghost var j := First(program, current);
      size := 4;
      var getNextPacket := false;
      while !getNextPacket && current < |program|
        invariant Valid() && 4 <= size <= packet.Length && old(current) <= current
        invariant if current <= j then !getNextPacket && size == 4
                  else InGroup(j, packet[..size], getNextPacket)
        decreases |program| - current
      {
        if j <= current {
          GroupFrom(program, j, current, Send);
        }
        if program[current].op == Other {
          size, getNextPacket := RunEngine(packet, size);
        } else {
          size, getNextPacket := TalkCommand(packet, size, j);
        }
      }
      if j == |program| {
        assert packet[4..size] == [];
      }
      HeaderIsNumber(size - 4, low);
      WriteHeader(packet, size - 4);
      assert packet[..size][..4] == Header(size - 4, low);
    }

    // The commands of the group at j up to current are in the packet.
    ghost predicate InGroup(j: nat, packet: seq<byte>, done: bool)
      requires current <= |program|
      reads this
    {
      && j < current <= GroupEnd(program, j, Send)
      && |packet| >= 4 && packet[4..] == Contents(program, j, current)
      && (done <==> current == GroupEnd(program, j, Send))
    }

    method TalkCommand(packet: array<byte>, size: nat, ghost j: nat) returns (newSize: nat, getNextPacket: bool)
      requires Valid() && j <= current < |program| && program[j].op != Other && 4 <= size <= packet.Length
      requires if current == j then size == 4 else InGroup(j, packet[..size], false)
      requires 4 + |Contents(program, j, GroupEnd(program, j, Send))| <= packet.Length
      modifies this`current, packet
      ensures Valid() && current == old(current) + 1 && 4 <= newSize <= packet.Length
      ensures InGroup(j, packet[..newSize], getNextPacket)
    {
      hide GroupEnd, Contents;
      GroupFrom(program, j, current, Send);
      GroupPart(program, j, current + 1, GroupEnd(program, j, Send));
      ContentsNext(program, j, current);
      ghost var before := packet[..size];
      assert before[4..] == Contents(program, j, current);
      newSize, getNextPacket := RunEngine(packet, size);
      assert packet[..newSize][4..] == before[4..] + program[current - 1].buffer;
    }

    method WriteHeader(packet: array<byte>, length: nat)
      requires packet.Length >= 4 + length && length < 0x1_0000 && low < 0x1_0000
      modifies packet
      ensures packet[..4 + length] == Header(length, low) + old(packet[4..4 + length])
    {
      var h := Header(length, low);
      packet[0], packet[1], packet[2], packet[3] := h[0], h[1], h[2], h[3];
    }
  }

  class Listener {
    var program: seq<Command>
    var current: nat

    constructor (program: seq<Command>)
      requires forall i :: 0 <= i < |program| ==> program[i].op in {ReceiveStart, Receive, Other}
      ensures this.program == program && current == 0
    {
      this.program, current := program, 0;
    }

    ghost predicate Valid()
      reads this
    {
      && current <= |program|
      && forall i :: 0 <= i < |program| ==> program[i].op in {ReceiveStart, Receive, Other}
    }

    // Runs one command with the rest of the packet.
    method RunEngine(header: seq<byte>, rest: seq<byte>) returns (newRest: seq<byte>, getNextPacket: bool)
      requires Valid() && current < |program| && |header| == 4
      requires program[current].op == ReceiveStart ==> |program[current].buffer| >= 4
      modifies this
      ensures Valid() && current == old(current) + 1
      ensures old(program[current].op) == Other ==>
                newRest == rest && !getNextPacket && program == old(program)
      ensures old(program[current].op) != Other ==>
                var data := if old(program[current].op) == ReceiveStart then header + rest else rest;
                var buffer := old(program[current].buffer);
                && program == old(program)[old(current) := Command(old(program[current].op), Fill(buffer, data))]
                && newRest == data[Min(|buffer|, |data|)..]
                && (getNextPacket <==> !(current < |program| && program[current].op == Receive))
    {
      var command := program[current];
      newRest := rest;
      getNextPacket := false;
      if command.op == ReceiveStart {
        var transferSize := |command.buffer| - 4;
        if transferSize > |rest| {
          transferSize := |rest|;
        }
        var buffer := header + command.buffer[4..];
        if transferSize > 0 {
          buffer := header + rest[..transferSize] + command.buffer[4 + transferSize..];
          newRest := rest[transferSize..];
        }
        assert buffer == Fill(command.buffer, header + rest);
        assert newRest == (header + rest)[Min(|command.buffer|, |header + rest|)..];
        program := program[current := Command(ReceiveStart, buffer)];
        getNextPacket := LastOfGroup();
      } else if command.op == Receive {
        var transferSize := |command.buffer|;
        if transferSize > |rest| {
          transferSize := |rest|;
        }
        var buffer := command.buffer;
        if transferSize > 0 {
          buffer := rest[..transferSize] + command.buffer[transferSize..];
          newRest := rest[transferSize..];
        }
        assert buffer == Fill(command.buffer, rest);
        program := program[current := Command(Receive, buffer)];
        getNextPacket := LastOfGroup();
      }
      current := current + 1;
    }

    method LastOfGroup() returns (last: bool)
      requires current < |program|
      ensures last <==> !(current + 1 < |program| && program[current + 1].op == Receive)
    {
      last := true;
      if current + 1 < |program| {
        if program[current + 1].op == Receive {
          last := false;
        }
      }
    }

    // Takes one packet, whose header tells how long it is: header and data are
    // put into the buffers of the next group, one after the other, as far as
    // they fit.
    method ListenPacket(packet: seq<byte>)
      requires Valid() && |packet| >= 4 && |packet| >= 4 + DataLength(packet[..4])
      requires var j := First(program, current);
               j < |program| ==>
                 && program[j].op == ReceiveStart
                 && forall k :: 0 <= k < |program| && program[k].op == ReceiveStart ==> |program[k].buffer| >= 4
      modifies this
      ensures Valid()
      ensures var was, j := old(program), First(old(program), old(current));
              if j == |was| then program == was && current == j
              else
                var e := GroupEnd(was, j, Receive);
                && current == e && SameShape(program, was, j, e)
                && Contents(program, j, e) == Fill(Contents(was, j, e), packet[..4 + DataLength(packet[..4])])
    {
      ghost var was, j := program, First(program, current);
      var header := packet[..4];
      var packetSize := DataLength(header);
      ghost var payload := packet[4..4 + packetSize];
      assert packet[..4 + packetSize] == header + payload;
      var rest := packet[4..4 + packetSize];
      var getNextPacket := false;
      while !getNextPacket && current < |program|
        invariant Valid() && old(current) <= current && |program| == |was|
        invariant if current <= j then !getNextPacket && program == was && rest == payload
                  else InGroup(was, j, header + payload, rest, getNextPacket)
        decreases |program| - current
      {
        if j <= current {
          GroupFrom(was, j, current, Receive);
        }
        if program[current].op == Other {
          rest, getNextPacket := RunEngine(header, rest);
        } else {
          rest, getNextPacket := ListenCommand(was, j, header, payload, rest);
        }
      }
    }

    // The commands of the group at j up to current have taken their part of the
    // data.
    ghost predicate InGroup(was: seq<Command>, j: nat, data: seq<byte>, rest: seq<byte>, done: bool)
      requires current <= |was|
      reads this
    {
      && j < current <= GroupEnd(was, j, Receive) && SameShape(program, was, j, current)
      && Contents(program, j, current) == Fill(Contents(was, j, current), data)
      && rest == data[Min(|Contents(was, j, current)|, |data|)..]
      && (done <==> current == GroupEnd(was, j, Receive))
    }

    method ListenCommand(ghost was: seq<Command>, ghost j: nat, header: seq<byte>, ghost payload: seq<byte>,
                         rest: seq<byte>)
      returns (newRest: seq<byte>, getNextPacket: bool)
      requires Valid() && j <= current < |program| == |was| && was[j].op == ReceiveStart && |header| == 4
      requires |was[j].buffer| >= 4
      requires if current == j then program == was && rest == payload
               else InGroup(was, j, header + payload, rest, false)
      modifies this
      ensures Valid() && current == old(current) + 1 && |program| == |was|
      ensures InGroup(was, j, header + payload, newRest, getNextPacket)
    {
      hide GroupEnd, Contents, Fill;
      GroupFrom(was, j, current, Receive);
      ContentsNext(was, j, current);
      ContentsNext(program, j, current);
      FillNothing(header + payload);
      ghost var before, at := program, current;
      ghost var data := header + payload;
      CommandTakes(was, before, j, at, data, if at == j then data else rest);
      newRest, getNextPacket := RunEngine(header, rest);
    }
  }

  // What the buffers of a receive group hold once they have taken a packet:
  // the header, as many bytes sent as fit, and then what they held before.
  predicate Delivered(got: seq<byte>, memory: seq<byte>, header: seq<byte>, sent: seq<byte>) {
    && |got| == |memory| >= 4 == |header|
    && var n := Min(|memory| - 4, |sent|);
       got[..4] == header && got[4..4 + n] == sent[..n] && got[4 + n..] == memory[4 + n..]
  }

  lemma StreamPreserved(sent: seq<byte>, memory: seq<byte>, header: seq<byte>)
    requires |memory| >= 4 == |header|
    ensures Delivered(Fill(memory, header + sent), memory, header, sent)
  {
    var data := header + sent;
    var m := Min(|memory|, |data|);
    assert data[..m][4..] == sent[..m - 4];
  }

  // The next group of a listener starts with a command that takes the header.
  predicate Receives(l: Listener)
    requires l.current <= |l.program|
    reads l
  {
    var j := First(l.program, l.current);
    && j < |l.program| && l.program[j].op == ReceiveStart
    && forall k :: 0 <= k < |l.program| && l.program[k].op == ReceiveStart ==> |l.program[k].buffer| >= 4
  }

  // From end to end: the packet the talker makes of its next group, taken by the
  // listener, which knows its length from the header alone.
  method Stream(t: Talker, l: Listener, packet: array<byte>)
    requires t.Valid() && l.Valid() && Receives(l)
    requires |t.NextSent()| < 0x1_0000 && 4 + |t.NextSent()| <= packet.Length
    modifies t`current, l, packet
    ensures t.Valid() && l.Valid()
    ensures var was, j := old(l.program), First(old(l.program), old(l.current));
            var e := GroupEnd(was, j, Receive);
            && l.current == e && SameShape(l.program, was, j, e)
            && var got, memory, sent := Contents(l.program, j, e), Contents(was, j, e), old(t.NextSent());
               var n := if |sent| < |memory| - 4 then |sent| else |memory| - 4;
               && |got| == |memory| >= 4
               && got[0] as int * 0x100_0000 + got[1] as int * 0x1_0000 + got[2] as int * 0x100 + got[3] as int
                  == |sent| * 0x1_0000 + t.low
               && got[4..4 + n] == sent[..n] && got[4 + n..] == memory[4 + n..]
  {
    hide Fill, Contents, Header;
    ghost var sent := t.NextSent();
    ghost var was, j := l.program, First(l.program, l.current);
    ghost var e := GroupEnd(was, j, Receive);
    var size := t.TalkPacket(packet);
    ghost var header := Header(|sent|, t.low);
    assert packet[..size] == header + sent;
    assert packet[..size][..4] == header;
    HeaderRoundTrip(|sent|, t.low);
    l.ListenPacket(packet[..size]);
    assert packet[..size][..size] == packet[..size];
    GroupPart(was, j, j + 1, e);
    ContentsNext(was, j, j);
    StreamPreserved(sent, Contents(was, j, e), header);
    HeaderIsNumber(|sent|, t.low);
    assert Contents(l.program, j, e)[..4] == header;
  }
}
