/**
 The writer of the circular log: it gives up the oldest entries, appends one,
 and publishes it, while a reader may look at the log after any single store.
 Source: IOFireLog.cpp (logString), IOFireLogPriv.h.
 */
module FireLogWriter {
  import opened FireLogReader

  const WORD: nat := 0x1_0000_0000

  // A 32-bit counter of quadlets may pass zero again exactly when the size of
  // the log divides its range: otherwise offsets jump there.
  lemma CounterMayWrap(n: nat, word: nat)
    requires n > 0 && word > 0
    ensures (forall x: nat :: (x % word) % n == x % n) <==> word % n == 0
  {
    if word % n == 0 {
      forall x: nat
        ensures (x % word) % n == x % n
      {
        SameOffset(x, n, word);
      }
    } else {
      assert (word % word) % n == 0;
    }
  }

  // The shipped log of 12 megabytes is such a log.
  lemma ShippedLogMayNotWrap()
    ensures !(forall x: nat :: (x % WORD) % 0x30_0000 == x % 0x30_0000)
  {
    CounterMayWrap(0x30_0000, WORD);
  }

  // The length in bytes that the log gives an entry whose text has n bytes, its
  // terminating zero included: uptime, cycle time, text, length, rounded up.
  function EntryLength(n: nat): nat {
    (8 + 4 + n + 4 + 3) / 4 * 4
  }

  // The bytes written up to the next length word are that length but one word,
  // so the reader, who goes by the length, meets the next length word.
  lemma EntryLengthIsWhatIsWritten(n: nat)
    ensures EntryLength(n) == 4 + 8 + 4 + (n + 3) / 4 * 4
    ensures 1 <= n <= 255 ==> 5 * 4 <= EntryLength(n) <= 68 * 4
    ensures EntryLength(n) % 4 == 0
  {
  }

  // Storing at offset i touches no word of a chain from s to e.
  predicate Free(s: Pos, e: Pos, i: nat) {
    if s.lap == e.lap then i < s.off || e.off <= i else e.off <= i < s.off
  }

  predicate Delivers(snap: Snapshot, es: seq<Entry>) {
    && |snap.log| > 0
    && ReadAll(snap.log, snap.start, snap.end) == Some(Payloads(es))
  }

  // What the reader gets is a run of consecutive entries, whole and unmodified.
  ghost predicate DeliversARun(snap: Snapshot, all: seq<Entry>) {
    exists lo: nat, hi: nat :: DeliversRange(snap, all, lo, hi)
  }

  predicate DeliversRange(snap: Snapshot, all: seq<Entry>, lo: nat, hi: nat) {
    lo <= hi <= |all| && Delivers(snap, all[lo..hi])
  }

  ghost predicate AllDeliverRuns(trace: seq<Snapshot>, all: seq<Entry>) {
    forall k :: 0 <= k < |trace| ==> DeliversARun(trace[k], all)
  }

  lemma RunsGrow(was: seq<Snapshot>, trace: seq<Snapshot>, all: seq<Entry>, e: Entry, lo: nat)
    requires was < trace && AllDeliverRuns(was, all) && lo <= |all|
    requires forall k :: |was| <= k < |trace| - 1 ==> Delivers(trace[k], all[lo..])
    requires Delivers(trace[|trace| - 1], (all + [e])[lo..])
    ensures AllDeliverRuns(trace, all + [e])
  {
    hide Delivers;
    var now := all + [e];
    forall k | 0 <= k < |trace|
      ensures DeliversARun(trace[k], now)
    {
      if k < |was| {
        assert was[k] == trace[k];
        var l: nat, h: nat :| DeliversRange(trace[k], all, l, h);
        assert now[l..h] == all[l..h];
        assert DeliversRange(trace[k], now, l, h);
      } else if k < |trace| - 1 {
        assert now[lo..|all|] == all[lo..];
        assert DeliversRange(trace[k], now, lo, |all|);
      } else {
        assert now[lo..|now|] == now[lo..];
        assert DeliversRange(trace[k], now, lo, |now|);
      }
    }
  }

  // A store in the free space changes no live entry.
  lemma FreeStore(log: seq<nat>, max: nat, s: Pos, es: seq<Entry>, e: Pos, i: nat, w: nat)
    requires max < |log| && i < |log| && e.off < |log| && Chain(|log|, max, s, es, e) && Window(s, e)
    requires AllStored(log, es) && Free(s, e, i)
    ensures AllStored(log[i := w], es)
  {
    hide Chain, Window;
    ChainExtent(|log|, max, s, es, e);
    forall j | 0 <= j < |es|
      ensures Stored(log[i := w], es[j])
    {
      StoredOutside(log, es[j], i, w);
    }
  }

  // Offset i holds a word of the entry.
  predicate WordOf(n: nat, e: Entry, i: nat) {
    i == e.pos.off || DataOffset(n, e.pos.off, e.Quads()) <= i < DataOffset(n, e.pos.off, e.Quads()) + |e.payload|
  }

  lemma StoredOutside(log: seq<nat>, e: Entry, i: nat, w: nat)
    requires i < |log| && Stored(log, e) && !WordOf(|log|, e, i)
    ensures Stored(log[i := w], e)
  {
    var data := DataOffset(|log|, e.pos.off, e.Quads());
    assert log[i := w][data..data + |e.payload|] == log[data..data + |e.payload|];
  }

  // The first entry of a chain, and what remains without it.
  lemma ChainHead(n: nat, max: nat, s: Pos, all: seq<Entry>, k: nat, e: Pos)
    requires k <= |all| && Chain(n, max, s, all[k..], e) && s != e
    ensures k < |all| && all[k].pos == s && s.off < n && 2 <= all[k].Quads() <= max
    ensures Chain(n, max, Next(n, s, all[k].Quads()), all[k + 1..], e)
    ensures Next(n, s, all[k].Quads()).lap <= e.lap
  {
    assert all[k..][1..] == all[k + 1..];
    ChainOrder(n, max, Next(n, s, all[k].Quads()), all[k + 1..], e);
  }

  class FireLog {
    const max: nat
    const log: array<nat>
    var start: nat
    var end: nat
    var fNeedSpace: bool
    // Every entry ever logged; those from first on are live.
    ghost var all: seq<Entry>
    ghost var first: nat
    ghost var startPos: Pos
    ghost var endPos: Pos
    // Header and log after each store so far.
    ghost var trace: seq<Snapshot>

    // The live entries can be read from start to end.
    ghost predicate Readable()
      reads this, log
    {
      && 2 <= max && 2 * max <= log.Length
      && first <= |all|
      && startPos.off < log.Length && endPos.off < log.Length
      && start == Encoded(log.Length, startPos) && end == Encoded(log.Length, endPos)
      && Chain(log.Length, max, startPos, all[first..], endPos)
      && AllStored(log[..], all[first..])
      && Window(startPos, endPos)
    }

    ghost predicate Valid()
      reads this, log
    {
      && Readable()
      && log[endPos.off] == 0
      && (fNeedSpace <==> endPos.lap >= 1)
      && (!fNeedSpace ==> startPos == Pos(0, 0))
      && (fNeedSpace ==> startPos != endPos)
      && AllDeliverRuns(trace, all)
    }

    constructor (n: nat, maxQuads: nat)
      requires 2 <= maxQuads && 2 * maxQuads <= n
      ensures Valid() && fresh(log) && log.Length == n && max == maxQuads && all == [] && trace == []
    {
      max := maxQuads;
      log := new nat[n](i => 0);
      start, end, fNeedSpace := 0, 0, false;
      all, first, startPos, endPos, trace := [], 0, Pos(0, 0), Pos(0, 0), [];
    }

    ghost method Snap()
      requires Readable()
      modifies this`trace
      ensures trace == old(trace) + [Snapshot(log[..], start, end)]
      ensures Delivers(trace[|old(trace)|], all[first..])
    {
      ReaderFollowsChain(log[..], max, startPos, all[first..], endPos);
      trace := trace + [Snapshot(log[..], start, end)];
    }

    // One 32-bit store into the free part of the log.
    method StoreWord(i: nat, w: nat)
      requires Readable() && i < log.Length && Free(startPos, endPos, i)
      modifies this`trace, log
      ensures Readable() && log[..] == old(log[..])[i := w]
      ensures |trace| == |old(trace)| + 1 && old(trace) <= trace && Delivers(trace[|old(trace)|], all[first..])
    {
      FreeStore(log[..], max, startPos, all[first..], endPos, i, w);
      log[i] := w;
      assert log[..] == old(log[..])[i := w];
      Snap();
    }

    // Moves a candidate start over one entry.
    method NextStart(cur: nat, newStart: nat, ghost p: Pos, ghost k: nat)
      returns (cur': nat, newStart': nat, wrapped: bool, ghost p': Pos)
      requires Readable() && first <= k <= |all| && p != endPos
      requires p.off == cur && newStart == Encoded(log.Length, p)
      requires Chain(log.Length, max, p, all[k..], endPos)
      ensures k < |all| && all[k].pos == p && p' == Next(log.Length, p, all[k].Quads())
      ensures Chain(log.Length, max, p', all[k + 1..], endPos) && p'.lap <= endPos.lap
      ensures p'.off == cur' && newStart' == Encoded(log.Length, p') && cur' < log.Length
      ensures wrapped == (p'.lap == p.lap + 1) && (!wrapped ==> p'.lap == p.lap && p.off < p'.off)
    {
      hide Encoded, Window;
      ChainHead(log.Length, max, p, all, k, endPos);
      assert all[first..][k - first] == all[k];
      assert Stored(log[..], all[k]);
      NextEncoded(log.Length, p, all[k].Quads());
      p' := Next(log.Length, p, all[k].Quads());
      var quads := log[cur] / 4;
      if cur + quads < log.Length {
        newStart', cur', wrapped := newStart + quads, cur + quads, false;
      } else {
        newStart', cur', wrapped := newStart + (log.Length - cur) + quads - 1, quads - 1, true;
      }
    }

    // Moves a candidate start on until it wraps.
    method WrapStart(cur0: nat, newStart0: nat, ghost p0: Pos, ghost k0: nat)
      returns (cur: nat, newStart: nat, ghost p: Pos, ghost k: nat)
      requires Readable() && first <= k0 <= |all| && p0.lap < endPos.lap
      requires p0.off == cur0 && newStart0 == Encoded(log.Length, p0)
      requires Chain(log.Length, max, p0, all[k0..], endPos)
      ensures k0 <= k <= |all| && p.off == cur && newStart == Encoded(log.Length, p) && cur < log.Length
      ensures Chain(log.Length, max, p, all[k..], endPos)
      ensures p.lap == p0.lap + 1
      ensures forall i :: k0 <= i < k ==> all[i].pos.lap == p0.lap
    {
      hide Chain, Encoded, Window, AllStored;
      cur, newStart, p, k := cur0, newStart0, p0, k0;
      while true
        invariant k0 <= k <= |all| && p.off == cur && newStart == Encoded(log.Length, p)
        invariant Chain(log.Length, max, p, all[k..], endPos)
        invariant p.lap == p0.lap
        invariant forall i :: k0 <= i < k ==> all[i].pos.lap == p0.lap
        decreases |all| - k
      {
        var wrapped;
        cur, newStart, wrapped, p := NextStart(cur, newStart, p, k);
        k := k + 1;
        if wrapped {
          break;
        }
      }
    }

    // Moves a candidate start on until it is at min or beyond, or wraps.
    method WalkStart(cur0: nat, newStart0: nat, min: nat, ghost p0: Pos, ghost k0: nat)
      returns (cur: nat, newStart: nat, ghost p: Pos, ghost k: nat)
      requires Readable() && first <= k0 <= |all| && p0.off < log.Length
      requires p0.lap < endPos.lap || (p0.lap == endPos.lap && min <= endPos.off)
      requires p0.off == cur0 && newStart0 == Encoded(log.Length, p0)
      requires Chain(log.Length, max, p0, all[k0..], endPos)
      ensures k0 <= k <= |all| && p.off == cur && newStart == Encoded(log.Length, p) && cur < log.Length
      ensures Chain(log.Length, max, p, all[k..], endPos)
      ensures (p.lap == p0.lap && min <= p.off) || (p.lap == p0.lap + 1 && p.lap <= endPos.lap)
      ensures forall i :: k0 <= i < k ==> all[i].pos.lap == p0.lap && all[i].pos.off < min
    {
      hide Chain, Encoded, Window, AllStored;
      cur, newStart, p, k := cur0, newStart0, p0, k0;
      while cur < min
        invariant k0 <= k <= |all| && p.off == cur && newStart == Encoded(log.Length, p) && cur < log.Length
        invariant Chain(log.Length, max, p, all[k..], endPos)
        invariant p.lap == p0.lap
        invariant forall i :: k0 <= i < k ==> all[i].pos.lap == p0.lap && all[i].pos.off < min
        decreases |all| - k
      {
        var wrapped;
        cur, newStart, wrapped, p := NextStart(cur, newStart, p, k);
        k := k + 1;
        if wrapped {
          break;
        }
      }
    }

    // Every snapshot taken since the trace had length from shows es.
    ghost predicate ShowsFrom(from: nat, es: seq<Entry>)
      reads this
    {
      forall k :: from <= k < |trace| ==> Delivers(trace[k], es)
    }

    // Gives up as many of the oldest entries as the new one needs room for.
    method MakeSpace(lengthOff: nat, data: nat, quads: nat)
      requires Valid() && lengthOff == endPos.off && 2 <= quads <= max
      requires data == DataOffset(log.Length, lengthOff, quads)
      modifies this`start, this`fNeedSpace, this`first, this`startPos, this`trace
      ensures Readable() && old(first) <= first
      ensures Window(startPos, Next(log.Length, endPos, quads))
      ensures fNeedSpace <==> Next(log.Length, endPos, quads).lap >= 1
      ensures !fNeedSpace ==> startPos == Pos(0, 0)
      // No entry is given up without need.
      ensures forall i :: old(first) <= i < first ==> !Window(all[i].pos, Next(log.Length, endPos, quads))
      ensures old(trace) <= trace && ShowsFrom(|old(trace)|, all[first..])
    {
      hide Encoded, AllStored, Chain, AllDeliverRuns, Delivers;
      var newStart, cur := start, start % log.Length;
      NextEncoded(log.Length, startPos, 1);
      ghost var p, k := startPos, first;
      if startPos != endPos {
        ChainHead(log.Length, max, startPos, all, first, endPos);
      }
      if data < lengthOff {
        if fNeedSpace {
          if cur > lengthOff {
            cur, newStart, p, k := WrapStart(cur, newStart, p, k);
          }
        } else {
          fNeedSpace := true;
        }
      }
      if fNeedSpace {
        var min := data + quads;
        if !(cur < lengthOff && data > lengthOff) {
          cur, newStart, p, k := WalkStart(cur, newStart, min, p, k);
        }
        ChainOrder(log.Length, max, p, all[k..], endPos);
        MoveStart(newStart, p, k);
      }
    }

    method MoveStart(newStart: nat, ghost p: Pos, ghost k: nat)
      requires Readable() && first <= k <= |all| && p.off < log.Length && newStart == Encoded(log.Length, p)
      requires Chain(log.Length, max, p, all[k..], endPos) && Window(p, endPos)
      modifies this`start, this`first, this`startPos, this`trace
      ensures Readable() && startPos == p && first == k && start == newStart
      ensures |trace| == |old(trace)| + 1 && old(trace) <= trace && Delivers(trace[|old(trace)|], all[first..])
    {
      hide Encoded, Chain, Window;
      assert forall i :: 0 <= i < |all| - k ==> all[k..][i] == all[first..][k - first + i];
      start, first, startPos := newStart, k, p;
      Snap();
    }

    // The copy into the log, one word at a time.
    method Fill(data: nat, payload: seq<nat>)
      requires Readable() && data + |payload| <= log.Length
      requires forall i :: data <= i < data + |payload| ==> Free(startPos, endPos, i)
      modifies this`trace, log
      ensures Readable() && old(trace) <= trace && ShowsFrom(|old(trace)|, all[first..])
      ensures log[data..data + |payload|] == payload
    {
      var j := 0;
      while j < |payload|
        invariant 0 <= j <= |payload|
        invariant Readable() && old(trace) <= trace && ShowsFrom(|old(trace)|, all[first..])
        invariant log[data..data + j] == payload[..j]
      {
        hide Readable, Delivers, Free;
        StoreWord(data + j, payload[j]);
        j := j + 1;
      }
    }

    // Logs one entry: uptime, cycle time and text, as words.
    method LogString(payload: seq<nat>)
      requires Valid() && 1 <= |payload| < max
      requires end + 2 * log.Length < WORD
      modifies this, log
      ensures Valid()
      ensures all == old(all) + [Entry(old(endPos), payload)] && old(first) <= first < |all|
      ensures endPos == Next(log.Length, old(endPos), |payload| + 1)
      // Until the last store a reader sees the old entries that are kept; after
      // it those and the new one.
      ensures old(trace) < trace
      ensures forall k :: |old(trace)| <= k < |trace| - 1 ==> Delivers(trace[k], old(all)[first..])
      ensures trace[|trace| - 1] == Snapshot(log[..], start, end)
      ensures Delivers(trace[|trace| - 1], all[first..])
      // No entry is given up without need.
      ensures forall i :: old(first) <= i < first ==> !Window(all[i].pos, endPos)
    {
      hide Encoded, Chain, AllStored, Delivers, Stored, AllDeliverRuns;
      var quads := |payload| + 1;
      var newEnd := end;
      var lengthOff := end % log.Length;
      NextEncoded(log.Length, endPos, quads);
      var data;
      if lengthOff + quads < log.Length {
        newEnd, data := newEnd + 1, lengthOff + 1;
      } else {
        newEnd, data := newEnd + (log.Length - lengthOff), 0;
      }
      MakeSpace(lengthOff, data, quads);
      WriteEntry(lengthOff, data, payload);
      newEnd := newEnd + quads - 1;
      Publish(newEnd, payload);
      RunsGrow(old(trace), trace, old(all), Entry(old(endPos), payload), first);
    }

    method WriteEntry(lengthOff: nat, data: nat, payload: seq<nat>)
      requires Readable() && lengthOff == endPos.off && 1 <= |payload| < max
      requires data == DataOffset(log.Length, lengthOff, |payload| + 1)
      requires Window(startPos, Next(log.Length, endPos, |payload| + 1))
      modifies this`trace, log
      ensures Readable() && old(trace) <= trace && ShowsFrom(|old(trace)|, all[first..])
      ensures Stored(log[..], Entry(endPos, payload))
      ensures log[Next(log.Length, endPos, |payload| + 1).off] == 0
    {
      hide Encoded, AllStored, Chain, Delivers;
      Fill(data, payload);
      StoreWord(data + |payload|, 0);
      StoreWord(lengthOff, 4 * (|payload| + 1));
      assert log[..][data..data + |payload|] == payload;
    }

    // The last store, of end, makes the new entry readable.
    method Publish(newEnd: nat, payload: seq<nat>)
      requires Readable() && 1 <= |payload| < max && Stored(log[..], Entry(endPos, payload))
      requires newEnd == Encoded(log.Length, Next(log.Length, endPos, |payload| + 1))
      requires Window(startPos, Next(log.Length, endPos, |payload| + 1))
      modifies this`end, this`all, this`endPos, this`trace
      ensures Readable() && end == newEnd && all == old(all) + [Entry(old(endPos), payload)]
      ensures endPos == Next(log.Length, old(endPos), |payload| + 1)
      ensures trace == old(trace) + [Snapshot(log[..], start, end)]
      ensures Delivers(trace[|old(trace)|], all[first..])
    {
      hide Encoded, Stored, Window, Chain;
      ghost var e := Entry(endPos, payload);
      ChainAppend(log.Length, max, startPos, all[first..], e);
      assert (all + [e])[first..] == all[first..] + [e];
      end, all, endPos := newEnd, all + [e], Next(log.Length, endPos, |payload| + 1);
      Snap();
    }
  }
}
