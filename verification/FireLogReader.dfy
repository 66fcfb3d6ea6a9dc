/**
 The circular log as a remote reader sees it: quadlets, a start and an end
 position counted in quadlets since the log was made, and length words.
 Source: IOFireLog.cpp, IOFireLogPriv.h.
 */
module FireLogReader {
  import opened Remainders

  datatype Option<T> = None | Some(value: T)

  // A position: how often the log has wrapped, and the quadlet offset.
  datatype Pos = Pos(lap: nat, off: nat)

  // An entry of quads quadlets, its length word included.
  datatype Entry = Entry(pos: Pos, payload: seq<nat>) {
    function Quads(): nat {
      |payload| + 1
    }
  }

  // The header and the log quadlets at one instant.
  datatype Snapshot = Snapshot(log: seq<nat>, start: nat, end: nat)

  // The counter stored in the header.
  function Encoded(n: nat, p: Pos): nat {
    p.lap * n + p.off
  }

  // The wrapping rule: an entry whose next length word would not be inside the
  // log has its data at the start of the log, after a length word left behind.
  predicate Wraps(n: nat, off: nat, quads: nat) {
    off + quads >= n
  }

  function Next(n: nat, p: Pos, quads: nat): Pos
    requires quads > 0
  {
    if Wraps(n, p.off, quads) then Pos(p.lap + 1, quads - 1) else Pos(p.lap, p.off + quads)
  }

  function DataOffset(n: nat, off: nat, quads: nat): nat {
    if Wraps(n, off, quads) then 0 else off + 1
  }

  // What a remote reader does: from start, follow length words (in bytes)
  // until end. None when it meets a length that makes no sense or misses end.
  function ReadAll(log: seq<nat>, start: nat, end: nat): Option<seq<seq<nat>>>
    requires |log| > 0
    decreases end - start
  {
    if start == end then Some([])
    else if start > end then None
    else
      var off := start % |log|;
      var quads := log[off] / 4;
      if log[off] % 4 != 0 || quads == 0 || quads > |log| then None
      else
        var data := DataOffset(|log|, off, quads);
        var next := if Wraps(|log|, off, quads) then start + (|log| - off) + quads - 1 else start + quads;
        if next <= start then None
        else
          var rest := ReadAll(log, next, end);
          if rest.None? then None else Some([log[data..data + quads - 1]] + rest.value)
  }

  // ----- chains of entries -----

  predicate Chain(n: nat, max: nat, s: Pos, es: seq<Entry>, e: Pos)
    decreases es
  {
    if es == [] then s == e
    else
      && es[0].pos == s && s.off < n && 2 <= es[0].Quads() <= max
      && Chain(n, max, Next(n, s, es[0].Quads()), es[1..], e)
  }

  // The length word and the data are in the log.
  predicate Stored(log: seq<nat>, e: Entry) {
    var data := DataOffset(|log|, e.pos.off, e.Quads());
    && e.pos.off < |log| && log[e.pos.off] == 4 * e.Quads()
    && data + |e.payload| <= |log| && log[data..data + |e.payload|] == e.payload
  }

  predicate AllStored(log: seq<nat>, es: seq<Entry>) {
    forall i :: 0 <= i < |es| ==> Stored(log, es[i])
  }

  function Payloads(es: seq<Entry>): seq<seq<nat>> {
    if es == [] then [] else [es[0].payload] + Payloads(es[1..])
  }

  lemma {:induction false} PayloadsAre(es: seq<Entry>)
    ensures |Payloads(es)| == |es| && forall i :: 0 <= i < |es| ==> Payloads(es)[i] == es[i].payload
  {
    if es != [] {
      PayloadsAre(es[1..]);
    }
  }

  // Start and end are less than one lap apart, the length word at the end
  // included.
  predicate Window(s: Pos, e: Pos) {
    (e.lap == s.lap && s.off <= e.off) || (e.lap == s.lap + 1 && e.off < s.off)
  }

  lemma NextEncoded(n: nat, p: Pos, quads: nat)
    requires p.off < n && quads > 0
    ensures Encoded(n, p) % n == p.off
    ensures Encoded(n, Next(n, p, quads)) ==
            if Wraps(n, p.off, quads) then Encoded(n, p) + (n - p.off) + quads - 1 else Encoded(n, p) + quads
  {
    Remainder(Encoded(n, p), n, p.lap, p.off);
    assert (p.lap + 1) * n == p.lap * n + n;
  }

  lemma EncodedGrows(n: nat, max: nat, s: Pos, es: seq<Entry>, e: Pos)
    requires Chain(n, max, s, es, e)
    ensures Encoded(n, s) <= Encoded(n, e) && (es != [] ==> Encoded(n, s) < Encoded(n, e))
    decreases es
  {
    if es != [] {
      NextEncoded(n, s, es[0].Quads());
      EncodedGrows(n, max, Next(n, s, es[0].Quads()), es[1..], e);
    }
  }

  // One step of the reader over a stored entry.
  lemma ReadOne(log: seq<nat>, start: nat, e: Entry, next: nat, end: nat)
    requires |log| > 0 && start % |log| == e.pos.off && start < end
    requires Stored(log, e) && 2 <= e.Quads() <= |log|
    requires next == if Wraps(|log|, e.pos.off, e.Quads()) then start + (|log| - e.pos.off) + e.Quads() - 1
                     else start + e.Quads()
    ensures ReadAll(log, start, end) ==
            match ReadAll(log, next, end) case None => None case Some(rest) => Some([e.payload] + rest)
  {
  }

  // The reader delivers exactly the stored entries, whole and in order.
  lemma {:induction false} ReaderFollowsChain(log: seq<nat>, max: nat, s: Pos, es: seq<Entry>, e: Pos)
    requires 0 < max < |log| && Chain(|log|, max, s, es, e) && AllStored(log, es)
    ensures ReadAll(log, Encoded(|log|, s), Encoded(|log|, e)) == Some(Payloads(es))
    decreases es
  {
    hide Encoded, Stored, DataOffset;
    if es != [] {
      var n, quads := |log|, es[0].Quads();
      EncodedGrows(n, max, s, es, e);
      NextEncoded(n, s, quads);
      assert forall i :: 0 <= i < |es| - 1 ==> es[1..][i] == es[i + 1];
      ReaderFollowsChain(log, max, Next(n, s, quads), es[1..], e);
      ReadOne(log, Encoded(n, s), es[0], Encoded(n, Next(n, s, quads)), Encoded(n, e));
    }
  }

  // ----- positions that pass the end of their word -----

  // The same reader with positions that count modulo word; most bounds the
  // number of entries it takes.
  function ReadWrapped(log: seq<nat>, word: nat, start: nat, end: nat, most: nat): Option<seq<seq<nat>>>
    requires |log| > 0 && word > 0
    decreases most
  {
    if start == end then Some([])
    else if most == 0 then None
    else
      var off := start % |log|;
      var quads := log[off] / 4;
      if log[off] % 4 != 0 || quads == 0 || quads > |log| then None
      else
        var data := DataOffset(|log|, off, quads);
        var next := if Wraps(|log|, off, quads) then start + (|log| - off) + quads - 1 else start + quads;
        var rest := ReadWrapped(log, word, next % word, end, most - 1);
        if rest.None? then None else Some([log[data..data + quads - 1]] + rest.value)
  }

  lemma ReadOneWrapped(log: seq<nat>, word: nat, start: nat, e: Entry, step: nat, end: nat, most: nat)
    requires |log| > 0 && word > 0 && most > 0 && start % |log| == e.pos.off && start != end
    requires Stored(log, e) && 2 <= e.Quads() <= |log|
    requires step == if Wraps(|log|, e.pos.off, e.Quads()) then (|log| - e.pos.off) + e.Quads() - 1 else e.Quads()
    ensures ReadWrapped(log, word, start, end, most) ==
            match ReadWrapped(log, word, (start + step) % word, end, most - 1)
            case None => None
            case Some(rest) => Some([e.payload] + rest)
  {
  }

  // If the size of the log divides the range of the word, entries logged across
  // its end are delivered like any others.
  lemma {:induction false} WrappedReaderFollowsChain(log: seq<nat>, max: nat, s: Pos, es: seq<Entry>, e: Pos, word: nat)
    requires 0 < max < |log| && Chain(|log|, max, s, es, e) && AllStored(log, es)
    requires word > 0 && word % |log| == 0 && Encoded(|log|, e) - Encoded(|log|, s) < word
    ensures ReadWrapped(log, word, Encoded(|log|, s) % word, Encoded(|log|, e) % word, |es|) == Some(Payloads(es))
    decreases es
  {
    hide Encoded, Stored, DataOffset;
    if es != [] {
      var n, quads := |log|, es[0].Quads();
      var start, end, next := Encoded(n, s), Encoded(n, e), Encoded(n, Next(n, s, quads));
      EncodedGrows(n, max, s, es, e);
      EncodedGrows(n, max, Next(n, s, quads), es[1..], e);
      NextEncoded(n, s, quads);
      assert forall i :: 0 <= i < |es| - 1 ==> es[1..][i] == es[i + 1];
      WrappedReaderFollowsChain(log, max, Next(n, s, quads), es[1..], e, word);
      Differ(start, end, word);
      SameOffset(start, n, word);
      StepWraps(start, next - start, word);
      ReadOneWrapped(log, word, start % word, es[0], next - start, end % word, |es|);
    }
  }

  lemma Differ(x: nat, y: nat, word: nat)
    requires word > 0 && x < y < x + word
    ensures x % word != y % word
  {
    if x % word == y % word {
      assert y - x == (y / word - x / word) * word;
      Multiples(y / word - x / word, word);
    }
  }

  lemma StepWraps(x: nat, k: nat, word: nat)
    requires word > 0
    ensures (x % word + k) % word == (x + k) % word
  {
    var q, r := (x % word + k) / word, (x % word + k) % word;
    assert x + k == (x / word + q) * word + r by {
      assert x == (x / word) * word + x % word && x % word + k == q * word + r;
    }
    Remainder(x + k, word, x / word + q, r);
  }

  lemma SameOffset(x: nat, n: nat, word: nat)
    requires n > 0 && word > 0 && word % n == 0
    ensures (x % word) % n == x % n
  {
    Compose(x, x / word, word, x % word, word / n, n, x % word / n, x % word % n);
  }

  lemma Compose(x: nat, q: nat, word: nat, r: nat, c: nat, n: nat, d: nat, m: nat)
    requires x == q * word + r && word == c * n && r == d * n + m && m < n
    ensures x % n == m
  {
    Regroup(q, c, n, d);
    Remainder(x, n, q * c + d, m);
  }

  lemma Regroup(q: nat, c: nat, n: nat, d: nat)
    ensures q * (c * n) + d * n == (q * c + d) * n
  {
  }

  // If it does not, every position behind the end of the word is looked for at
  // another offset than its own.
  lemma PastTheWrap(x: nat, n: nat, word: nat)
    requires 0 < n && 0 < word <= x < 2 * word
    ensures (x % word) % n == x % n <==> word % n == 0
  {
    assert x % word == x - word by {
      Remainder(x, word, 1, x - word);
    }
    if word % n == 0 {
      SameOffset(x, n, word);
    } else if (x - word) % n == x % n {
      var q := x / n - (x - word) / n;
      assert word == q * n;
      Multiples(q, n);
      Remainder(word, n, q, 0);
    }
  }

  // And a reader that compares positions, as ReadAll does, gets nothing as long
  // as start is before the end of the word and end behind it.
  lemma NothingAcrossTheWrap(log: seq<nat>, start: nat, end: nat, word: nat)
    requires |log| > 0 && start < word <= end < start + word
    ensures ReadAll(log, start, end % word) == None
  {
    Remainder(end, word, 1, end - word);
  }

  // ----- what the chain occupies -----

  // Every word of the entry is at an offset in one of the two stretches
  // [lo, top) and [0, hi).
  predicate Occupies(n: nat, e: Entry, lo: nat, top: nat, hi: nat) {
    if Wraps(n, e.pos.off, e.Quads()) then
      lo <= e.pos.off < top && |e.payload| <= hi
    else
      (lo <= e.pos.off && e.pos.off + e.Quads() <= top) || e.pos.off + e.Quads() <= hi
  }

  // The chain's words lie between start and end, going round at most once.
  lemma {:induction false} ChainExtent(n: nat, max: nat, s: Pos, es: seq<Entry>, e: Pos)
    requires Chain(n, max, s, es, e) && Window(s, e) && e.off < n && max < n
    ensures forall i :: 0 <= i < |es| ==>
              if e.lap == s.lap then Occupies(n, es[i], s.off, e.off, 0) else Occupies(n, es[i], s.off, n, e.off)
    decreases es
  {
    if es != [] {
      var next := Next(n, s, es[0].Quads());
      ChainOrder(n, max, next, es[1..], e);
      ChainExtent(n, max, next, es[1..], e);
      forall i | 0 <= i < |es|
        ensures if e.lap == s.lap then Occupies(n, es[i], s.off, e.off, 0) else Occupies(n, es[i], s.off, n, e.off)
      {
        if i > 0 {
          assert es[i] == es[1..][i - 1];
        }
      }
    }
  }

  // A chain never goes back.
  lemma {:induction false} ChainOrder(n: nat, max: nat, s: Pos, es: seq<Entry>, e: Pos)
    requires Chain(n, max, s, es, e)
    ensures s.lap < e.lap || (s.lap == e.lap && s.off <= e.off)
    decreases es
  {
    if es != [] {
      ChainOrder(n, max, Next(n, s, es[0].Quads()), es[1..], e);
    }
  }

  lemma {:induction false} ChainAppend(n: nat, max: nat, s: Pos, es: seq<Entry>, e: Entry)
    requires Chain(n, max, s, es, e.pos) && e.pos.off < n && 2 <= e.Quads() <= max
    ensures Chain(n, max, s, es + [e], Next(n, e.pos, e.Quads()))
    decreases es
  {
    if es == [] {
      assert ([] + [e])[0] == e && ([] + [e])[1..] == [];
    } else {
      ChainAppend(n, max, Next(n, s, es[0].Quads()), es[1..], e);
      assert (es + [e])[1..] == es[1..] + [e];
    }
  }
}
