/**
 IOFWCommand's intrusive doubly linked queues, and the timeout queue that keeps
 its commands sorted by deadline and the controller's timer armed for the head.
 Source: IOFWCommand.cpp, IOFWCmdQ.cpp, IOFWTimeoutQ.cpp.
 */
module CommandQueues {

  datatype Timer = Cancelled | Armed(time: nat)

  // ----- what the list operations mean, on sequences -----

  function WithoutAt<T>(s: seq<T>, k: nat): (r: seq<T>)
    requires k < |s|
    ensures |r| == |s| - 1
  {
    s[..k] + s[k + 1..]
  }

  function InsertedAt<T>(s: seq<T>, k: nat, x: T): (r: seq<T>)
    requires k <= |s|
    ensures |r| == |s| + 1
  {
    s[..k] + [x] + s[k..]
  }

  // Element k leaves its place and goes just before what was element j.
  function MovedDown<T>(s: seq<T>, k: nat, j: nat): seq<T>
    requires k < j <= |s|
  {
    s[..k] + s[k + 1..j] + [s[k]] + s[j..]
  }

  ghost predicate Distinct<T>(s: seq<T>) {
    forall i, j :: 0 <= i < j < |s| ==> s[i] != s[j]
  }

  // The element at an index, or none beside the ends.
  ghost function At(s: seq<Command>, i: int): Command? {
    if 0 <= i < |s| then s[i] else null
  }

  lemma AtIs(s: seq<Command>, i: int)
    ensures At(s, i) == if 0 <= i < |s| then s[i] else null
  {
  }

  lemma AtInserted(s: seq<Command>, k: nat, x: Command, i: int)
    requires k <= |s|
    ensures At(InsertedAt(s, k, x), i) == if i < k then At(s, i) else if i == k then x else At(s, i - 1)
  {
  }

  lemma InsertedFirst(s: seq<Command>, x: Command)
    ensures InsertedAt(s, 0, x) == [x] + s
  {
  }

  lemma AtWithout(s: seq<Command>, k: nat, i: int)
    requires k < |s|
    ensures At(WithoutAt(s, k), i) == if i < k then At(s, i) else At(s, i + 1)
  {
  }

  lemma WithoutIsSubset(s: seq<Command>, k: nat)
    requires k < |s|
    ensures forall c :: c in WithoutAt(s, k) ==> c in s
  {
  }

  lemma MovedNowhere(s: seq<Command>, k: nat)
    requires k < |s|
    ensures MovedDown(s, k, k + 1) == s
  {
  }

  lemma Different(s: seq<Command>, i: nat, j: nat)
    requires Distinct(s) && i < |s| && j < |s| && i != j
    ensures s[i] != s[j]
  {
  }

  lemma DistinctInserted(s: seq<Command>, k: nat, x: Command)
    requires k <= |s| && Distinct(s) && x !in s
    ensures Distinct(InsertedAt(s, k, x))
  {
  }

  lemma DistinctWithout(s: seq<Command>, k: nat)
    requires k < |s| && Distinct(s)
    ensures Distinct(WithoutAt(s, k)) && s[k] !in WithoutAt(s, k)
  {
  }

  lemma MovedIsInserted<T>(s: seq<T>, k: nat, j: nat)
    requires k < j <= |s|
    ensures MovedDown(s, k, j) == InsertedAt(WithoutAt(s, k), j - 1, s[k])
  {
    var r := WithoutAt(s, k);
    assert r[..j - 1] == s[..k] + s[k + 1..j];
    assert r[j - 1..] == s[j..];
  }

  // ----- deadlines in queue order -----

  ghost predicate Ascending(d: seq<nat>) {
    forall i, j :: 0 <= i < j < |d| ==> d[i] <= d[j]
  }

  ghost function Deadlines(s: seq<Command>): (d: seq<nat>)
    reads set c | c in s
    ensures |d| == |s| && forall i :: 0 <= i < |s| ==> d[i] == s[i].fDeadline
  {
    if s == [] then [] else Deadlines(s[..|s| - 1]) + [s[|s| - 1].fDeadline]
  }

  // The stable place for deadline v among d from index k on.
  ghost predicate StablePlace(d: seq<nat>, k: nat, j: nat, v: nat) {
    k <= j <= |d| && (forall i :: k <= i < j ==> d[i] <= v) && (forall i :: j <= i < |d| ==> v < d[i])
  }

  lemma AscendingPair(d: seq<nat>, k: nat)
    requires Ascending(d) && 0 < k < |d|
    ensures d[k - 1] <= d[k]
  {
  }

  lemma AscendingInserted(d: seq<nat>, j: nat, v: nat)
    requires Ascending(d) && StablePlace(d, 0, j, v)
    ensures Ascending(InsertedAt(d, j, v))
  {
  }

  lemma AscendingMoved(d: seq<nat>, k: nat, j: nat, v: nat)
    requires Ascending(d) && k < j <= |d|
    requires forall i :: k < i < j ==> d[i] <= v
    requires j < |d| ==> v < d[j]
    ensures Ascending(MovedDown(d[k := v], k, j)) <==> k == 0 || d[k - 1] <= v
  {
    var m := MovedDown(d[k := v], k, j);
    if k > 0 && v < d[k - 1] {
      assert m[k - 1] == d[k - 1] && m[j - 1] == v;
    }
  }

  lemma MovedIndex<T>(s: seq<T>, k: nat, j: nat, i: nat)
    requires k < j <= |s| && i < |s|
    ensures |MovedDown(s, k, j)| == |s|
    ensures MovedDown(s, k, j)[i] ==
            if i < k then s[i] else if i < j - 1 then s[i + 1] else if i == j - 1 then s[k] else s[i]
  {
  }

  lemma InsertedIndex<T>(s: seq<T>, k: nat, x: T, i: nat)
    requires k <= |s| && i <= |s|
    ensures InsertedAt(s, k, x)[i] == if i < k then s[i] else if i == k then x else s[i - 1]
  {
  }

  lemma WithoutIndex<T>(s: seq<T>, k: nat, i: nat)
    requires k < |s| && i < |s| - 1
    ensures WithoutAt(s, k)[i] == if i < k then s[i] else s[i + 1]
  {
  }

  lemma DeadlinesMoved(s: seq<Command>, k: nat, j: nat)
    requires k < j <= |s|
    ensures Deadlines(MovedDown(s, k, j)) == MovedDown(Deadlines(s), k, j)
  {
    hide Deadlines, MovedDown;
    MovedIndex(s, k, j, 0);
    MovedIndex(Deadlines(s), k, j, 0);
    forall i | 0 <= i < |s| ensures Deadlines(MovedDown(s, k, j))[i] == MovedDown(Deadlines(s), k, j)[i] {
      MovedIndex(s, k, j, i);
      MovedIndex(Deadlines(s), k, j, i);
    }
  }

  lemma DeadlinesInserted(s: seq<Command>, j: nat, x: Command)
    requires j <= |s|
    ensures Deadlines(InsertedAt(s, j, x)) == InsertedAt(Deadlines(s), j, x.fDeadline)
  {
    hide Deadlines, InsertedAt;
    forall i | 0 <= i <= |s| ensures Deadlines(InsertedAt(s, j, x))[i] == InsertedAt(Deadlines(s), j, x.fDeadline)[i] {
      InsertedIndex(s, j, x, i);
      InsertedIndex(Deadlines(s), j, x.fDeadline, i);
    }
  }

  lemma DeadlinesWithout(s: seq<Command>, k: nat)
    requires k < |s|
    ensures Deadlines(WithoutAt(s, k)) == WithoutAt(Deadlines(s), k)
    ensures Ascending(Deadlines(s)) ==> Ascending(Deadlines(WithoutAt(s, k)))
  {
    hide Deadlines, WithoutAt;
    forall i | 0 <= i < |s| - 1 ensures Deadlines(WithoutAt(s, k))[i] == WithoutAt(Deadlines(s), k)[i] {
      WithoutIndex(s, k, i);
      WithoutIndex(Deadlines(s), k, i);
    }
    if Ascending(Deadlines(s)) {
      AscendingWithout(Deadlines(s), k);
    }
  }

  lemma AscendingWithout(d: seq<nat>, k: nat)
    requires Ascending(d) && k < |d|
    ensures Ascending(WithoutAt(d, k))
  {
  }

  class Command {
    var fQueue: CmdQ?
    var fQueuePrev: Command?
    var fQueueNext: Command?
    var fDeadline: nat
    var fTimeout: nat
    const cancelOnReset: bool

    constructor (timeout: nat, cancelOnReset: bool)
      ensures fQueue == null && fTimeout == timeout && this.cancelOnReset == cancelOnReset
    {
      fQueue, fQueuePrev, fQueueNext := null, null, null;
      fDeadline, fTimeout := 0, timeout;
      this.cancelOnReset := cancelOnReset;
    }

    method SetHead(queue: CmdQ)
      requires queue.Valid() && fQueue == null
      modifies this`fQueue, this`fQueuePrev, this`fQueueNext, queue
      modifies queue.Members()`fQueuePrev, queue.Members()`fQueueNext
      ensures queue.Valid() && queue.cmds == [this] + old(queue.cmds)
      ensures queue.TimerFollowsHead()
    {
      hide Distinct, InsertedAt, At;
      queue.NotMember(this);
      ghost var s := queue.cmds;
      assert |s| > 0 ==> queue.Linked(s[0], 0);
      AtIs(s, 0);
      AtIs(s, -1);
      AtIs(s, |s| - 1);
      var oldHead := queue.fHead;
      queue.fHead := this;
      fQueue := queue;
      fQueuePrev := null;
      fQueueNext := oldHead;
      if oldHead == null {
        queue.fTail := this;
      } else {
        oldHead.fQueuePrev := this;
      }
      queue.cmds := InsertedAt(s, 0, this);
      InsertedFirst(s, this);
      DistinctInserted(s, 0, this);
      forall i | 0 <= i < |queue.cmds| ensures queue.Linked(queue.cmds[i], i) {
        AtInserted(s, 0, this, i - 1);
        AtInserted(s, 0, this, i);
        AtInserted(s, 0, this, i + 1);
        AtIs(queue.cmds, i);
        AtIs(s, i - 1);
        AtIs(s, i - 2);
        if i > 0 {
          assert old(queue.Linked(s[i - 1], i - 1));
          if i > 1 {
            Different(s, i - 1, 0);
          }
        }
      }
      AtInserted(s, 0, this, 0);
      AtInserted(s, 0, this, |s|);
      queue.HeadChanged();
    }

    // The pointer writes of insertAfter.
    method Hook(prev: Command, q: CmdQ)
      requires prev != this && prev.fQueueNext != this && prev.fQueueNext != prev && prev.fQueue == q
      requires prev in q.Members() && (prev.fQueueNext != null ==> prev.fQueueNext in q.Members())
      modifies this`fQueue, this`fQueuePrev, this`fQueueNext, q`fTail, q.Members()`fQueuePrev, q.Members()`fQueueNext
      ensures fQueue == q && fQueuePrev == prev && fQueueNext == old(prev.fQueueNext) && prev.fQueueNext == this
      ensures fQueueNext != null ==> fQueueNext.fQueuePrev == this
      ensures q.fTail == if fQueueNext == null then this else old(q.fTail)
      ensures forall c :: c in q.Members() && c != this && c != prev ==> c.fQueueNext == old(c.fQueueNext)
      ensures forall c :: c in q.Members() && c != this && c != fQueueNext ==> c.fQueuePrev == old(c.fQueuePrev)
    {
      var next := prev.fQueueNext;
      fQueue := prev.fQueue;
      prev.fQueueNext := this;
      fQueuePrev := prev;
      fQueueNext := next;
      if next == null {
        fQueue.fTail := this;
      } else {
        next.fQueuePrev := this;
      }
    }

    // insertAfter, prev being element k.
    method LinkAfter(prev: Command, q: CmdQ, ghost k: nat)
      requires q.Valid() && k < |q.cmds| && q.cmds[k] == prev && fQueue == null
      modifies this`fQueue, this`fQueuePrev, this`fQueueNext, q`fTail, q`cmds
      modifies q.Members()`fQueuePrev, q.Members()`fQueueNext
      ensures q.Valid() && q.cmds == InsertedAt(old(q.cmds), k + 1, this)
    {
      hide Distinct, InsertedAt, At;
      q.NotMember(this);
      ghost var s := q.cmds;
      assert q.Linked(s[k], k);
      AtIs(s, k + 1);
      AtIs(s, |s| - 1);
      if k + 1 < |s| {
        assert q.Linked(s[k + 1], k + 1);
        Different(s, k, k + 1);
      }
      Hook(prev, q);
      q.cmds := InsertedAt(s, k + 1, this);
      DistinctInserted(s, k + 1, this);
      forall i | 0 <= i < |q.cmds| ensures q.Linked(q.cmds[i], i) {
        AtInserted(s, k + 1, this, i - 1);
        AtInserted(s, k + 1, this, i);
        AtInserted(s, k + 1, this, i + 1);
        AtIs(q.cmds, i);
        AtIs(s, i);
        AtIs(s, i - 1);
        AtIs(s, i + 1);
        if i != k + 1 {
          var j := if i <= k then i else i - 1;
          assert old(q.Linked(s[j], j));
          if j != k {
            Different(s, j, k);
          }
          if k + 1 < |s| && j != k + 1 {
            Different(s, j, k + 1);
          }
        }
      }
      AtInserted(s, k + 1, this, 0);
      AtInserted(s, k + 1, this, |s|);
    }

    method InsertAfter(prev: Command)
      requires prev.fQueue != null && prev.fQueue.Valid() && prev in prev.fQueue.cmds && fQueue == null
      modifies this`fQueue, this`fQueuePrev, this`fQueueNext
      modifies prev.fQueue, prev.fQueue.Members()`fQueuePrev, prev.fQueue.Members()`fQueueNext
      ensures prev.fQueue == old(prev.fQueue)
      ensures var q, k := prev.fQueue, old(prev.fQueue.IndexOf(prev));
              q.Valid() && q.cmds == InsertedAt(old(q.cmds), k + 1, this)
              && (old(q.TimerFollowsHead()) ==> q.TimerFollowsHead())
    {
      LinkAfter(prev, prev.fQueue, prev.fQueue.IndexOf(prev));
    }

    // The pointer writes of removeFromQ.
    method Unhook(queue: CmdQ)
      requires fQueuePrev != this && fQueueNext != this && (fQueuePrev != null ==> fQueuePrev != fQueueNext)
      requires fQueuePrev != null ==> fQueuePrev in queue.Members()
      requires fQueueNext != null ==> fQueueNext in queue.Members()
      modifies this`fQueue, queue`fHead, queue`fTail, queue.Members()`fQueuePrev, queue.Members()`fQueueNext
      ensures fQueue == null && fQueuePrev == old(fQueuePrev) && fQueueNext == old(fQueueNext)
      ensures queue.fHead == if fQueuePrev == null then fQueueNext else old(queue.fHead)
      ensures queue.fTail == if fQueueNext == null then fQueuePrev else old(queue.fTail)
      ensures fQueuePrev != null ==> fQueuePrev.fQueueNext == fQueueNext
      ensures fQueueNext != null ==> fQueueNext.fQueuePrev == fQueuePrev
      ensures forall c :: c in queue.Members() && c != fQueuePrev ==> c.fQueueNext == old(c.fQueueNext)
      ensures forall c :: c in queue.Members() && c != fQueueNext ==> c.fQueuePrev == old(c.fQueuePrev)
    {
      if fQueuePrev != null {
        fQueuePrev.fQueueNext := fQueueNext;
      } else {
        queue.fHead := fQueueNext;
      }
      if fQueueNext != null {
        fQueueNext.fQueuePrev := fQueuePrev;
      } else {
        queue.fTail := fQueuePrev;
      }
      fQueue := null;
    }

    // removeFromQ, this being element k.
    method Unlink(queue: CmdQ, ghost k: nat)
      requires queue.Valid() && k < |queue.cmds| && queue.cmds[k] == this
      modifies this`fQueue, queue`fHead, queue`fTail, queue`cmds, queue.Members()`fQueuePrev, queue.Members()`fQueueNext
      ensures fQueue == null && queue.Valid() && queue.cmds == WithoutAt(old(queue.cmds), k)
      ensures queue.Members() <= old(queue.Members())
      ensures k > 0 ==> queue.fHead == old(queue.fHead)
    {
      hide Distinct, WithoutAt, At;
      ghost var s := queue.cmds;
      WithoutIsSubset(s, k);
      assert queue.Linked(s[k], k);
      AtIs(s, k - 1);
      AtIs(s, k + 1);
      AtIs(s, 0);
      AtIs(s, |s| - 1);
      AtIs(s, |s|);
      if k > 0 {
        Different(s, k, k - 1);
      }
      if k + 1 < |s| {
        Different(s, k, k + 1);
        if k > 0 {
          Different(s, k - 1, k + 1);
        }
      }
      Unhook(queue);
      queue.cmds := WithoutAt(s, k);
      DistinctWithout(s, k);
      forall i | 0 <= i < |queue.cmds| ensures queue.Linked(queue.cmds[i], i) {
        var j := if i < k then i else i + 1;
        AtWithout(s, k, i - 1);
        AtWithout(s, k, i);
        AtWithout(s, k, i + 1);
        AtIs(queue.cmds, i);
        AtIs(s, j);
        assert old(queue.Linked(s[j], j));
        Different(s, j, k);
        if k > 0 && j != k - 1 {
          Different(s, j, k - 1);
        }
        if k + 1 < |s| && j != k + 1 {
          Different(s, j, k + 1);
        }
      }
      AtWithout(s, k, 0);
      AtWithout(s, k, |s| - 2);
    }

    method RemoveFromQ()
      requires fQueue != null ==> fQueue.Valid() && this in fQueue.cmds
      modifies this`fQueue, fQueue, (if fQueue == null then {} else fQueue.Members())`fQueuePrev,
               (if fQueue == null then {} else fQueue.Members())`fQueueNext
      ensures fQueue == null
      ensures old(fQueue) != null ==>
                var q, k := old(fQueue), old(fQueue.IndexOf(this));
                q.Valid() && q.cmds == WithoutAt(old(q.cmds), k)
                && (old(q.TimerFollowsHead()) ==> q.TimerFollowsHead())
    {
      if fQueue != null {
        var queue := fQueue;
        var oldHead := queue.fHead;
        Unlink(queue, queue.IndexOf(this));
        if oldHead == this {
          queue.HeadChanged();
        }
      }
    }

    // Where the list walk of updateTimer stops: the first later element whose
    // deadline is after this command's.
    ghost predicate BelongsBefore(q: CmdQ, s: seq<Command>, k: nat, j: nat)
      reads this, set c | c in s
    {
      && k < j <= |s|
      && (forall i :: k < i < j ==> s[i].fDeadline <= fDeadline)
      && (j < |s| ==> fDeadline < s[j].fDeadline)
    }

    method FindLater(q: CmdQ, ghost k: nat) returns (next: Command?, ghost j: nat)
      requires q.Valid() && k < |q.cmds| && q.cmds[k] == this
      ensures BelongsBefore(q, q.cmds, k, j) && next == At(q.cmds, j)
    {
      assert q.Linked(q.cmds[k], k);
      next := fQueueNext;
      j := k + 1;
      while next != null && next.fDeadline <= fDeadline
        invariant k < j <= |q.cmds| && next == At(q.cmds, j)
        invariant forall i :: k < i < j ==> q.cmds[i].fDeadline <= fDeadline
        decreases |q.cmds| - j
      {
        assert q.Linked(q.cmds[j], j);
        next := next.fQueueNext;
        j := j + 1;
      }
    }

    // Move this command from its place to just before next.
    method MoveBefore(q: CmdQ, next: Command?, ghost k: nat, ghost j: nat)
      requires q.Valid() && k < |q.cmds| && q.cmds[k] == this && k + 1 < j <= |q.cmds| && next == At(q.cmds, j)
      modifies this`fQueue, this`fQueuePrev, this`fQueueNext, q`fHead, q`fTail, q`cmds
      modifies q.Members()`fQueuePrev, q.Members()`fQueueNext
      ensures q.Valid() && q.cmds == MovedDown(old(q.cmds), k, j) && fQueue == q
      ensures k > 0 ==> q.fHead == old(q.fHead)
    {
      hide Distinct, WithoutAt, InsertedAt;
      ghost var s := q.cmds;
      Unlink(q, k);
      AtWithout(s, k, j - 1);
      AtWithout(s, k, j - 2);
      AtWithout(s, k, |s| - 2);
      AtWithout(s, k, 0);
      var prev: Command?;
      if next == null {
        prev := q.fTail;
      } else {
        assert q.Linked(q.cmds[j - 1], j - 1);
        prev := next.fQueuePrev;
      }
      LinkAfter(prev, q, j - 2);
      MovedIsInserted(s, k, j);
      assert q.Linked(q.cmds[j - 1], j - 1);
    }

    // The list walk and the move, once the deadline is set.
    method Reposition(q: CmdQ, ghost k: nat) returns (ghost j: nat)
      requires q.Valid() && k < |q.cmds| && q.cmds[k] == this
      modifies this`fQueue, this`fQueuePrev, this`fQueueNext, q`fHead, q`fTail, q`cmds
      modifies q.Members()`fQueuePrev, q.Members()`fQueueNext
      ensures BelongsBefore(q, old(q.cmds), k, j)
      ensures q.Valid() && q.cmds == MovedDown(old(q.cmds), k, j) && fQueue == q
      ensures k > 0 ==> q.fHead == old(q.fHead)
    {
      hide Distinct, WithoutAt, InsertedAt, MovedDown;
      ghost var s := q.cmds;
      assert q.Linked(s[k], k);
      var next;
      next, j := FindLater(q, k);
      if k + 1 < j < |s| {
        Different(s, j, k + 1);
      }
      if next != fQueueNext {
        MoveBefore(q, next, k, j);
      } else {
        MovedNowhere(s, k);
      }
    }

    // updateTimer for a command already on a queue: a new deadline, and a new
    // place further down. Stable: it goes after every equal deadline it passes.
    method Reschedule(now: nat, q: CmdQ, ghost k: nat) returns (ghost j: nat)
      requires q.Valid() && k < |q.cmds| && q.cmds[k] == this && fTimeout != 0
      modifies this, q, q.Members()`fQueuePrev, q.Members()`fQueueNext
      ensures fDeadline == now + fTimeout && fTimeout == old(fTimeout) && fQueue == q
      ensures BelongsBefore(q, old(q.cmds), k, j)
      ensures q.Valid() && q.cmds == MovedDown(old(q.cmds), k, j)
      ensures old(q.TimerFollowsHead()) ==> q.TimerFollowsHead()
      // so with a monotone clock and a timeout that was not shortened it stays sorted
      ensures old(q.Sorted()) ==>
                (q.Sorted() <==> k == 0 || old(q.cmds[k - 1].fDeadline) <= now + fTimeout)
    {
      hide Distinct, WithoutAt, InsertedAt, MovedDown, Ascending, Deadlines;
      ghost var s := q.cmds;
      ghost var d := Deadlines(s);
      var oldHead := q.fHead;
      if k > 0 {
        Different(s, 0, k);
      }
      SetDeadline(now + fTimeout, q, k);
      j := Reposition(q, k);
      if oldHead == this {
        q.HeadChanged();
      }
      assert Deadlines(s) == d[k := fDeadline];
      DeadlinesMoved(s, k, j);
      if old(q.Sorted()) {
        AscendingMoved(d, k, j, fDeadline);
      }
    }

    // The insertion place for a command not yet queued: after the last one
    // whose deadline is not later.
    method FindEarlier(q: CmdQ) returns (prev: Command?, ghost j: nat)
      requires q.Valid()
      ensures j <= |q.cmds| && prev == At(q.cmds, j - 1)
      ensures j > 0 ==> q.cmds[j - 1].fDeadline <= fDeadline
      ensures forall i :: j <= i < |q.cmds| ==> fDeadline < q.cmds[i].fDeadline
    {
      prev := q.fTail;
      j := |q.cmds|;
      while prev != null && prev.fDeadline > fDeadline
        invariant j <= |q.cmds| && prev == At(q.cmds, j - 1)
        invariant forall i :: j <= i < |q.cmds| ==> fDeadline < q.cmds[i].fDeadline
        decreases j
      {
        assert q.Linked(q.cmds[j - 1], j - 1);
        prev := prev.fQueuePrev;
        j := j - 1;
      }
    }

    method Place(timeoutQ: CmdQ) returns (ghost j: nat)
      requires timeoutQ.Valid() && fQueue == null
      modifies this`fQueue, this`fQueuePrev, this`fQueueNext, timeoutQ
      modifies timeoutQ.Members()`fQueuePrev, timeoutQ.Members()`fQueueNext
      ensures fQueue == timeoutQ
      ensures j <= |old(timeoutQ.cmds)| && timeoutQ.Valid() && timeoutQ.cmds == InsertedAt(old(timeoutQ.cmds), j, this)
      ensures j > 0 ==> old(timeoutQ.cmds)[j - 1].fDeadline <= fDeadline
      ensures forall i :: j <= i < |old(timeoutQ.cmds)| ==> fDeadline < old(timeoutQ.cmds)[i].fDeadline
      ensures old(timeoutQ.TimerFollowsHead()) ==> timeoutQ.TimerFollowsHead()
    {
      hide Distinct, InsertedAt;
      ghost var s := timeoutQ.cmds;
      var prev;
      prev, j := FindEarlier(timeoutQ);
      if prev == null {
        SetHead(timeoutQ);
        InsertedFirst(s, this);
      } else {
        LinkAfter(prev, timeoutQ, j - 1);
        AtInserted(s, j, this, 0);
      }
      InsertedIndex(s, j, this, j);
      assert timeoutQ.Linked(timeoutQ.cmds[j], j);
    }

    // updateTimer for a command on no queue.
    method Schedule(now: nat, timeoutQ: CmdQ) returns (ghost j: nat)
      requires timeoutQ.Valid() && fQueue == null && fTimeout != 0
      modifies this, timeoutQ, timeoutQ.Members()`fQueuePrev, timeoutQ.Members()`fQueueNext
      ensures fDeadline == now + fTimeout && fTimeout == old(fTimeout) && fQueue == timeoutQ
      ensures j <= |old(timeoutQ.cmds)| && timeoutQ.Valid() && timeoutQ.cmds == InsertedAt(old(timeoutQ.cmds), j, this)
      ensures old(timeoutQ.TimerFollowsHead()) ==> timeoutQ.TimerFollowsHead()
      ensures old(timeoutQ.Sorted()) ==>
                timeoutQ.Sorted() && StablePlace(old(Deadlines(timeoutQ.cmds)), 0, j, fDeadline)
    {
      hide Distinct, InsertedAt, Deadlines;
      ghost var s := timeoutQ.cmds;
      ghost var d := Deadlines(s);
      timeoutQ.NotMember(this);
      SetOwnDeadline(now + fTimeout, timeoutQ);
      j := Place(timeoutQ);
      assert Deadlines(s) == d;
      DeadlinesInserted(s, j, this);
      if Ascending(d) {
        AscendingInserted(d, j, fDeadline);
      }
    }

    method SetOwnDeadline(deadline: nat, q: CmdQ)
      requires q.Valid() && this !in q.cmds
      modifies this`fDeadline
      ensures q.Valid() && fDeadline == deadline && Deadlines(q.cmds) == old(Deadlines(q.cmds))
    {
      hide At, Distinct;
      fDeadline := deadline;
      forall i | 0 <= i < |q.cmds| ensures q.Linked(q.cmds[i], i) {
        assert old(q.Linked(q.cmds[i], i));
      }
    }

    // The queue that updateTimer works on.
    ghost function TimerQueue(timeoutQ: CmdQ): CmdQ
      reads this
    {
      if fQueue == null then timeoutQ else fQueue
    }

    method UpdateTimer(now: nat, timeoutQ: CmdQ) returns (ghost j: nat)
      requires timeoutQ.Valid() && (fQueue != null ==> fQueue.Valid() && this in fQueue.cmds)
      modifies this, TimerQueue(timeoutQ)
      modifies TimerQueue(timeoutQ).Members()`fQueuePrev, TimerQueue(timeoutQ).Members()`fQueueNext
      ensures var q := old(TimerQueue(timeoutQ));
              && q.Valid() && fTimeout == old(fTimeout)
              && (old(q.TimerFollowsHead()) ==> q.TimerFollowsHead())
              && (old(q.Sorted()) && (old(fQueue) == null || old(fDeadline) <= now + fTimeout) ==> q.Sorted())
              && (fTimeout == 0 ==> q.cmds == old(q.cmds) && fDeadline == old(fDeadline) && fQueue == old(fQueue))
              && (fTimeout != 0 ==> fDeadline == now + fTimeout && fQueue == q)
              && (fTimeout != 0 && old(fQueue) != null ==>
                    BelongsBefore(q, old(q.cmds), old(q.IndexOf(this)), j)
                    && q.cmds == MovedDown(old(q.cmds), old(q.IndexOf(this)), j))
              && (fTimeout != 0 && old(fQueue) == null ==>
                    j <= |old(q.cmds)| && q.cmds == InsertedAt(old(q.cmds), j, this)
                    && (old(q.Sorted()) ==> StablePlace(old(Deadlines(q.cmds)), 0, j, fDeadline)))
    {
      hide Distinct, InsertedAt, MovedDown, Deadlines, Ascending;
      j := 0;
      if fTimeout != 0 {
        if fQueue != null {
          ghost var k := fQueue.IndexOf(this);
          if fQueue.Sorted() && k > 0 {
            AscendingPair(Deadlines(fQueue.cmds), k);
          }
          j := Reschedule(now, fQueue, k);
        } else {
          j := Schedule(now, timeoutQ);
        }
      }
    }

    method SetDeadline(deadline: nat, q: CmdQ, ghost k: nat)
      requires q.Valid() && k < |q.cmds| && q.cmds[k] == this
      modifies this`fDeadline
      ensures q.Valid() && fDeadline == deadline && fQueue == q
      ensures Deadlines(q.cmds) == old(Deadlines(q.cmds))[k := deadline]
    {
      hide At;
      assert q.Linked(q.cmds[k], k);
      fDeadline := deadline;
      forall i | 0 <= i < |q.cmds| ensures q.Linked(q.cmds[i], i) {
        assert old(q.Linked(q.cmds[i], i));
      }
    }
  }

  class CmdQ {
    var fHead: Command?
    var fTail: Command?
    // Only the controller's timeout queue overrides headChanged.
    const isTimeoutQ: bool
    var fTimer: Timer
    ghost var cmds: seq<Command>

    ghost function Members(): set<Command>
      reads this
    {
      set c | c in cmds
    }

    // A well-formed doubly linked list of distinct commands that are on this
    // queue and therefore on no other.
    ghost predicate Valid()
      reads this, Members()
    {
      && Distinct(cmds)
      && fHead == At(cmds, 0) && fTail == At(cmds, |cmds| - 1)
      && forall i {:trigger Linked(cmds[i], i)} :: 0 <= i < |cmds| ==> Linked(cmds[i], i)
    }

    ghost predicate Linked(c: Command, i: int)
      reads this, c
    {
      c.fQueue == this && c.fQueuePrev == At(cmds, i - 1) && c.fQueueNext == At(cmds, i + 1)
    }

    ghost predicate TimerFollowsHead()
      reads this, fHead
    {
      isTimeoutQ ==> fTimer == if fHead == null then Cancelled else Armed(fHead.fDeadline)
    }

    ghost predicate Sorted()
      reads this, Members()
    {
      Ascending(Deadlines(cmds))
    }

    ghost function IndexOf(c: Command): (k: nat)
      requires c in cmds
      reads this
      ensures k < |cmds| && cmds[k] == c
    {
      var k :| 0 <= k < |cmds| && cmds[k] == c;
      k
    }

    constructor (isTimeoutQ: bool)
      ensures Valid() && cmds == [] && TimerFollowsHead() && this.isTimeoutQ == isTimeoutQ
    {
      fHead, fTail, cmds := null, null, [];
      fTimer := Cancelled;
      this.isTimeoutQ := isTimeoutQ;
    }

    method HeadChanged()
      modifies this`fTimer
      ensures TimerFollowsHead() && (old(Valid()) ==> Valid())
      ensures isTimeoutQ ==> fTimer == if fHead == null then Cancelled else Armed(fHead.fDeadline)
      ensures !isTimeoutQ ==> fTimer == old(fTimer)
    {
      if isTimeoutQ {
        if fHead == null {
          fTimer := Cancelled;
        } else {
          fTimer := Armed(fHead.fDeadline);
        }
      }
      forall i | 0 <= i < |cmds| && old(Valid()) ensures Linked(cmds[i], i) {
        assert old(Linked(cmds[i], i));
      }
    }

    lemma NotMember(c: Command)
      requires Valid() && c.fQueue != this
      ensures c !in cmds
    {
      forall i | 0 <= i < |cmds| ensures cmds[i] != c {
        assert Linked(cmds[i], i);
      }
    }
  }

  // A command is on at most one well-formed queue.
  lemma QueuesAreDisjoint(p: CmdQ, q: CmdQ)
    requires p.Valid() && q.Valid() && p != q
    ensures p.Members() !! q.Members()
  {
    forall c | c in p.cmds ensures c !in q.cmds {
      var i :| 0 <= i < |p.cmds| && p.cmds[i] == c;
      assert p.Linked(p.cmds[i], i);
      q.NotMember(c);
    }
  }

  // ----- loops over a whole queue -----

  lemma StillSorted(s: seq<Command>, k: nat)
    requires k < |s| && Ascending(Deadlines(s))
    ensures Ascending(Deadlines(WithoutAt(s, k)))
  {
    DeadlinesWithout(s, k);
  }

  lemma MembersWithout(s: seq<Command>, k: nat)
    requires k < |s| && Distinct(s)
    ensures forall c :: c in WithoutAt(s, k) <==> c in s && c != s[k]
  {
    var r := WithoutAt(s, k);
    forall c | c in s && c != s[k] ensures c in r {
      var i :| 0 <= i < |s| && s[i] == c;
      assert r[if i < k then i else i - 1] == c;
    }
  }

  // What is left of the commands after a bus reset.
  ghost function Survivors(s: seq<Command>): (r: seq<Command>)
    ensures |r| <= |s|
  {
    if s == [] then [] else
    Survivors(s[..|s| - 1]) + if s[|s| - 1].cancelOnReset then [] else [s[|s| - 1]]
  }

  lemma {:induction false} SurvivorsAre(s: seq<Command>)
    ensures forall c :: c in Survivors(s) <==> c in s && !c.cancelOnReset
  {
    if s != [] {
      var n := |s| - 1;
      SurvivorsAre(s[..n]);
      assert s == s[..n] + [s[n]];
    }
  }

  lemma {:induction false} SurvivorIsOld(s: seq<Command>, i: nat)
    requires i < |Survivors(s)|
    ensures exists a :: 0 <= a < |s| && s[a] == Survivors(s)[i]
  {
    var n := |s| - 1;
    if i < |Survivors(s[..n])| {
      SurvivorIsOld(s[..n], i);
      var a :| 0 <= a < n && s[..n][a] == Survivors(s[..n])[i];
      assert s[a] == Survivors(s)[i];
    }
  }

  // The survivors keep their order.
  lemma {:induction false} SurvivorsInOrder(s: seq<Command>, i: nat, j: nat) returns (a: nat, b: nat)
    requires i < j < |Survivors(s)|
    ensures a < b < |s| && s[a] == Survivors(s)[i] && s[b] == Survivors(s)[j]
  {
    var n := |s| - 1;
    if j < |Survivors(s[..n])| {
      a, b := SurvivorsInOrder(s[..n], i, j);
    } else {
      b := n;
      SurvivorIsOld(s[..n], i);
      a :| 0 <= a < n && s[a] == Survivors(s[..n])[i];
    }
  }

  // What happens around one turn of processTimeout: the commands completed by
  // packets that had come in, those their clients start then, and those started
  // when the expired command has been completed, by a retry or by its client.
  datatype Turn = Turn(arrivals: seq<Command>, started: seq<Command>, restarted: seq<Command>) {
    function Named(): seq<Command> {
      arrivals + started + restarted
    }
  }

  // What the client of a command cancelled by a bus reset does: it cancels
  // commands and starts commands.
  datatype Client = Client(ended: seq<Command>, started: seq<Command>) {
    function Named(): seq<Command> {
      ended + started
    }
  }

  // A command cancelled for its deadline.
  datatype Expiry = Expiry(cmd: Command, deadline: nat, at: nat)

  class Controller {
    const timeoutQ: CmdQ

    constructor ()
      ensures Valid() && timeoutQ.cmds == [] && fresh(timeoutQ)
    {
      timeoutQ := new CmdQ(true);
    }

    ghost predicate Valid()
      reads this, timeoutQ, timeoutQ.Members()
    {
      timeoutQ.isTimeoutQ && timeoutQ.Valid() && timeoutQ.Sorted() && timeoutQ.TimerFollowsHead()
    }

    // All commands there are: those on the timeout queue are its members.
    ghost predicate Among(all: set<Command>)
      reads timeoutQ, all
    {
      && timeoutQ.Members() <= all
      && forall c :: c in all && c.fQueue == timeoutQ ==> c in timeoutQ.cmds
    }

    // No other command but those named has been touched.
    twostate predicate Untouched(all: set<Command>, named: seq<Command>)
      reads all
    {
      forall c :: c in all && c !in named ==> c.fDeadline == old(c.fDeadline) && c.fQueue == old(c.fQueue)
    }

    // Commands that a retry or a completion callback starts: those on no queue
    // that have a timeout get a deadline and a place.
    method StartAll(started: seq<Command>, now: nat, ghost all: set<Command>)
      requires Valid() && Among(all) && forall c :: c in started ==> c in all
      modifies timeoutQ, all
      ensures Valid() && Among(all) && Untouched(all, started)
    {
      for i := 0 to |started|
        invariant Valid() && Among(all) && Untouched(all, started)
      {
        if started[i].fQueue == null && started[i].fTimeout != 0 {
          ghost var _ := Start(started[i], now);
        }
      }
    }

    // The commands of packets that have come in are completed.
    method CompleteAll(arrivals: seq<Command>, ghost all: set<Command>)
      requires Valid() && Among(all) && forall c :: c in arrivals ==> c in all
      modifies timeoutQ, all
      ensures Valid() && Among(all) && Untouched(all, arrivals)
      ensures |timeoutQ.cmds| <= |old(timeoutQ.cmds)| && forall c :: c in arrivals ==> c.fQueue != timeoutQ
    {
      hide Distinct, WithoutAt, Ascending, Deadlines, CmdQ.Valid, CmdQ.TimerFollowsHead;
      for i := 0 to |arrivals|
        invariant Valid() && Among(all) && Untouched(all, arrivals) && |timeoutQ.cmds| <= |old(timeoutQ.cmds)|
        invariant forall j :: 0 <= j < i ==> arrivals[j].fQueue != timeoutQ
      {
        if arrivals[i].fQueue == timeoutQ {
          Cancel(arrivals[i]);
        }
      }
    }

    method Start(c: Command, now: nat) returns (ghost j: nat)
      requires Valid() && c.fQueue == null && c.fTimeout > 0
      modifies timeoutQ, c, timeoutQ.Members()`fQueuePrev, timeoutQ.Members()`fQueueNext
      ensures Valid() && c.fQueue == timeoutQ && timeoutQ.Members() == old(timeoutQ.Members()) + {c}
      ensures j <= |old(timeoutQ.cmds)| && timeoutQ.cmds == InsertedAt(old(timeoutQ.cmds), j, c)
    {
      hide Distinct, InsertedAt, Ascending, Deadlines;
      ghost var s := timeoutQ.cmds;
      j := c.Schedule(now, timeoutQ);
      MembersInserted(s, j, c);
    }

    lemma MembersInserted(s: seq<Command>, k: nat, c: Command)
      requires k <= |s|
      ensures (set x | x in InsertedAt(s, k, c)) == (set x | x in s) + {c}
    {
      var r := InsertedAt(s, k, c);
      assert r[k] == c;
      forall x | x in s ensures x in r {
        var i :| 0 <= i < |s| && s[i] == x;
        assert r[if i < k then i else i + 1] == x;
      }
    }

    // processTimeout: cancel every command whose deadline has passed, then
    // leave the timer armed for the first that has not. At each turn packets may
    // complete commands, and the driver's clients start others, or these again.
    method ProcessTimeout(clock: nat -> nat, turns: seq<Turn>, ghost all: set<Command>)
      returns (now: nat, ghost expired: seq<Expiry>)
      requires Valid() && Among(all)
      // the clock never runs backwards
      requires forall i :: 0 <= i ==> clock(i) <= clock(i + 1)
      requires forall t, c :: t in turns && c in t.Named() ==> c in all
      modifies timeoutQ, all
      ensures Valid() && Among(all) && exists i :: 0 <= i && now == clock(i)
      // nothing that is due is left, and what was cancelled was due
      ensures forall c :: c in timeoutQ.cmds ==> now < c.fDeadline
      ensures forall e :: e in expired ==> e.deadline <= e.at <= now
      ensures forall c :: c in old(timeoutQ.cmds) ==>
                || (c.fQueue == timeoutQ && c.fDeadline == old(c.fDeadline))
                || (exists t :: t in turns && (c in t.arrivals || c in t.started || c in t.restarted))
                || (exists e :: e in expired && e.cmd == c && e.deadline == old(c.fDeadline))
      ensures timeoutQ.fTimer == if timeoutQ.cmds == [] then Cancelled else Armed(timeoutQ.cmds[0].fDeadline)
    {
      hide Distinct, WithoutAt, Ascending, Deadlines, Turn.Named, Accounted, Fate;
      now := clock(0);
      expired := [];
      var turn := 0;
      ghost var due := Due();
      AccountedStart(turns);
      while timeoutQ.fHead != null
        invariant Valid() && Among(all) && turn >= 0 && now == clock(if turn == 0 then 0 else turn - 1)
        invariant forall e :: e in expired ==> e.deadline <= e.at <= now
        invariant due.Keys <= all && Accounted(due, turns, expired)
        decreases if turn < |turns| then |turns| - turn else 0, |timeoutQ.cmds|
      {
        assert turn > 0 ==> clock(turn - 1) <= clock(turn - 1 + 1);
        now := clock(turn);
        var dead := timeoutQ.fHead.fDeadline;
        if now < dead {
          break;
        }
        if turn < |turns| {
          Interrupts(turns[turn], now, due, turns, expired, all);
        }
        turn := turn + 1;
        if timeoutQ.fHead == null {
          break;
        }
        if dead != timeoutQ.fHead.fDeadline {
          continue;
        }
        expired := Expire(timeoutQ.fHead, now, due, turns, expired, all);
        if turn <= |turns| {
          Restarts(turns[turn - 1], now, due, turns, expired, all);
        }
      }
      timeoutQ.HeadChanged();
      HeadIsFirst(now);
      AccountedMeans(due, turns, expired);
    }

    // The deadlines of the commands on the queue.
    ghost function Due(): (due: map<Command, nat>)
      reads timeoutQ, timeoutQ.Members()
      ensures due.Keys == timeoutQ.Members()
    {
      map c | c in timeoutQ.cmds :: c.fDeadline
    }

    ghost predicate Accounted(due: map<Command, nat>, turns: seq<Turn>, expired: seq<Expiry>)
      reads due.Keys
    {
      forall c :: c in due ==>
        (c.fQueue == timeoutQ && c.fDeadline == due[c]) || Fate(c, due[c], turns, expired)
    }

    lemma AccountedMeans(due: map<Command, nat>, turns: seq<Turn>, expired: seq<Expiry>)
      requires Accounted(due, turns, expired)
      ensures forall c :: c in due ==>
                || (c.fQueue == timeoutQ && c.fDeadline == due[c])
                || (exists t :: t in turns && (c in t.arrivals || c in t.started || c in t.restarted))
                || (exists e :: e in expired && e.cmd == c && e.deadline == due[c])
    {
    }

    lemma AccountedStart(turns: seq<Turn>)
      requires Valid()
      ensures Accounted(Due(), turns, [])
    {
      forall c | c in timeoutQ.cmds ensures c.fQueue == timeoutQ {
        var i :| 0 <= i < |timeoutQ.cmds| && timeoutQ.cmds[i] == c;
        assert timeoutQ.Linked(timeoutQ.cmds[i], i);
      }
    }

    // The command was named in some turn, or cancelled because that deadline
    // had passed.
    static ghost predicate Fate(c: Command, deadline: nat, turns: seq<Turn>, expired: seq<Expiry>) {
      || (exists t :: t in turns && c in t.Named())
      || (exists e :: e in expired && e.cmd == c && e.deadline == deadline)
    }

    lemma HeadIsFirst(now: nat)
      requires Valid() && (timeoutQ.cmds != [] ==> now < timeoutQ.cmds[0].fDeadline)
      ensures forall c :: c in timeoutQ.cmds ==> now < c.fDeadline
    {
      forall c | c in timeoutQ.cmds ensures now < c.fDeadline {
        var i :| 0 <= i < |timeoutQ.cmds| && timeoutQ.cmds[i] == c;
        assert Deadlines(timeoutQ.cmds)[0] <= Deadlines(timeoutQ.cmds)[i];
      }
    }

    method Interrupts(turn: Turn, now: nat, ghost due: map<Command, nat>, ghost turns: seq<Turn>,
                      ghost expired: seq<Expiry>, ghost all: set<Command>)
      requires Valid() && Among(all) && forall c :: c in turn.Named() ==> c in all
      requires turn in turns && due.Keys <= all && Accounted(due, turns, expired)
      modifies timeoutQ, all
      ensures Valid() && Among(all) && Accounted(due, turns, expired)
    {
      CompleteAll(turn.arrivals, all);
      StartAll(turn.started, now, all);
      assert Untouched(all, turn.Named());
    }

    method Restarts(turn: Turn, now: nat, ghost due: map<Command, nat>, ghost turns: seq<Turn>,
                    ghost expired: seq<Expiry>, ghost all: set<Command>)
      requires Valid() && Among(all) && forall c :: c in turn.Named() ==> c in all
      requires turn in turns && due.Keys <= all && Accounted(due, turns, expired)
      modifies timeoutQ, all
      ensures Valid() && Among(all) && Accounted(due, turns, expired)
    {
      StartAll(turn.restarted, now, all);
    }

    // The head is cancelled because its deadline has passed.
    method Expire(c: Command, now: nat, ghost due: map<Command, nat>, ghost turns: seq<Turn>,
                  ghost before: seq<Expiry>, ghost all: set<Command>)
      returns (ghost expired: seq<Expiry>)
      requires Valid() && Among(all) && c in timeoutQ.cmds
      requires due.Keys <= all && Accounted(due, turns, before)
      modifies timeoutQ, all
      ensures Valid() && Among(all) && |timeoutQ.cmds| == |old(timeoutQ.cmds)| - 1
      ensures expired == before + [Expiry(c, old(c.fDeadline), now)] && Accounted(due, turns, expired)
    {
      expired := before + [Expiry(c, c.fDeadline, now)];
      assert expired[|before|].cmd == c;
      assert forall e :: e in before ==> e in expired;
      Cancel(c);
    }

    // cancel() of a plain command: complete() takes it off its queue.
    method Cancel(c: Command)
      requires Valid() && c in timeoutQ.cmds
      modifies timeoutQ, c`fQueue, timeoutQ.Members()`fQueuePrev, timeoutQ.Members()`fQueueNext
      ensures Valid() && c.fQueue == null && |timeoutQ.cmds| == |old(timeoutQ.cmds)| - 1
      ensures forall x :: x in timeoutQ.cmds <==> x in old(timeoutQ.cmds) && x != c
      ensures timeoutQ.cmds == WithoutAt(old(timeoutQ.cmds), old(timeoutQ.IndexOf(c)))
    {
      hide Distinct, WithoutAt, Ascending, Deadlines;
      ghost var s, k := timeoutQ.cmds, timeoutQ.IndexOf(c);
      ghost var d := Deadlines(s);
      assert timeoutQ.Linked(s[k], k);
      c.RemoveFromQ();
      assert Deadlines(s) == d;
      StillSorted(s, k);
      MembersWithout(s, k);
    }

    // One turn of the busReset loop: next is read before the cancel.
    method BusResetTurn(cmd: Command, ghost s: seq<Command>, ghost i: nat) returns (next: Command?)
      requires Valid() && i < |s| && cmd == s[i] && Walked(timeoutQ.cmds, s, i)
      modifies timeoutQ, timeoutQ.Members()`fQueue, timeoutQ.Members()`fQueuePrev, timeoutQ.Members()`fQueueNext
      ensures Valid() && Walked(timeoutQ.cmds, s, i + 1) && next == At(s, i + 1)
      ensures timeoutQ.Members() <= old(timeoutQ.Members())
    {
      hide Distinct, WithoutAt, Ascending, Deadlines, Survivors, At, Walked;
      ghost var k := WalkedStep(timeoutQ.cmds, s, i);
      assert timeoutQ.Linked(timeoutQ.cmds[k], k);
      next := cmd.fQueueNext;
      if cmd.cancelOnReset {
        CancelAt(cmd, k);
      }
    }

    // busReset: cancel exactly the commands that do not survive a reset.
    method BusReset()
      requires Valid()
      modifies timeoutQ, timeoutQ.Members()`fQueue, timeoutQ.Members()`fQueuePrev, timeoutQ.Members()`fQueueNext
      ensures Valid() && timeoutQ.cmds == Survivors(old(timeoutQ.cmds))
      ensures forall c :: c in timeoutQ.cmds <==> c in old(timeoutQ.cmds) && !c.cancelOnReset
    {
      hide Distinct, Survivors, At, Walked, Ascending, Deadlines, CmdQ.TimerFollowsHead, CmdQ.Valid;
      ghost var s := timeoutQ.cmds;
      ghost var i := 0;
      var cmd := HeadOf();
      AtIs(s, 0);
      WalkedStart(s);
      while cmd != null
        invariant Valid() && i <= |s| && cmd == At(s, i) && Walked(timeoutQ.cmds, s, i)
        invariant timeoutQ.Members() <= old(timeoutQ.Members())
        decreases |s| - i
      {
        AtIs(s, i);
        cmd := BusResetTurn(cmd, s, i);
        i := i + 1;
      }
      AtIs(s, i);
      WalkedEnd(timeoutQ.cmds, s);
      SurvivorsAre(s);
    }

    // ----- the same walk when the cancels run client code -----

    // The command to be looked at next is element k, or there is none left; all
    // before it survive the reset or were started by clients.
    ghost predicate Walking(next: Command?, k: nat, started: set<Command>)
      reads timeoutQ
    {
      && k <= |timeoutQ.cmds| && next == At(timeoutQ.cmds, k)
      && forall i :: 0 <= i < k ==> !timeoutQ.cmds[i].cancelOnReset || timeoutQ.cmds[i] in started
    }

    // A client cancels a command that is not the one to be looked at next.
    method EndOther(c: Command, ghost next: Command?, ghost k: nat, ghost started: set<Command>)
      returns (ghost k': nat)
      requires Valid() && c in timeoutQ.cmds && c != next && Walking(next, k, started)
      modifies timeoutQ, c`fQueue, timeoutQ.Members()`fQueuePrev, timeoutQ.Members()`fQueueNext
      ensures Valid() && c.fQueue == null
      ensures forall x :: x in timeoutQ.cmds <==> x in old(timeoutQ.cmds) && x != c
      ensures Walking(next, k', started) && |timeoutQ.cmds| - k' <= |old(timeoutQ.cmds)| - k
    {
      hide Distinct, Ascending, Deadlines;
      ghost var s, m := timeoutQ.cmds, timeoutQ.IndexOf(c);
      Cancel(c);
      k' := if m < k then k - 1 else k;
      WalkingWithout(s, m, k, next, started);
    }

    static lemma WalkingWithout(s: seq<Command>, m: nat, k: nat, next: Command?, started: set<Command>)
      requires m < |s| && k <= |s| && next == At(s, k) && s[m] != next
      requires forall i :: 0 <= i < k ==> !s[i].cancelOnReset || s[i] in started
      ensures var r, k' := WithoutAt(s, m), if m < k then k - 1 else k;
              && k' <= |r| && next == At(r, k')
              && forall i :: 0 <= i < k' ==> !r[i].cancelOnReset || r[i] in started
    {
    }

    // A client starts a command.
    method StartOther(c: Command, now: nat, ghost next: Command?, ghost k: nat, ghost started: set<Command>)
      returns (ghost k': nat)
      requires Valid() && c.fQueue == null && c.fTimeout > 0 && c in started && Walking(next, k, started)
      modifies timeoutQ, c, timeoutQ.Members()`fQueuePrev, timeoutQ.Members()`fQueueNext
      ensures Valid() && c.fQueue == timeoutQ && timeoutQ.Members() == old(timeoutQ.Members()) + {c}
      ensures Walking(next, k', started)
    {
      hide Distinct, Ascending, Deadlines;
      ghost var s := timeoutQ.cmds;
      ghost var j := Start(c, now);
      k' := if j <= k then k + 1 else k;
      WalkingInserted(s, j, c, k, next, started);
    }

    static lemma WalkingInserted(s: seq<Command>, j: nat, c: Command, k: nat, next: Command?, started: set<Command>)
      requires j <= |s| && k <= |s| && next == At(s, k) && c in started
      requires forall i :: 0 <= i < k ==> !s[i].cancelOnReset || s[i] in started
      ensures var r, k' := InsertedAt(s, j, c), if j <= k then k + 1 else k;
              && k' <= |r| && next == At(r, k')
              && forall i :: 0 <= i < k' ==> !r[i].cancelOnReset || r[i] in started
    {
    }

    // A client cancels commands, none of them the one to be looked at next.
    method EndOthers(ended: seq<Command>, ghost next: Command?, ghost k: nat, ghost started: set<Command>,
                     ghost all: set<Command>)
      returns (ghost k': nat)
      requires Valid() && Among(all) && Walking(next, k, started) && next !in ended
      requires forall c :: c in ended ==> c in all
      modifies timeoutQ, all
      ensures Valid() && Among(all) && Walking(next, k', started) && Untouched(all, ended)
    {
      hide Walking, Distinct, Ascending, Deadlines, CmdQ.Valid, CmdQ.TimerFollowsHead;
      k' := k;
      for i := 0 to |ended|
        invariant Valid() && Among(all) && Walking(next, k', started) && Untouched(all, ended)
      {
        if ended[i].fQueue == timeoutQ {
          k' := EndOther(ended[i], next, k', started);
        }
      }
    }

    // A client starts commands.
    method StartOthers(list: seq<Command>, now: nat, ghost next: Command?, ghost k: nat,
                       ghost started: set<Command>, ghost all: set<Command>)
      returns (ghost k': nat)
      requires Valid() && Among(all) && Walking(next, k, started)
      requires forall c :: c in list ==> c in all && c in started
      modifies timeoutQ, all
      ensures Valid() && Among(all) && Walking(next, k', started) && Untouched(all, list)
    {
      hide Walking, Distinct, Ascending, Deadlines, CmdQ.Valid, CmdQ.TimerFollowsHead;
      k' := k;
      for i := 0 to |list|
        invariant Valid() && Among(all) && Walking(next, k', started) && Untouched(all, list)
      {
        if list[i].fQueue == null && list[i].fTimeout != 0 {
          k' := StartOther(list[i], now, next, k', started);
        }
      }
    }

    // The client of the command just cancelled runs, and leaves the command to
    // be looked at next alone.
    method RunClient(t: Client, now: nat, ghost next: Command?, ghost k: nat, ghost started: set<Command>,
                     ghost all: set<Command>)
      returns (ghost k': nat)
      requires Valid() && Among(all) && Walking(next, k, started) && next !in t.ended
      requires forall c :: c in t.Named() ==> c in all
      requires forall c :: c in t.started ==> c in started
      modifies timeoutQ, all
      ensures Valid() && Among(all) && Walking(next, k', started) && Untouched(all, t.Named())
    {
      hide Walking, Valid;
      k' := EndOthers(t.ended, next, k, started, all);
      k' := StartOthers(t.started, now, next, k', started, all);
    }

    // A client that cancels the command to be looked at next, and what else it does.
    method RunClientStale(t: Client, now: nat, next: Command, ghost all: set<Command>)
      requires Valid() && Among(all) && next in t.ended && forall c :: c in t.Named() ==> c in all
      modifies timeoutQ, all
      ensures Valid() && Among(all) && Untouched(all, t.Named())
      ensures next.fQueue != timeoutQ || next in t.started
    {
      CompleteAll(t.ended, all);
      StartAll(t.started, now, all);
    }

    // The command looked at is cancelled; next has been read before.
    method CancelLooked(cmd: Command, ghost next: Command?, ghost k: nat, ghost started: set<Command>,
                        ghost all: set<Command>)
      requires Valid() && Among(all) && Walking(cmd, k, started) && next == At(timeoutQ.cmds, k + 1)
      modifies timeoutQ, cmd`fQueue, timeoutQ.Members()`fQueuePrev, timeoutQ.Members()`fQueueNext
      ensures Valid() && Among(all) && Walking(next, k, started) && cmd.fQueue == null
      ensures |timeoutQ.cmds| == |old(timeoutQ.cmds)| - 1
    {
      hide Distinct, Ascending, Deadlines;
      CancelAt(cmd, k);
    }

    lemma LooksAt(cmd: Command, k: nat, started: set<Command>)
      requires Valid() && Walking(cmd, k, started)
      ensures k < |timeoutQ.cmds| && cmd in timeoutQ.cmds && cmd.fQueueNext == At(timeoutQ.cmds, k + 1)
      ensures !cmd.cancelOnReset ==> Walking(cmd.fQueueNext, k + 1, started)
    {
      assert timeoutQ.Linked(timeoutQ.cmds[k], k);
    }

    // A command that ends at a reset is cancelled and its client runs.
    method CancelAndRun(cmd: Command, clients: seq<Client>, turn: nat, now: nat, ghost k: nat,
                        ghost all: set<Command>)
      returns (next: Command?, stale: bool, ghost k': nat)
      requires Valid() && Among(all) && Named(clients) <= all && Walking(cmd, k, Started(clients))
      requires cmd.cancelOnReset
      modifies timeoutQ, all
      ensures Valid() && Among(all) && Spared(all, clients)
      ensures stale == Ends(clients, turn, next)
      ensures if stale then next.fQueue != timeoutQ || next in clients[turn].started
              else Walking(next, k', Started(clients)) && k' <= |timeoutQ.cmds|
      ensures turn >= |clients| ==> |timeoutQ.cmds| - k' < |old(timeoutQ.cmds)| - k
    {
      hide Distinct, Ascending, Deadlines, Walking, CmdQ.Valid, CmdQ.TimerFollowsHead, Client.Named;
      LooksAt(cmd, k, Started(clients));
      next := cmd.fQueueNext;
      CancelLooked(cmd, next, k, Started(clients), all);
      stale, k' := false, k;
      if turn < |clients| {
        NamedHas(clients, turn);
        if next != null && next in clients[turn].ended {
          RunClientStale(clients[turn], now, next, all);
          stale := true;
        } else {
          k' := RunClient(clients[turn], now, next, k, Started(clients), all);
        }
      }
      if !stale {
        WithinQueue(next, k', Started(clients));
      }
    }

    // busReset with client code: nexts are the commands read before each cancel.
    // The walk stays on the queue as long as no client cancels the one just
    // read; it then reaches every command that a client has not started. If one
    // does, the walk goes on with a command that is off the queue, or has been
    // started again at another place; that is where this method ends.
    method BusResetWithClients(clients: seq<Client>, now: nat, ghost all: set<Command>)
      returns (stale: bool, ghost nexts: seq<Command?>)
      requires Valid() && Among(all) && Named(clients) <= all
      modifies timeoutQ, all
      ensures Valid() && Among(all)
      ensures stale <==> exists t :: 0 <= t < |nexts| && Ends(clients, t, nexts[t])
      ensures stale ==> var t := |nexts| - 1;
                && t >= 0 && Ends(clients, t, nexts[t])
                && (nexts[t].fQueue != timeoutQ || nexts[t] in clients[t].started)
      ensures !stale ==> forall c :: c in timeoutQ.cmds ==> !c.cancelOnReset || c in Started(clients)
      ensures Spared(all, clients)
    {
      hide Distinct, Ascending, Deadlines, Walking, CmdQ.Valid, CmdQ.TimerFollowsHead, Started, Named;
      stale := false;
      nexts := [];
      var cmd := HeadOf();
      ghost var k: nat := 0;
      var turn := 0;
      AtTheHead(Started(clients));
      while cmd != null && !stale
        invariant Valid() && Among(all) && turn == |nexts| && Spared(all, clients)
        invariant stale || (Walking(cmd, k, Started(clients)) && k <= |timeoutQ.cmds|)
        invariant forall t :: 0 <= t < |nexts| ==> Ends(clients, t, nexts[t]) == (stale && t == |nexts| - 1)
        invariant stale ==> |nexts| > 0 && cmd == nexts[|nexts| - 1] && cmd != null
                            && (cmd.fQueue != timeoutQ || cmd in clients[|nexts| - 1].started)
        decreases !stale, if turn < |clients| then |clients| - turn else 0, if stale then 0 else |timeoutQ.cmds| - k
      {
        if cmd.cancelOnReset {
          cmd, stale, k := CancelAndRun(cmd, clients, turn, now, k, all);
          nexts := nexts + [cmd];
          turn := turn + 1;
        } else {
          LooksAt(cmd, k, Started(clients));
          cmd := cmd.fQueueNext;
          k := k + 1;
        }
      }
      if !stale {
        WalkedAll(k, Started(clients));
      }
    }

    // The client that runs at turn t cancels the command read before.
    static predicate Ends(clients: seq<Client>, t: nat, next: Command?) {
      t < |clients| && next != null && next in clients[t].ended
    }

    // The commands that clients start.
    static ghost function Started(clients: seq<Client>): set<Command> {
      set t, c | t in clients && c in t.started :: c
    }

    static ghost function Named(clients: seq<Client>): set<Command> {
      set t, c | t in clients && c in t.Named() :: c
    }

    static lemma NamedHas(clients: seq<Client>, turn: nat)
      requires turn < |clients|
      ensures forall c :: c in clients[turn].Named() ==> c in Named(clients)
      ensures forall c :: c in clients[turn].started ==> c in Started(clients)
    {
    }

    // A command that survives a reset and that no client names keeps its place.
    twostate predicate Spared(all: set<Command>, clients: seq<Client>)
      reads all
    {
      forall c :: c in all && !c.cancelOnReset && c !in Named(clients) ==>
        c.fQueue == old(c.fQueue) && c.fDeadline == old(c.fDeadline)
    }

    lemma AtTheHead(started: set<Command>)
      requires Valid()
      ensures Walking(timeoutQ.fHead, 0, started)
    {
    }

    lemma WithinQueue(next: Command?, k: nat, started: set<Command>)
      requires Walking(next, k, started)
      ensures k <= |timeoutQ.cmds|
    {
    }

    lemma WalkedAll(k: nat, started: set<Command>)
      requires Walking(null, k, started)
      ensures forall c :: c in timeoutQ.cmds ==> !c.cancelOnReset || c in started
    {
    }

    method HeadOf() returns (c: Command?)
      requires Valid()
      ensures c == At(timeoutQ.cmds, 0)
    {
      c := timeoutQ.fHead;
    }

    // The list after the walk has dealt with the first i commands.
    ghost predicate Walked(cur: seq<Command>, s: seq<Command>, i: nat) {
      i <= |s| && cur == Survivors(s[..i]) + s[i..]
    }

    lemma WalkedStart(s: seq<Command>)
      ensures Walked(s, s, 0)
    {
    }

    lemma WalkedEnd(cur: seq<Command>, s: seq<Command>)
      requires Walked(cur, s, |s|)
      ensures cur == Survivors(s)
    {
      assert s[..|s|] == s;
    }

    // One step of the walk: s[i] stays, joining the survivors, or goes.
    lemma WalkedStep(cur: seq<Command>, s: seq<Command>, i: nat) returns (k: nat)
      requires Walked(cur, s, i) && i < |s|
      ensures k < |cur| && cur[k] == s[i] && At(cur, k + 1) == At(s, i + 1)
      ensures Walked(if s[i].cancelOnReset then WithoutAt(cur, k) else cur, s, i + 1)
    {
      var a := Survivors(s[..i]);
      k := |a|;
      assert s[..i + 1][..i] == s[..i];
      assert WithoutAt(cur, k) == a + s[i + 1..];
      assert a + s[i..] == (a + [s[i]]) + s[i + 1..];
    }

    method CancelAt(c: Command, ghost k: nat)
      requires Valid() && k < |timeoutQ.cmds| && timeoutQ.cmds[k] == c
      modifies timeoutQ, c`fQueue, timeoutQ.Members()`fQueuePrev, timeoutQ.Members()`fQueueNext
      ensures Valid() && c.fQueue == null && timeoutQ.cmds == WithoutAt(old(timeoutQ.cmds), k)
      ensures timeoutQ.Members() <= old(timeoutQ.Members())
    {
      hide WithoutAt, Ascending, Deadlines;
      if timeoutQ.IndexOf(c) != k {
        Different(timeoutQ.cmds, timeoutQ.IndexOf(c), k);
      }
      Cancel(c);
    }
  }

  // executeQueue takes the head off, and the rest stays a well-formed queue.
  method DetachHead(q: CmdQ) returns (cmd: Command)
    requires q.Valid() && !q.isTimeoutQ && q.fHead != null
    modifies q, q.fHead`fQueue, q.Members()`fQueuePrev, q.Members()`fQueueNext
    ensures cmd == old(q.fHead) && cmd.fQueue == null
    ensures q.Valid() && |old(q.cmds)| > 0 && cmd == old(q.cmds)[0] && q.cmds == old(q.cmds)[1..]
  {
    hide Distinct, At;
    ghost var s := q.cmds;
    AtIs(s, 0);
    AtIs(s, 1);
    AtIs(s, |s| - 1);
    assert q.Linked(s[0], 0);
    cmd := q.fHead;
    var newHead := cmd.fQueueNext;
    if newHead != null {
      newHead.fQueuePrev := null;
    } else {
      q.fTail := null;
    }
    q.fHead := newHead;
    cmd.fQueue := null;
    q.cmds := s[1..];
    DistinctTail(s);
    forall i | 0 <= i < |q.cmds| ensures q.Linked(q.cmds[i], i) {
      assert old(q.Linked(s[i + 1], i + 1));
      Different(s, 0, i + 1);
      if i > 0 {
        Different(s, 1, i + 1);
      }
      AtIs(s, i);
      AtIs(s, i + 2);
      AtIs(q.cmds, i - 1);
      AtIs(q.cmds, i + 1);
    }
    AtIs(q.cmds, 0);
    AtIs(q.cmds, |q.cmds| - 1);
  }

  lemma DistinctTail(s: seq<Command>)
    requires Distinct(s) && |s| > 0
    ensures Distinct(s[1..])
  {
  }
}
