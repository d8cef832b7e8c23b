/** The multi-headed queue of src/multiqueue.rs (and its copy in src/bus.rs):
    a singly linked list whose last node is always empty, a shared head that
    points at that empty node, and iterators that each hold their own node
    pointer and a deadline. The list is modelled as the shared log of the
    items pushed so far, oldest first; a node pointer is a position in that
    log, and the empty head node is the position just past its end. Clocks
    are explicit readings in milliseconds; the read and write locks and the
    one-millisecond sleep inside `next` are not modelled. */
module MultiQueueRs {
  import opened Bytes

  /** The shared list: every item pushed so far, oldest first. */
  class Log<T> {
    var items: seq<T>

    constructor ()
      ensures items == []
    {
      items := [];
    }
  }

  /** One `next` when the clock reads `now` at its first deadline check:
      nothing once the deadline is reached; otherwise the item at the
      iterator's node and the node after it, or nothing when that node is
      still the empty head (nothing is pushed while `next` waits here, so
      the wait ends at the deadline). */
  function NextAt<T>(items: seq<T>, pos: nat, until: int, now: int): (Option<T>, nat)
  {
    if now >= until then (None, pos)
    else if pos < |items| then (Some(items[pos]), pos + 1)
    else (None, pos)
  }

  /** Successive `next` calls made at the clock readings `nows`. */
  function Reads<T>(items: seq<T>, pos: nat, until: int, nows: seq<int>): (r: seq<Option<T>>)
    ensures |r| == |nows|
    decreases |nows|
  {
    if nows == [] then []
    else
      var (o, p) := NextAt(items, pos, until, nows[0]);
      [o] + Reads(items, p, until, nows[1..])
  }

  /** Before the deadline an iterator yields the items from its node on, in
      push order, each once, and then nothing. */
  lemma {:induction false} ReadsInOrder<T>(items: seq<T>, pos: nat, until: int, nows: seq<int>)
    requires forall i :: 0 <= i < |nows| ==> nows[i] < until
    ensures forall i :: 0 <= i < |nows| ==>
      Reads(items, pos, until, nows)[i] == if pos + i < |items| then Some(items[pos + i]) else None
    decreases |nows|
  {
    if nows != [] {
      var p := NextAt(items, pos, until, nows[0]).1;
      ReadsInOrder(items, p, until, nows[1..]);
      if pos < |items| {
        assert p == pos + 1;
      } else {
        assert p == pos;
      }
    }
  }

  /** From the deadline on, `next` yields nothing, even with items pending,
      and the iterator stays where it is. */
  lemma {:induction false} LateReadsNothing<T>(items: seq<T>, pos: nat, until: int, nows: seq<int>)
    requires forall i :: 0 <= i < |nows| ==> nows[i] >= until
    ensures forall i :: 0 <= i < |nows| ==> Reads(items, pos, until, nows)[i] == None
  {
    if nows != [] {
      LateReadsNothing(items, pos, until, nows[1..]);
    }
  }

  /** An iterator created when `before` had been pushed yields exactly the
      later items, in push order, and nothing after them; what was pushed
      before it was created is never seen. */
  lemma SeesOnlyLater<T>(before: seq<T>, later: seq<T>, until: int, nows: seq<int>)
    requires |nows| > |later|
    requires forall i :: 0 <= i < |nows| ==> nows[i] < until
    ensures Reads(before + later, |before|, until, nows)[..|later|] == Somes(later)
    ensures forall i :: |later| <= i < |nows| ==> Reads(before + later, |before|, until, nows)[i] == None
  {
    var r := Reads(before + later, |before|, until, nows);
    ReadsInOrder(before + later, |before|, until, nows);
    forall i | 0 <= i < |later|
      ensures r[i] == Some(later[i])
    {
      assert (before + later)[|before| + i] == later[i];
    }
  }

  /** The items wrapped in `Some`, as an iterator yields them. */
  function Somes<T>(s: seq<T>): (r: seq<Option<T>>)
    ensures |r| == |s|
    ensures forall i :: 0 <= i < |s| ==> r[i] == Some(s[i])
  {
    seq(|s|, i requires 0 <= i < |s| => Some(s[i]))
  }

  /** The iterator: its own node pointer and its deadline. */
  class MqIter<T> {
    const log: Log<T>
    var pos: nat
    const until: int

    constructor (log: Log<T>, pos: nat, until: int)
      ensures this.log == log && this.pos == pos && this.until == until
    {
      this.log := log;
      this.pos := pos;
      this.until := until;
    }

    /** `Iterator::next`. `clock` holds the readings of the deadline checks
        in turn; the last one is past the deadline, as the wall clock
        eventually is. Only this iterator's own node pointer moves. */
    method Next(clock: seq<int>) returns (r: Option<T>)
      requires |clock| > 0 && clock[|clock| - 1] >= until
      modifies this
      ensures (r, pos) == NextAt(log.items, old(pos), until, clock[0])
    {
      var o: Option<T> := None;
      var k := 0;
      while o.None? && clock[k] < until
        invariant 0 <= k <= |clock|
        invariant o.None? ==> k < |clock|
        invariant pos == old(pos)
        invariant k > 0 ==> clock[0] < until
        invariant o.Some? ==> k > 0
        invariant o.None? && k > 0 ==> pos >= |log.items|
        invariant o.Some? ==> pos < |log.items| && o == Some(log.items[pos])
        decreases |clock| - k
      {
        if pos < |log.items| {
          o := Some(log.items[pos]);
        }
        k := k + 1;
      }
      if o.Some? {
        pos := pos + 1;
      }
      r := o;
    }
  }

  /** The queue: a handle on the shared head. Clones share the list. */
  class MultiQueue<T> {
    const log: Log<T>

    /** `new`: an empty list. */
    constructor ()
      ensures fresh(log) && log.items == []
    {
      log := new Log();
    }

    /** `clone` (`clone_bus` in src/bus.rs): another handle on the same
        list, so a push through either reaches the iterators of both. */
    method CloneBus() returns (q: MultiQueue<T>)
      ensures fresh(q) && q.log == log
    {
      q := new MultiQueue.Share(log);
    }

    constructor Share(log: Log<T>)
      ensures this.log == log
    {
      this.log := log;
    }

    /** `push`: the item fills the empty head node and a new empty node
        becomes the head; nothing already in the list changes. */
    method Push(item: T)
      modifies log
      ensures log.items == old(log.items) + [item]
    {
      log.items := log.items + [item];
    }

    /** `iter_for`: an iterator starting at the current empty head, with
        the deadline `now + duration`. */
    method IterFor(now: int, duration: nat) returns (it: MqIter<T>)
      ensures fresh(it) && it.log == log && it.pos == |log.items| && it.until == now + duration
    {
      it := new MqIter(log, |log.items|, now + duration);
    }

    /** `iter`: `iter_for` with a zero duration. */
    method Iter(now: int) returns (it: MqIter<T>)
      ensures fresh(it) && it.log == log && it.pos == |log.items| && it.until == now
    {
      it := IterFor(now, 0);
    }
  }

  /** The scenario of the module's own test: push "one", create an iterator
      with a 200 ms deadline, push "two" and "three"; the iterator yields
      "two", "three" and then nothing. */
  method Simple(start: int) returns (a: Option<string>, b: Option<string>, c: Option<string>)
    ensures a == Some("two") && b == Some("three") && c == None
  {
    var q := new MultiQueue<string>();
    q.Push("one");
    var i := q.IterFor(start, 200);
    q.Push("two");
    q.Push("three");
    a := i.Next([start + 1, start + 200]);
    b := i.Next([start + 2, start + 200]);
    c := i.Next([start + 3, start + 200]);
  }

  /** Two iterators on one queue keep their own positions: reading from
      one consumes nothing from the other. */
  method Independent<T>(x: T, y: T, start: int) returns (a: Option<T>, b: Option<T>, c: Option<T>)
    ensures a == Some(x) && b == Some(y) && c == Some(x)
  {
    var q := new MultiQueue<T>();
    var i := q.IterFor(start, 100);
    var j := q.IterFor(start, 100);
    q.Push(x);
    q.Push(y);
    a := i.Next([start + 1, start + 100]);
    b := i.Next([start + 2, start + 100]);
    c := j.Next([start + 3, start + 100]);
  }

  /** `iter` as written: the deadline is the moment of creation, so an item
      pushed after it is never yielded, however soon it is asked for. */
  method IterSeesNothing<T>(x: T, start: int, later: int) returns (a: Option<T>)
    requires later >= start
    ensures a == None
  {
    var q := new MultiQueue<T>();
    var i := q.Iter(start);
    q.Push(x);
    a := i.Next([later]);
  }

  /** The items `each` hands to `func`: the ones its `next` calls yield, in
      order. */
  function Handed<T>(rs: seq<Option<T>>): (r: seq<T>)
    ensures |r| <= |rs|
    ensures (forall i :: 0 <= i < |rs| ==> rs[i].None?) ==> r == []
    decreases |rs|
  {
    if rs == [] then []
    else (if rs[0].Some? then [rs[0].value] else []) + Handed(rs[1..])
  }

  /** `each` (and so `log`) as written: it reads through `iter`, whose
      deadline has passed by the first read, so `func` is never called,
      whatever is pushed, and the thread spins forever. */
  lemma EachHandsNothing<T>(items: seq<T>, pos: nat, start: int, nows: seq<int>)
    requires forall i :: 0 <= i < |nows| ==> nows[i] >= start
    ensures Handed(Reads(items, pos, start, nows)) == []
  {
    LateReadsNothing(items, pos, start, nows);
  }

  /** The read `each` evidently intends: no deadline, so each round takes
      the pending item if there is one and otherwise nothing yet. It is
      what `next` does before any deadline. */
  function Poll<T>(items: seq<T>, pos: nat): (r: (Option<T>, nat))
    ensures forall until: int, now: int :: now < until ==> NextAt(items, pos, until, now) == r
  {
    if pos < |items| then (Some(items[pos]), pos + 1) else (None, pos)
  }

  /** `n` rounds of the deadline-free read. */
  function PollRounds<T>(items: seq<T>, pos: nat, n: nat): (r: seq<Option<T>>)
    ensures |r| == n
    decreases n
  {
    if n == 0 then []
    else
      var (o, p) := Poll(items, pos);
      [o] + PollRounds(items, p, n - 1)
  }

  /** The deadline-free `each` hands `func` the items from its node on, in
      push order, as many as it has had rounds for. */
  lemma {:induction false} PollRoundsHand<T>(items: seq<T>, pos: nat, n: nat)
    requires pos <= |items|
    ensures Handed(PollRounds(items, pos, n)) == items[pos..if pos + n < |items| then pos + n else |items|]
    decreases n
  {
    if n > 0 {
      var rs := PollRounds(items, pos, n);
      var p := Poll(items, pos).1;
      PollRoundsHand(items, p, n - 1);
      assert rs[1..] == PollRounds(items, p, n - 1);
      if pos < |items| {
        assert p == pos + 1;
        var end := if pos + n < |items| then pos + n else |items|;
        assert items[pos..end] == [items[pos]] + items[pos + 1..end];
      }
    }
  }

  /** So with the deadline-free read, an `each` started when `before` had
      been pushed calls `func` on exactly the later items, in push order,
      once it has had a round for each. */
  lemma EachForeverHandsLater<T>(before: seq<T>, later: seq<T>, n: nat)
    requires n >= |later|
    ensures Handed(PollRounds(before + later, |before|, n)) == later
  {
    PollRoundsHand(before + later, |before|, n);
    assert (before + later)[|before|..] == later;
  }
}
