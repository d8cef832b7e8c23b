/** The older push bus of src/bus.rs: a registry, shared by every clone of
    the bus and by every iterator, of entries that each pair a queue with a
    deadline. An iterator handed out by `iter_for` shares its queue with
    its registry entry but holds its own copy of the deadline. Clocks are
    explicit readings in milliseconds; the mutexes and the one-millisecond
    sleep on an empty poll are not modelled. The `MultiQueue` of this file
    is the same code as src/multiqueue.rs and is modelled once, in module
    MultiQueueRs. */
module BusRs {
  import opened Bytes

  /** The queue of one iterator (`Arc<Mutex<VecDeque<T>>>`). */
  class Queue<T> {
    var items: seq<T>

    constructor ()
      ensures items == []
    {
      items := [];
    }
  }

  /** A registry entry: the registered clone of an iterator, which shares
      the iterator's queue and keeps the deadline it was created with. */
  datatype Entry<T> = Entry(data: Queue<T>, end: int)

  /** What one entry holds: its queued items and its deadline. */
  datatype EntryState<T> = EntryState(queue: seq<T>, end: int)

  /** `is_running`: the clock has not passed the deadline. */
  predicate Running(now: int, end: int)
  {
    now <= end
  }

  /** `push`: the item at the back of every registered queue. */
  function PushAll<T>(s: seq<EntryState<T>>, item: T): (r: seq<EntryState<T>>)
    ensures |r| == |s|
    ensures forall k :: 0 <= k < |s| ==> r[k] == EntryState(s[k].queue + [item], s[k].end)
  {
    if |s| == 0 then [] else PushAll(s[..|s| - 1], item) + [EntryState(s[|s| - 1].queue + [item], s[|s| - 1].end)]
  }

  /** Several pushes in a row. */
  function PushEach<T>(s: seq<EntryState<T>>, items: seq<T>): (r: seq<EntryState<T>>)
    ensures |r| == |s|
    decreases |items|
  {
    if |items| == 0 then s else PushEach(PushAll(s, items[0]), items[1..])
  }

  /** Every registered queue receives every pushed item, in push order;
      deadlines are untouched, so an expired entry keeps collecting items
      until some iterator is dropped. */
  lemma {:induction false} PushEachAppends<T>(s: seq<EntryState<T>>, items: seq<T>, k: nat)
    requires k < |s|
    ensures PushEach(s, items)[k] == EntryState(s[k].queue + items, s[k].end)
    decreases |items|
  {
    if |items| > 0 {
      PushEachAppends(PushAll(s, items[0]), items[1..], k);
      assert s[k].queue + [items[0]] + items[1..] == s[k].queue + items;
    }
  }

  /** `next` when the clock reads `now` at its first running check: the
      front of the queue while running, otherwise nothing; an empty queue
      is waited on until the deadline, and nothing is pushed meanwhile. */
  function NextOf<T>(queue: seq<T>, end: int, now: int): (Option<T>, seq<T>)
  {
    if Running(now, end) && |queue| > 0 then (Some(queue[0]), queue[1..]) else (None, queue)
  }

  /** Successive `next` calls made at the clock readings `nows`. */
  function Reads<T>(queue: seq<T>, end: int, nows: seq<int>): (r: seq<Option<T>>)
    ensures |r| == |nows|
    decreases |nows|
  {
    if nows == [] then []
    else
      var (o, q) := NextOf(queue, end, nows[0]);
      [o] + Reads(q, end, nows[1..])
  }

  /** While running, an iterator yields its queue front to back, each item
      once, and then nothing. */
  lemma {:induction false} ReadsInOrder<T>(queue: seq<T>, end: int, nows: seq<int>)
    requires forall i :: 0 <= i < |nows| ==> nows[i] <= end
    ensures forall i :: 0 <= i < |nows| ==>
      Reads(queue, end, nows)[i] == if i < |queue| then Some(queue[i]) else None
    decreases |nows|
  {
    if nows != [] {
      var q := NextOf(queue, end, nows[0]).1;
      ReadsInOrder(q, end, nows[1..]);
      forall i | 1 <= i < |nows|
        ensures Reads(queue, end, nows)[i] == if i < |queue| then Some(queue[i]) else None
      {
        assert Reads(queue, end, nows)[i] == Reads(q, end, nows[1..])[i - 1];
        if i < |queue| {
          assert q[i - 1] == queue[i];
        }
      }
    }
  }

  /** After the deadline `next` yields nothing, however much is queued. */
  lemma {:induction false} LateReadsNothing<T>(queue: seq<T>, end: int, nows: seq<int>)
    requires forall i :: 0 <= i < |nows| ==> nows[i] > end
    ensures forall i :: 0 <= i < |nows| ==> Reads(queue, end, nows)[i] == None
    decreases |nows|
  {
    if nows != [] {
      LateReadsNothing(queue, end, nows[1..]);
    }
  }

  /** `retain(|i| i.is_running())`, with one clock reading for all entries:
      the entries still running, in their order. */
  function Retain<T>(entries: seq<Entry<T>>, now: int): (r: seq<Entry<T>>)
    ensures |r| <= |entries|
    ensures forall e :: e in r ==> e in entries
    decreases |entries|
  {
    if |entries| == 0 then []
    else
      var init := Retain(entries[..|entries| - 1], now);
      var e := entries[|entries| - 1];
      if Running(now, e.end) then init + [e] else init
  }

  /** An entry is kept exactly when it is registered and still running. */
  lemma {:induction false} RetainKeeps<T>(entries: seq<Entry<T>>, now: int, e: Entry<T>)
    ensures e in Retain(entries, now) <==> e in entries && Running(now, e.end)
    decreases |entries|
  {
    if |entries| > 0 {
      var init := entries[..|entries| - 1];
      RetainKeeps(init, now, e);
      assert entries == init + [entries[|entries| - 1]];
    }
  }

  /** No queue is registered twice. */
  ghost predicate Distinct<T>(entries: seq<Entry<T>>)
  {
    forall i, j :: 0 <= i < j < |entries| ==> entries[i].data != entries[j].data
  }

  /** Dropping expired entries keeps the registered queues distinct. */
  lemma {:induction false} RetainDistinct<T>(entries: seq<Entry<T>>, now: int)
    requires Distinct(entries)
    ensures Distinct(Retain(entries, now))
    decreases |entries|
  {
    if |entries| > 0 {
      var init := entries[..|entries| - 1];
      var e := entries[|entries| - 1];
      RetainDistinct(init, now);
      var r := Retain(init, now);
      forall i | 0 <= i < |r|
        ensures r[i].data != e.data
      {
        assert r[i] in init;
      }
    }
  }

  /** The registry shared by the bus, its clones and its iterators. */
  class Registry<T> {
    var entries: seq<Entry<T>>

    constructor ()
      ensures entries == []
    {
      entries := [];
    }

    ghost predicate Valid()
      reads this
    {
      Distinct(entries)
    }

    /** The queues and deadlines of the registered entries, in order. */
    function Contents(): (s: seq<EntryState<T>>)
      reads this, set e | e in entries :: e.data
      ensures |s| == |entries|
      ensures forall k :: 0 <= k < |entries| ==> s[k] == EntryState(entries[k].data.items, entries[k].end)
    {
      ContentsOf(entries)
    }
  }

  function ContentsOf<T>(entries: seq<Entry<T>>): (s: seq<EntryState<T>>)
    reads set e | e in entries :: e.data
    ensures |s| == |entries|
    ensures forall k :: 0 <= k < |entries| ==> s[k] == EntryState(entries[k].data.items, entries[k].end)
  {
    if |entries| == 0 then []
    else
      var e := entries[|entries| - 1];
      ContentsOf(entries[..|entries| - 1]) + [EntryState(e.data.items, e.end)]
  }

  lemma PushedContents<T>(entries: seq<Entry<T>>, before: seq<EntryState<T>>, item: T)
    requires |before| == |entries|
    requires forall j :: 0 <= j < |entries| ==> entries[j].data.items == before[j].queue + [item] && entries[j].end == before[j].end
    ensures ContentsOf(entries) == PushAll(before, item)
  {
  }

  /** The iterator handed out by `iter_for`: the shared queue and registry,
      and its own copy of the deadline. */
  class PushBusIter<T> {
    const data: Queue<T>
    const registry: Registry<T>
    var end: int

    constructor (data: Queue<T>, registry: Registry<T>, end: int)
      ensures this.data == data && this.registry == registry && this.end == end
    {
      this.data := data;
      this.registry := registry;
      this.end := end;
    }

    /** `is_running`. */
    function IsRunning(now: int): (b: bool)
      reads this
      ensures b <==> Running(now, end)
    {
      now <= end
    }

    /** `Iterator::next`. `clock` holds the readings of the running checks
        in turn; the last one is past the deadline, as the wall clock
        eventually is. */
    method Next(clock: seq<int>) returns (r: Option<T>)
      requires |clock| > 0 && clock[|clock| - 1] > end
      modifies data
      ensures (r, data.items) == NextOf(old(data.items), end, clock[0])
    {
      var k := 0;
      while IsRunning(clock[k])
        invariant 0 <= k < |clock|
        invariant data.items == old(data.items)
        invariant k > 0 ==> Running(clock[0], end) && |data.items| == 0
        decreases |clock| - k
      {
        if |data.items| > 0 {
          r := Some(data.items[0]);
          data.items := data.items[1..];
          return;
        }
        k := k + 1;
      }
      r := None;
    }

    /** `Drop`: this handle's deadline is set one second into the past, and
        every registry entry whose own deadline has passed is removed. */
    method Drop(now: int)
      requires registry.Valid()
      modifies this, registry
      ensures end == now - 1000
      ensures registry.entries == Retain(old(registry.entries), now) && registry.Valid()
    {
      end := now - 1000;
      RetainDistinct(registry.entries, now);
      registry.entries := Retain(registry.entries, now);
    }
  }

  /** As written, `Drop` leaves the dropped iterator's own entry registered
      while that entry's deadline has not passed: the deadline it moves is
      the handle's copy, not the registered one. */
  lemma DropKeepsOwnEntry<T>(entries: seq<Entry<T>>, own: Entry<T>, now: int)
    requires own in entries && now <= own.end
    ensures own in Retain(entries, now)
  {
    RetainKeeps(entries, now, own);
  }

  /** The evident intent of `Drop`: the dropped iterator stops running, so
      its entry goes along with the expired ones. */
  function RetainDropped<T>(entries: seq<Entry<T>>, own: Queue<T>, now: int): (r: seq<Entry<T>>)
    ensures |r| <= |entries|
    decreases |entries|
  {
    if |entries| == 0 then []
    else
      var init := RetainDropped(entries[..|entries| - 1], own, now);
      var e := entries[|entries| - 1];
      if e.data != own && Running(now, e.end) then init + [e] else init
  }

  /** With the intended `Drop`, an entry stays exactly when it belongs to
      another iterator that is still running. */
  lemma {:induction false} RetainDroppedKeeps<T>(entries: seq<Entry<T>>, own: Queue<T>, now: int, e: Entry<T>)
    ensures e in RetainDropped(entries, own, now) <==> e in entries && e.data != own && Running(now, e.end)
    decreases |entries|
  {
    if |entries| > 0 {
      var init := entries[..|entries| - 1];
      RetainDroppedKeeps(init, own, now, e);
      assert entries == init + [entries[|entries| - 1]];
    }
  }

  /** The bus: a handle on the shared registry. */
  class PushBus<T> {
    const registry: Registry<T>

    /** `new`: an empty registry. */
    constructor ()
      ensures fresh(registry) && registry.entries == [] && registry.Valid()
    {
      registry := new Registry();
    }

    constructor Share(registry: Registry<T>)
      ensures this.registry == registry
    {
      this.registry := registry;
    }

    /** `clone_bus`: another handle on the same registry. */
    method CloneBus() returns (b: PushBus<T>)
      ensures fresh(b) && b.registry == registry
    {
      b := new PushBus.Share(registry);
    }

    /** `iter_for`: a fresh empty queue is registered with the deadline
        `now + duration`, and an iterator sharing it is returned. */
    method IterFor(now: int, duration: nat) returns (it: PushBusIter<T>)
      requires registry.Valid()
      modifies registry
      ensures registry.Valid() && fresh(it) && fresh(it.data)
      ensures it.data.items == [] && it.end == now + duration && it.registry == registry
      ensures registry.entries == old(registry.entries) + [Entry(it.data, now + duration)]
    {
      var q := new Queue();
      it := new PushBusIter(q, registry, now + duration);
      registry.entries := registry.entries + [Entry(q, now + duration)];
    }

    /** `push`: a copy of the item at the back of every registered queue. */
    method Push(item: T)
      requires registry.Valid()
      modifies set e | e in registry.entries :: e.data
      ensures registry.Valid()
      ensures registry.Contents() == PushAll(old(registry.Contents()), item)
    {
      ghost var before := registry.Contents();
      var entries := registry.entries;
      for k := 0 to |entries|
        invariant forall j :: 0 <= j < k ==> entries[j].data.items == before[j].queue + [item]
        invariant forall j :: k <= j < |entries| ==> entries[j].data.items == before[j].queue
      {
        entries[k].data.items := entries[k].data.items + [item];
      }
      PushedContents(entries, before, item);
    }
  }
}
