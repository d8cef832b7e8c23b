/** The push bus of src/pushbus.rs: a registry of subscriber iterators, each
    with its own queue and running flag. The registry and the iterator handed
    out share one object, as the source's `Arc`s do; the mutexes and the
    one-millisecond sleep on an empty poll are not modelled. */
module PushBusRs {
  import opened Bytes

  /** What one iterator holds: its queue and whether it still runs. */
  datatype IterState<T> = IterState(queue: seq<Option<T>>, running: bool)

  /** `next` on an iterator: `None` once it is closed, otherwise the front
      of its queue, or `Some(None)` (an empty poll) when the queue is empty. */
  function NextOf<T>(s: IterState<T>): (r: (Option<Option<T>>, IterState<T>))
    ensures r.1.running == s.running
    ensures !s.running ==> r.0.None? && r.1 == s
    ensures s.running && s.queue == [] ==> r.0 == Some(None) && r.1 == s
    ensures s.running && s.queue != [] ==> r.0 == Some(s.queue[0]) && r.1.queue == s.queue[1..]
  {
    if !s.running then (None, s)
    else if |s.queue| > 0 then (Some(s.queue[0]), s.(queue := s.queue[1..]))
    else (Some(None), s)
  }

  /** `push`: the item at the back of every registered queue. */
  function PushAll<T>(s: seq<IterState<T>>, item: Option<T>): (r: seq<IterState<T>>)
    ensures |r| == |s|
    ensures forall k :: 0 <= k < |s| ==> r[k] == IterState(s[k].queue + [item], s[k].running)
  {
    if |s| == 0 then [] else PushAll(s[..|s| - 1], item) + [IterState(s[|s| - 1].queue + [item], s[|s| - 1].running)]
  }

  /** `close`: every registered iterator stops. */
  function CloseAll<T>(s: seq<IterState<T>>): (r: seq<IterState<T>>)
    ensures |r| == |s|
    ensures forall k :: 0 <= k < |s| ==> r[k] == IterState(s[k].queue, false)
  {
    if |s| == 0 then [] else CloseAll(s[..|s| - 1]) + [IterState(s[|s| - 1].queue, false)]
  }

  /** Several pushes in a row. */
  function PushEach<T>(s: seq<IterState<T>>, items: seq<Option<T>>): (r: seq<IterState<T>>)
    ensures |r| == |s|
    decreases |items|
  {
    if |items| == 0 then s else PushEach(PushAll(s, items[0]), items[1..])
  }

  /** An iterator sees exactly what is pushed after it registered, in push
      order, and every earlier iterator gets the same items appended. */
  lemma {:induction false} PushEachAppends<T>(s: seq<IterState<T>>, items: seq<Option<T>>, k: nat)
    requires k < |s|
    ensures PushEach(s, items)[k] == IterState(s[k].queue + items, s[k].running)
    decreases |items|
  {
    if |items| > 0 {
      PushEachAppends(PushAll(s, items[0]), items[1..], k);
      assert s[k].queue + [items[0]] + items[1..] == s[k].queue + items;
    }
  }

  /** Items pushed while no iterator is registered reach nobody. */
  lemma PushNobody<T>(items: seq<Option<T>>)
    ensures PushEach([], items) == []
  {
  }

  /** Calling `next` `n` times on a running iterator. */
  function NextN<T>(s: IterState<T>, n: nat): (r: (seq<Option<Option<T>>>, IterState<T>))
    ensures |r.0| == n
    decreases n
  {
    if n == 0 then ([], s)
    else
      var (v, s') := NextOf(s);
      var (vs, s'') := NextN(s', n - 1);
      ([v] + vs, s'')
  }

  /** A running iterator gives back its queue in order, each item once, and
      then only empty polls. */
  lemma {:induction false} DrainInOrder<T>(s: IterState<T>, extra: nat)
    requires s.running
    ensures var (vs, s') := NextN(s, |s.queue| + extra);
      s' == IterState([], true)
      && (forall i :: 0 <= i < |s.queue| ==> vs[i] == Some(s.queue[i]))
      && (forall i :: |s.queue| <= i < |vs| ==> vs[i] == Some(None))
    decreases |s.queue| + extra
  {
    if |s.queue| > 0 {
      var t := s.(queue := s.queue[1..]);
      DrainInOrder(t, extra);
    } else if extra > 0 {
      DrainInOrder(s, extra - 1);
    }
  }

  /** After `close` every `next` gives `None`, however much is queued. */
  lemma {:induction false} ClosedEnds<T>(s: IterState<T>, n: nat)
    requires !s.running
    ensures var (vs, s') := NextN(s, n); s' == s && forall i :: 0 <= i < n ==> vs[i].None?
  {
    if n > 0 {
      ClosedEnds(s, n - 1);
    }
  }

  class PushBusIter<T> {
    var data: seq<Option<T>>
    var running: bool

    constructor ()
      ensures data == [] && running
    {
      data := [];
      running := true;
    }

    function State(): IterState<T>
      reads this
    {
      IterState(data, running)
    }

    /** `Iterator::next`. */
    method Next() returns (r: Option<Option<T>>)
      modifies this
      ensures (r, State()) == NextOf(old(State()))
    {
      if !running {
        return None;
      }
      if |data| > 0 {
        r := Some(data[0]);
        data := data[1..];
        return;
      }
      r := Some(None);
    }
  }

  class PushBus<T> {
    var iters: seq<PushBusIter<T>>

    /** Every iterator is registered once. */
    ghost predicate Valid()
      reads this
    {
      forall i, j :: 0 <= i < j < |iters| ==> iters[i] != iters[j]
    }

    function States(): (s: seq<IterState<T>>)
      reads this, iters
      ensures |s| == |iters|
      ensures forall k :: 0 <= k < |iters| ==> s[k] == iters[k].State()
    {
      StatesOf(iters)
    }

    constructor ()
      ensures Valid() && iters == []
    {
      iters := [];
    }

    /** `close`, also run when the bus is dropped: every registered iterator
        stops, queues untouched. */
    method Close()
      requires Valid()
      modifies set i | i in iters
      ensures Valid() && iters == old(iters)
      ensures States() == CloseAll(old(States()))
    {
      ghost var before := States();
      for k := 0 to |iters|
        invariant forall j :: 0 <= j < k ==> !iters[j].running
        invariant forall j :: k <= j < |iters| ==> iters[j].running == before[j].running
        invariant forall j :: 0 <= j < |iters| ==> iters[j].data == before[j].queue
      {
        iters[k].running := false;
      }
      ClosedStates(iters, before);
    }

    /** `iter`: a fresh iterator with an empty queue is registered and
        returned; the registry only grows. */
    method Iter() returns (it: PushBusIter<T>)
      requires Valid()
      modifies this
      ensures Valid() && fresh(it)
      ensures iters == old(iters) + [it] && it.State() == IterState([], true)
      ensures States() == old(States()) + [IterState([], true)]
    {
      it := new PushBusIter();
      iters := iters + [it];
    }

    /** `push`: a copy of the item at the back of every registered queue. */
    method Push(item: Option<T>)
      requires Valid()
      modifies set i | i in iters
      ensures Valid() && iters == old(iters)
      ensures States() == PushAll(old(States()), item)
    {
      ghost var before := States();
      for k := 0 to |iters|
        invariant forall j :: 0 <= j < k ==> iters[j].data == before[j].queue + [item]
        invariant forall j :: k <= j < |iters| ==> iters[j].data == before[j].queue
        invariant forall j :: 0 <= j < |iters| ==> iters[j].running == before[j].running
      {
        iters[k].data := iters[k].data + [item];
      }
      PushedStates(iters, before, item);
    }
  }

  lemma PushedStates<T>(its: seq<PushBusIter<T>>, before: seq<IterState<T>>, item: Option<T>)
    requires |before| == |its|
    requires forall j :: 0 <= j < |its| ==> its[j].data == before[j].queue + [item] && its[j].running == before[j].running
    ensures StatesOf(its) == PushAll(before, item)
  {
  }

  lemma ClosedStates<T>(its: seq<PushBusIter<T>>, before: seq<IterState<T>>)
    requires |before| == |its|
    requires forall j :: 0 <= j < |its| ==> its[j].data == before[j].queue && !its[j].running
    ensures StatesOf(its) == CloseAll(before)
  {
  }

  function StatesOf<T>(its: seq<PushBusIter<T>>): (s: seq<IterState<T>>)
    reads set i | i in its
    ensures |s| == |its|
    ensures forall k :: 0 <= k < |its| ==> s[k] == its[k].State()
  {
    if |its| == 0 then [] else StatesOf(its[..|its| - 1]) + [its[|its| - 1].State()]
  }
}
