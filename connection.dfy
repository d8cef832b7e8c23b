/** The deadline filter every adapter connection provides (src/connection.rs):
    `iter_until(end)` reads the connection's stream of polls, where an empty
    poll is `None`, keeps the packets and stops at the first packet that
    arrives after `end`. The stream is a finite list of events, each with
    the clock reading taken when the filter looked at it. */
module Connection {
  import opened Bytes

  /** One item of `iter()`: the clock reading when the filter sees it, and
      the packet, or `None` for a poll that found nothing. */
  datatype Event<T> = Event(now: int, item: Option<T>)

  /** The packets of a stream, empty polls dropped. */
  function Packets<T>(events: seq<Event<T>>): (ps: seq<T>)
    ensures |ps| <= |events|
  {
    if |events| == 0 then []
    else if events[0].item.None? then Packets(events[1..])
    else [events[0].item.value] + Packets(events[1..])
  }

  /** `iter_until`: empty polls are filtered out first, so only a packet
      checks the clock; the first packet seen after `end` ends the stream
      and is not yielded. */
  function IterUntil<T>(events: seq<Event<T>>, end: int): seq<T>
  {
    if |events| == 0 then []
    else if events[0].item.None? then IterUntil(events[1..], end)
    else if events[0].now > end then []
    else [events[0].item.value] + IterUntil(events[1..], end)
  }

  /** `iter_for`: `iter_until` the clock reading at the call plus the
      duration. */
  function IterFor<T>(events: seq<Event<T>>, start: int, duration: nat): (ps: seq<T>)
    ensures ps <= Packets(events)
    ensures (forall i :: 0 <= i < |events| && events[i].item.Some? ==> events[i].now <= start + duration) ==> ps == Packets(events)
  {
    IterUntilPrefix(events, start + duration);
    if forall i :: 0 <= i < |events| && events[i].item.Some? ==> events[i].now <= start + duration then
      IterUntilOnTime(events, start + duration);
      IterUntil(events, start + duration)
    else
      IterUntil(events, start + duration)
  }

  /** What is yielded is a prefix of the packets, in their order. */
  lemma {:induction false} IterUntilPrefix<T>(events: seq<Event<T>>, end: int)
    ensures IterUntil(events, end) <= Packets(events)
  {
    if |events| > 0 {
      IterUntilPrefix(events[1..], end);
    }
  }

  /** When no packet is late, every packet is yielded. */
  lemma {:induction false} IterUntilOnTime<T>(events: seq<Event<T>>, end: int)
    requires forall i :: 0 <= i < |events| && events[i].item.Some? ==> events[i].now <= end
    ensures IterUntil(events, end) == Packets(events)
  {
    if |events| > 0 {
      IterUntilOnTime(events[1..], end);
    }
  }

  /** The first late packet ends the stream: what follows it, packets or
      polls, is never read. */
  lemma {:induction false} IterUntilStops<T>(events: seq<Event<T>>, end: int, i: nat)
    requires i < |events| && events[i].item.Some? && events[i].now > end
    ensures IterUntil(events, end) == IterUntil(events[..i], end)
  {
    if i > 0 {
      IterUntilStops(events[1..], end, i - 1);
      assert events[1..][..i - 1] == events[..i][1..];
    }
  }

  /** The packets yielded before the first late packet are all the packets
      before it. */
  lemma IterUntilFirstLate<T>(events: seq<Event<T>>, end: int, i: nat)
    requires i < |events| && events[i].item.Some? && events[i].now > end
    requires forall j :: 0 <= j < i && events[j].item.Some? ==> events[j].now <= end
    ensures IterUntil(events, end) == Packets(events[..i])
  {
    IterUntilStops(events, end, i);
    IterUntilOnTime(events[..i], end);
  }

  /** Empty polls never end the stream, whenever they come: a poll can be
      taken out anywhere without changing what is yielded. */
  lemma {:induction false} PollsIgnored<T>(before: seq<Event<T>>, poll: Event<T>, after: seq<Event<T>>, end: int)
    requires poll.item.None?
    ensures IterUntil(before + [poll] + after, end) == IterUntil(before + after, end)
  {
    if |before| > 0 {
      PollsIgnored(before[1..], poll, after, end);
      assert (before + [poll] + after)[1..] == before[1..] + [poll] + after;
      assert (before + after)[1..] == before[1..] + after;
    } else {
      assert (before + [poll] + after)[1..] == after;
      assert before + after == after;
    }
  }

  /** A stream of empty polls alone yields nothing and does not end early:
      the packets after it are read as if the polls were not there. */
  lemma {:induction false} PollsOnly<T>(polls: seq<Event<T>>, rest: seq<Event<T>>, end: int)
    requires forall i :: 0 <= i < |polls| ==> polls[i].item.None?
    ensures IterUntil(polls + rest, end) == IterUntil(rest, end)
  {
    if |polls| > 0 {
      PollsOnly(polls[1..], rest, end);
      assert (polls + rest)[1..] == polls[1..] + rest;
    } else {
      assert polls + rest == rest;
    }
  }
}
