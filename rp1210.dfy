/** The byte layouts of the RP1210 adapter in src/rp1210.rs: the status
    check on every driver return code, the commands `client_connect` issues,
    the buffer `send` hands to `RP1210_SendMessage`, the decoding of a
    buffer filled by `RP1210_ReadMessage`, and the reader thread that pushes
    what it decodes onto the push bus. The driver calls themselves are
    parameters: what the driver answers is given, and what it is sent is
    returned. */
module Rp1210 {
  import opened Bytes
  import J1939Id
  import PacketRs
  import PushBusRs

  /** A Rust `i16`, the type of every driver return code. */
  type I16 = x: int | -0x8000 <= x < 0x8000

  /** The size of the reader thread's buffer. */
  const PacketSize: nat := 1600

  /** `verify_return`: codes 0 to 127 are successes and come back as they
      are; anything else is an error carrying the code (the driver's text
      for it is not modelled). */
  function VerifyReturn(v: I16): (r: Result<I16, I16>)
    ensures r.Ok? <==> 0 <= v <= 127
    ensures r.Ok? ==> r.value == v
    ensures r.Err? ==> r.error == v
  {
    if v < 0 || v > 127 then Err(v) else Ok(v)
  }

  /** A `send_command` call: the command number and its argument bytes. */
  datatype Command = Command(code: nat, args: seq<Byte>)

  const ProtectJ1939Address: nat := 19
  const EchoTransmittedMessages: nat := 16
  const SetAllFiltersStatesToPass: nat := 3

  /** The commands `client_connect` issues after connecting, in order:
      claim `address` (with the fixed NAME bytes and "block until done")
      unless the application packetizes, then echo on, then open every
      filter. */
  function ConnectCommands(address: Byte, appPacketize: bool): (cmds: seq<Command>)
    ensures |cmds| == if appPacketize then 2 else 3
    ensures cmds[|cmds| - 2] == Command(EchoTransmittedMessages, [1])
    ensures cmds[|cmds| - 1] == Command(SetAllFiltersStatesToPass, [])
    ensures forall i :: 0 <= i < |cmds| ==>
      (cmds[i].code == ProtectJ1939Address <==> !appPacketize && i == 0)
    ensures !appPacketize ==> cmds[0].args == [address, 0, 0, 0xE0, 0xFF, 0, 0x81, 0, 0, 0]
  {
    var tail := [Command(EchoTransmittedMessages, [1]), Command(SetAllFiltersStatesToPass, [])];
    if appPacketize then tail
    else [Command(ProtectJ1939Address, [address, 0, 0, 0xE0, 0xFF, 0, 0x81, 0, 0, 0])] + tail
  }

  /** The index of the first failing code, or the length when all succeed. */
  function FirstFailure(codes: seq<I16>): (n: nat)
    ensures n <= |codes|
    ensures forall i :: 0 <= i < n ==> VerifyReturn(codes[i]).Ok?
    ensures n < |codes| ==> VerifyReturn(codes[n]).Err?
    decreases |codes|
  {
    if codes == [] then 0
    else if VerifyReturn(codes[0]).Err? then 0
    else 1 + FirstFailure(codes[1..])
  }

  /** `client_connect` with the driver's answers given: `connect` to the
      connection call and `replies[i]` to the `i`-th command. Each `?`
      stops at the first failure, so the commands issued are a prefix of
      `ConnectCommands`, and the client id is the connect call's answer. */
  function ClientConnect(address: Byte, appPacketize: bool, connect: I16, replies: seq<I16>)
    : (r: (seq<Command>, Result<I16, I16>))
    requires |replies| == |ConnectCommands(address, appPacketize)|
  {
    var cmds := ConnectCommands(address, appPacketize);
    if VerifyReturn(connect).Err? then ([], Err(connect))
    else
      var n := FirstFailure(replies);
      if n < |replies| then (cmds[..n + 1], Err(replies[n])) else (cmds, Ok(connect))
  }

  /** Connecting succeeds exactly when the driver accepts the connection and
      every command; then all commands were issued and the id is the
      connection's code. A failure carries the failing code, and no command
      is issued after it. */
  lemma ConnectOutcome(address: Byte, appPacketize: bool, connect: I16, replies: seq<I16>)
    requires |replies| == |ConnectCommands(address, appPacketize)|
    ensures var (issued, r) := ClientConnect(address, appPacketize, connect, replies);
      var cmds := ConnectCommands(address, appPacketize);
      (r.Ok? <==> 0 <= connect <= 127 && forall i :: 0 <= i < |replies| ==> 0 <= replies[i] <= 127)
      && (r.Ok? ==> r.value == connect && issued == cmds)
      && (r.Err? ==> r.error < 0 || r.error > 127)
      && |issued| <= |cmds| && issued == cmds[..|issued|]
      && (forall i :: 0 <= i < |issued| - 1 ==> 0 <= replies[i] <= 127)
  {
    var n := FirstFailure(replies);
    var cmds := ConnectCommands(address, appPacketize);
    if 0 <= connect <= 127 && n == |replies| {
      assert cmds[..|cmds|] == cmds;
    }
  }

  /** `send`: the PGN's three low bytes least significant first, the
      priority, the source, the destination (0 for a broadcast PGN), then
      the payload. */
  function SendBuffer(p: PacketRs.J1939Packet): (buf: seq<Byte>)
    ensures |buf| == 6 + |p.payload| && buf[6..] == p.payload && buf[..3] == PgnOfBytes(p.id)
    ensures buf[3..6] == [PacketRs.Priority(p), PacketRs.Source(p), if PacketRs.Pgn(p) < 0xF000 then PacketRs.Dest(p) else 0]
  {
    var b := PgnOfBytes(p.id);
    var dest := if PacketRs.Pgn(p) < 0xF000 then PacketRs.Dest(p) else 0;
    var header := b + [PacketRs.Priority(p), PacketRs.Source(p), dest];
    assert header[..3] == b && header[3..] == [PacketRs.Priority(p), PacketRs.Source(p), dest];
    header + p.payload
  }

  /** The first three bytes read back, most significant first, as the
      packet's PGN. */
  lemma SendBufferPgn(p: PacketRs.J1939Packet)
    ensures var buf := SendBuffer(p); Be32(0, buf[2], buf[1], buf[0]) == PacketRs.Pgn(p)
  {
    var buf := SendBuffer(p);
    var b := PgnOfBytes(p.id);
    assert buf[0] == b[0] && buf[1] == b[1] && buf[2] == b[2] by {
      assert buf[..3] == b;
    }
  }

  /** The three low bytes of an identifier's PGN, least significant first. */
  function PgnOfBytes(id: bv32): (b: seq<Byte>)
    ensures |b| == 3 && Be32(0, b[2], b[1], b[0]) == J1939Id.PgnOf(id)
  {
    J1939Id.PgnOfIsMiddle(id);
    PgnBytes(J1939Id.PgnOf(id))
  }

  /** `to_le_bytes()[0..3]` of a PGN: a PGN of at most sixteen bits reads
      back from these three bytes. */
  function PgnBytes(pgn: bv32): (b: seq<Byte>)
    requires pgn <= 0xFFFF
    ensures |b| == 3 && Be32(0, b[2], b[1], b[0]) == pgn
  {
    var (b0, b1, b2, _) := LowBytes32(pgn);
    [b0, b1, b2]
  }

  /** The reader thread's decoding of `size` bytes read: big-endian time in
      bytes 0-3, the echo flag in byte 4 (unused), the PGN least
      significant first in bytes 5-7, the priority in the low three bits of
      byte 8, the source in byte 9, the destination in byte 10 for a
      destination-specific PGN, and the payload from byte 11. The packet is
      received (it has a time) on channel 0. Fewer than eleven bytes make
      the slicing panic. */
  function DecodeRead(data: seq<Byte>): (p: PacketRs.J1939Packet)
    requires |data| >= 11
    ensures p.payload == data[11..] && p.time == Be32(data[0], data[1], data[2], data[3])
    ensures !p.tx && p.channel == 0
    ensures p.id == ReadId(Be32(0, data[7], data[6], data[5]), data[8], data[9], data[10])
    ensures PacketRs.Source(p) == data[9]
  {
    var (priority, pgn, da, sa) := ReadFields(Be32(0, data[7], data[6], data[5]), data[8], data[9], data[10]);
    PacketRs.IdentifierSource(priority, pgn, da, sa);
    PacketRs.NewPacket(Some(Be32(data[0], data[1], data[2], data[3])), 0, priority, pgn, da, sa, data[11..])
  }

  /** The `new_packet` arguments the reader takes from the PGN of bytes
      5-7 and bytes 8-10 of a read: priority, PGN (with the destination
      or'ed in), destination and source. */
  function ReadFields(pgn: bv32, b8: Byte, b9: Byte, b10: Byte): (Byte, bv32, Byte, Byte)
  {
    var da := if pgn < 0xF000 then b10 else 0;
    (b8 & 7, pgn | da as bv32, da, b9)
  }

  /** The identifier the reader builds from those fields. */
  function ReadId(pgn: bv32, b8: Byte, b9: Byte, b10: Byte): bv32
  {
    var (priority, pgn', da, sa) := ReadFields(pgn, b8, b9, b10);
    PacketRs.Identifier(priority, pgn', da, sa)
  }

  /** The big-endian bytes of a timestamp. */
  function TimeBytes(time: bv32): (b: seq<Byte>)
    ensures |b| == 4 && Be32(b[0], b[1], b[2], b[3]) == time
  {
    [(time >> 24) as Byte, ((time >> 16) & 0xFF) as Byte, ((time >> 8) & 0xFF) as Byte, (time & 0xFF) as Byte]
  }

  /** An echoed send: the driver puts a timestamp and the echo flag in
      front of the buffer it was sent. Decoding it gives back the PGN, the
      source, the destination and the payload of the packet sent, with the
      driver's time; the priority does not come back, since the packet is
      rebuilt with the priority at bit 24 and read from bit 27. */
  lemma EchoRoundTrip(p: PacketRs.J1939Packet, time: bv32, echoed: Byte)
    ensures var q := DecodeRead(TimeBytes(time) + [echoed] + SendBuffer(p));
      PacketRs.Pgn(q) == PacketRs.Pgn(p) && PacketRs.Source(q) == PacketRs.Source(p)
      && PacketRs.Dest(q) == PacketRs.Dest(p) && q.payload == p.payload
      && q.time == time && !q.tx && PacketRs.Priority(q) == 0
  {
    var s := SendBuffer(p);
    var data := TimeBytes(time) + [echoed] + s;
    assert data[5] == s[0] && data[6] == s[1] && data[7] == s[2];
    assert data[8] == s[3] && data[9] == s[4] && data[10] == s[5];
    assert data[11..] == s[6..];
    SendBufferPgn(p);
    EchoId(p.id, s[3], s[4], s[5]);
  }

  /** The identifier the reader rebuilds from an echoed send of `id` keeps
      its PGN, destination and source, and reads back priority 0. */
  lemma EchoId(id: bv32, b3: Byte, b4: Byte, b5: Byte)
    requires b4 == J1939Id.SourceOf(id)
    requires b5 == if J1939Id.PgnOf(id) < 0xF000 then J1939Id.DestOf(id) else 0
    ensures var q := ReadId(J1939Id.PgnOf(id), b3, b4, b5);
      J1939Id.PgnOf(q) == J1939Id.PgnOf(id) && J1939Id.DestOf(q) == J1939Id.DestOf(id)
      && J1939Id.SourceOf(q) == b4 && PacketRs.PriorityOf(q) == 0
  {
    var m := J1939Id.PgnOf(id);
    J1939Id.PgnOfIsMiddle(id);
    MiddleLow(id);
    if m < 0xF000 {
      EchoPdu1Read(m, b3, b4, b5);
    } else {
      EchoPdu2Read(m, b3, b4, b5);
    }
  }

  lemma EchoPdu1Read(m: bv32, b3: Byte, b4: Byte, b5: Byte)
    requires m < 0xF000 && m & 0xFF == b5 as bv32
    ensures var q := ReadId(m, b3, b4, b5);
      J1939Id.PgnOf(q) == m && J1939Id.DestOf(q) == b5
      && J1939Id.SourceOf(q) == b4 && PacketRs.PriorityOf(q) == 0
  {
    OrLow(m, b5);
    assert ReadFields(m, b3, b4, b5) == (b3 & 7, m, b5, b4);
    EchoPdu1(b3 & 7, m, b5, b4);
  }

  lemma EchoPdu2Read(m: bv32, b3: Byte, b4: Byte, b5: Byte)
    requires 0xF000 <= m <= 0xFFFF
    ensures var q := ReadId(m, b3, b4, b5);
      J1939Id.PgnOf(q) == m && J1939Id.DestOf(q) == (m & 0xFF) as Byte
      && J1939Id.SourceOf(q) == b4 && PacketRs.PriorityOf(q) == 0
  {
    assert ReadFields(m, b3, b4, b5) == (b3 & 7, m, 0, b4);
    EchoPdu2(b3 & 7, m, b4);
  }

  lemma OrLow(m: bv32, low: Byte)
    requires m & 0xFF == low as bv32
    ensures m | low as bv32 == m
  {
  }

  /** The low byte of an identifier's middle sixteen bits is its destination. */
  lemma MiddleLow(id: bv32)
    ensures ((id >> 8) & 0xFFFF) & 0xFF == J1939Id.DestOf(id) as bv32
  {
  }

  /** A destination-specific PGN whose low byte already holds `da` comes
      back whole, with `da` as the destination. */
  lemma EchoPdu1(priority: Byte, pgn: bv32, da: Byte, sa: Byte)
    requires pgn < 0xF000 && pgn & 0xFF == da as bv32
    requires priority <= 7
    ensures var q := PacketRs.Identifier(priority, pgn, da, sa);
      J1939Id.PgnOf(q) == pgn && J1939Id.DestOf(q) == da
      && J1939Id.SourceOf(q) == sa && PacketRs.PriorityOf(q) == 0
  {
    PacketRs.Pdu1Identifier(priority, pgn, da, sa);
  }

  /** A broadcast PGN comes back whole, its low byte read as the destination. */
  lemma EchoPdu2(priority: Byte, pgn: bv32, sa: Byte)
    requires 0xF000 <= pgn <= 0xFFFF && priority <= 7
    ensures var q := PacketRs.Identifier(priority, pgn, 0, sa);
      J1939Id.PgnOf(q) == pgn && J1939Id.DestOf(q) == (pgn & 0xFF) as Byte
      && J1939Id.SourceOf(q) == sa && PacketRs.PriorityOf(q) == 0
  {
    PacketRs.IdentifierBroadcast(priority, pgn, 0, sa);
  }

  /** One `RP1210_ReadMessage`: the code it returned and the thread's
      buffer after the call. */
  datatype Read = Read(size: I16, buf: seq<Byte>)

  /** A read the loop can take without panicking. */
  predicate Readable(r: Read)
  {
    |r.buf| == PacketSize && (r.size > 0 ==> 11 <= r.size <= PacketSize)
  }

  /** What one pass of the reader loop pushes: the decoded packet when the
      driver returned bytes, then always `None`; after an error or an empty
      read, only `None`. */
  function Pushes(r: Read): (items: seq<Option<PacketRs.J1939Packet>>)
    requires Readable(r)
    ensures |items| == (if r.size > 0 then 2 else 1) && items[|items| - 1] == None
  {
    if r.size > 0 then [Some(DecodeRead(r.buf[..r.size])), None] else [None]
  }

  /** Everything the loop pushes over a run of polls, in order. */
  function PushesAll(polls: seq<Read>): (items: seq<Option<PacketRs.J1939Packet>>)
    requires forall i :: 0 <= i < |polls| ==> Readable(polls[i])
    decreases |polls|
  {
    if polls == [] then [] else PushesAll(polls[..|polls| - 1]) + Pushes(polls[|polls| - 1])
  }

  /** The packets among the pushed items, the `None`s dropped, as
      `flat_map` over the bus does. */
  function Packets(items: seq<Option<PacketRs.J1939Packet>>): seq<PacketRs.J1939Packet>
  {
    if items == [] then []
    else Packets(items[..|items| - 1]) + (if items[|items| - 1].Some? then [items[|items| - 1].value] else [])
  }

  /** The packets decoded from the successful polls, in read order. */
  function Decoded(polls: seq<Read>): (ps: seq<PacketRs.J1939Packet>)
    requires forall i :: 0 <= i < |polls| ==> Readable(polls[i])
    decreases |polls|
  {
    if polls == [] then []
    else
      var r := polls[|polls| - 1];
      assert Readable(r);
      Decoded(polls[..|polls| - 1]) + (if r.size > 0 then [DecodeRead(r.buf[..r.size])] else [])
  }

  /** `None` entries in a run of pushed items. */
  function Nones(items: seq<Option<PacketRs.J1939Packet>>): nat
  {
    if items == [] then 0 else Nones(items[..|items| - 1]) + (if items[|items| - 1].None? then 1 else 0)
  }

  lemma {:induction false} PacketsAppend(a: seq<Option<PacketRs.J1939Packet>>, b: seq<Option<PacketRs.J1939Packet>>)
    ensures Packets(a + b) == Packets(a) + Packets(b)
    ensures Nones(a + b) == Nones(a) + Nones(b)
    decreases |b|
  {
    if b != [] {
      var c := b[..|b| - 1];
      assert (a + b)[..|a + b| - 1] == a + c;
      PacketsAppend(a, c);
    } else {
      assert a + b == a;
    }
  }

  /** A subscriber that skips the `None`s sees exactly the packets decoded
      from the successful polls, in read order, and gets one `None` per
      pass of the loop. */
  lemma {:induction false} PushesAllDecoded(polls: seq<Read>)
    requires forall i :: 0 <= i < |polls| ==> Readable(polls[i])
    ensures Packets(PushesAll(polls)) == Decoded(polls)
    ensures Nones(PushesAll(polls)) == |polls|
    decreases |polls|
  {
    if polls != [] {
      var init := polls[..|polls| - 1];
      PushesAllDecoded(init);
      var r := polls[|polls| - 1];
      var step := Pushes(r);
      PacketsAppend(PushesAll(init), step);
      if r.size > 0 {
        var q := DecodeRead(r.buf[..r.size]);
        assert step == [Some(q), None];
        assert step[..1] == [Some(q)] && step[..1][..0] == [];
        assert Packets(step[..1]) == [q] && Nones(step[..1]) == 0;
        assert Packets(step) == [q] && Nones(step) == 1;
      } else {
        assert step == [None] && step[..0] == [];
      }
    }
  }

  /** Pushing two runs in turn is pushing them together. */
  lemma {:induction false} PushEachConcat<T>(s: seq<PushBusRs.IterState<T>>, a: seq<Option<T>>, b: seq<Option<T>>)
    ensures PushBusRs.PushEach(s, a + b) == PushBusRs.PushEach(PushBusRs.PushEach(s, a), b)
    decreases |a|
  {
    if a != [] {
      assert (a + b)[1..] == a[1..] + b;
      PushEachConcat(PushBusRs.PushAll(s, a[0]), a[1..], b);
    } else {
      assert a + b == b;
    }
  }

  /** The reader thread over the polls it makes before its running flag is
      cleared: each pass pushes its items onto the bus, so every registered
      subscriber ends with exactly `PushesAll(polls)` appended. */
  method ReadLoop(bus: PushBusRs.PushBus<PacketRs.J1939Packet>, polls: seq<Read>)
    requires bus.Valid()
    requires forall i :: 0 <= i < |polls| ==> Readable(polls[i])
    modifies set i | i in bus.iters
    ensures bus.Valid() && bus.iters == old(bus.iters)
    ensures bus.States() == PushBusRs.PushEach(old(bus.States()), PushesAll(polls))
  {
    ghost var before := bus.States();
    for k := 0 to |polls|
      invariant bus.Valid() && bus.iters == old(bus.iters)
      invariant bus.States() == PushBusRs.PushEach(before, PushesAll(polls[..k]))
    {
      var r := polls[k];
      assert polls[..k + 1][..k] == polls[..k];
      ghost var mid := bus.States();
      if r.size > 0 {
        var p := DecodeRead(r.buf[..r.size]);
        bus.Push(Some(p));
      }
      bus.Push(None);
      PushEachConcat(before, PushesAll(polls[..k]), Pushes(r));
      PassPushed(mid, r, bus.States());
    }
    assert polls[..|polls|] == polls;
  }

  lemma PassPushed(mid: seq<PushBusRs.IterState<PacketRs.J1939Packet>>, r: Read,
                   after: seq<PushBusRs.IterState<PacketRs.J1939Packet>>)
    requires Readable(r)
    requires r.size > 0 ==> after == PushBusRs.PushAll(PushBusRs.PushAll(mid, Some(DecodeRead(r.buf[..r.size]))), None)
    requires r.size <= 0 ==> after == PushBusRs.PushAll(mid, None)
    ensures after == PushBusRs.PushEach(mid, Pushes(r))
  {
    var items := Pushes(r);
    if r.size > 0 {
      var x := Some(DecodeRead(r.buf[..r.size]));
      assert items == [x, None] && items[1..] == [None] && items[1..][1..] == [];
      var once := PushBusRs.PushAll(mid, x);
      assert PushBusRs.PushEach(once, [None]) == PushBusRs.PushAll(once, None);
    } else {
      assert items == [None] && items[1..] == [];
    }
  }

  /** Every subscriber registered before the loop ends with its queue
      followed by everything the loop pushed. */
  lemma ReadLoopQueues(before: seq<PushBusRs.IterState<PacketRs.J1939Packet>>, polls: seq<Read>, k: nat)
    requires forall i :: 0 <= i < |polls| ==> Readable(polls[i])
    requires k < |before|
    ensures PushBusRs.PushEach(before, PushesAll(polls))[k].queue == before[k].queue + PushesAll(polls)
  {
    PushBusRs.PushEachAppends(before, PushesAll(polls), k);
  }
}
