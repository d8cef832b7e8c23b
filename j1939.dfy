/** The receive side of the J1939 transport protocol (section 5.10 of SAE
    J1939-21) as src/j1939.rs implements it, together with the request
    (PGN 0xEA00) builder and its response matcher.

    Two session tables keyed by the sender's source address are kept, one
    for broadcast announce (BAM) sessions and one for sessions addressed to
    this node (RTS/CTS). A connection-management frame (TP.CM, PGN 0xEC00)
    opens or aborts a session; data-transfer frames (TP.DT, PGN 0xEB00)
    append their seven-byte segments in strict sequence; a completed message
    is put into the packet stream right after the frame that completed it.
    The packets are those of src/packet.rs (module PacketRs). */
module J1939Tp {
  import opened Bytes
  import J1939Id
  import opened PacketRs

  /** `TPDescriptor`: an open session. */
  datatype Descriptor = Descriptor(size: bv16, count: Byte, pgn: bv32, data: seq<Byte>, timestamp: Option<bv32>)

  /** A session table, keyed by the sender's source address (held as a
      number: the verifier reasons about map updates with numeric keys). */
  type Table = map<nat, Descriptor>

  /** The table key of a frame's sender. */
  function Key(p: J1939Packet): nat
  {
    Source(p) as nat
  }

  /** The TP.CM control bytes the engine acts on. */
  const RTS: Byte := 0x10
  const BAM: Byte := 0x20
  const ABORT: Byte := 0xFF
  const CTS: Byte := 0x11

  /** A request to send or a broadcast announce opens a session. */
  predicate Opens(command: Byte)
  {
    command == BAM || command == RTS
  }

  // ---------------------------------------------------------------------
  // control

  /** What `control` indexes: the control byte, and all eight bytes of an
      opening frame. A shorter frame makes the source panic. */
  predicate ControlOk(p: J1939Packet)
  {
    |p.payload| >= 1 && (Opens(p.payload[0]) ==> |p.payload| >= 8)
  }

  /** The fresh session an opening frame describes: size from little-endian
      bytes 1-2, packet count from byte 3, PGN from little-endian bytes 5-7,
      nothing collected yet, and the frame's time. */
  function Session(p: J1939Packet): Descriptor
    requires |p.payload| >= 8
  {
    var d := p.payload;
    Descriptor(Le16(d[1], d[2]), d[3], Be32(0, d[7], d[6], d[5]), [], Some(p.time))
  }

  /** The clear-to-send frame answering an opening frame: priority 6,
      PGN 0xEC00 addressed back to the sender from the address it was sent
      to, asking for all `count` packets starting at packet 1. */
  function ClearToSend(p: J1939Packet): J1939Packet
    requires |p.payload| >= 8
  {
    var d := p.payload;
    NewPacket(None, 1, 6, 0xEC00, Source(p), Dest(p), [CTS, d[3], 1, 0xFF, 0xFF, d[5], d[6], d[7]])
  }

  datatype ControlResult = ControlResult(table: Table, cts: Option<J1939Packet>)

  /** `control`: a TP.CM frame applied to one session table, with the CTS
      frame it sends, if any. Only the sender's entry can change, and a CTS
      goes out exactly for an opening frame on a table that is not passive. */
  function Control(table: Table, passive: bool, p: J1939Packet): (r: ControlResult)
    requires ControlOk(p)
    ensures r.table - {Key(p)} == table - {Key(p)}
    ensures r.cts.Some? <==> !passive && Opens(p.payload[0])
  {
    var command := p.payload[0];
    if Opens(command) then
      ControlResult(table[Key(p) := Session(p)], if passive then None else Some(ClearToSend(p)))
    else if command == ABORT then
      ControlResult(table - {Key(p)}, None)
    else
      ControlResult(table, None)
  }

  /** An opening frame installs a fresh empty session for its sender,
      replacing any session that sender had open. */
  lemma ControlOpens(table: Table, passive: bool, p: J1939Packet)
    requires |p.payload| >= 8 && Opens(p.payload[0])
    ensures var r, d := Control(table, passive, p), p.payload;
      && Key(p) in r.table
      && r.table[Key(p)].data == []
      && r.table[Key(p)].count == d[3]
      && r.table[Key(p)].timestamp == Some(p.time)
      && LowBytes16(r.table[Key(p)].size) == (d[1], d[2])
      && LowBytes32(r.table[Key(p)].pgn) == (d[5], d[6], d[7], 0)
  {
    var d := p.payload;
    assert Control(table, passive, p).table == table[Key(p) := Session(p)];
    Le16Bytes(d[1], d[2]);
    Be32Bytes(0, d[7], d[6], d[5]);
  }

  /** The CTS frame goes back to the sender, comes from the address the
      opening frame was sent to, and echoes the count and the PGN. */
  lemma ClearToSendFields(p: J1939Packet)
    requires |p.payload| >= 8
    ensures var c, d := ClearToSend(p), p.payload;
      && Dest(c) == Source(p) && Source(c) == Dest(p)
      && Pgn(c) == 0xEC00 | Source(p) as bv32
      && c.payload == [0x11, d[3], 1, 0xFF, 0xFF, d[5], d[6], d[7]]
      && c.tx && c.channel == 1
  {
    var d := p.payload;
    var data := [CTS, d[3], 1, 0xFF, 0xFF, d[5], d[6], d[7]];
    NewPacketSource(None, 1, 6, 0xEC00, Source(p), Dest(p), data);
    NewPacketDirected(None, 1, 6, 0xEC00, Source(p), Dest(p), data);
  }

  /** An abort frame closes the sender's session. */
  lemma ControlAborts(table: Table, passive: bool, p: J1939Packet)
    requires |p.payload| >= 1 && p.payload[0] == ABORT
    ensures Key(p) !in Control(table, passive, p).table
  {
  }

  /** Any other control byte (CTS, end-of-message acknowledgement, ...)
      changes nothing and sends nothing. */
  lemma ControlIgnores(table: Table, passive: bool, p: J1939Packet)
    requires |p.payload| >= 1 && !Opens(p.payload[0]) && p.payload[0] != ABORT
    ensures Control(table, passive, p) == ControlResult(table, None)
  {
  }

  // ---------------------------------------------------------------------
  // data

  /** The sequence number the next segment must carry: one more than the
      number of whole segments collected, truncated to a byte. */
  function Expected(d: Descriptor): Byte
  {
    ((1 + |d.data| / 7) % 256) as Byte
  }

  /** What `data` indexes: the sequence byte, but only when the sender has
      a session open. */
  predicate DataOk(table: Table, p: J1939Packet)
  {
    Key(p) in table ==> |p.payload| >= 1
  }

  /** The session's bytes once this frame is taken into account: its bytes
      after the sequence number are appended when it is the expected
      segment, and it is dropped otherwise. */
  function Collected(d: Descriptor, p: J1939Packet): (s: seq<Byte>)
    requires |p.payload| >= 1
    ensures d.data <= s
    ensures |s| > |d.data| ==> p.payload[0] == Expected(d) && s == d.data + p.payload[1..]
  {
    if p.payload[0] == Expected(d) then d.data + p.payload[1..] else d.data
  }

  datatype DataResult = DataResult(table: Table, packet: Option<J1939Packet>)

  /** `data`: a TP.DT frame applied to one session table, with the
      reassembled packet when the frame completes its session. Only the
      sender's entry can change, and a completed session is removed. */
  function Data(table: Table, p: J1939Packet): (r: DataResult)
    requires DataOk(table, p)
    ensures r.table - {Key(p)} == table - {Key(p)}
    ensures r.packet.Some? ==> Key(p) in table && Key(p) !in r.table
                               && |r.packet.value.payload| == table[Key(p)].size as int
  {
    var key := Key(p);
    if key !in table then DataResult(table, None)
    else
      var d := table[key];
      var collected := Collected(d, p);
      if |collected| >= d.size as int then
        DataResult(table - {key},
                   Some(NewPacket(d.timestamp, 0, Priority(p), d.pgn, Dest(p), Source(p), collected[..d.size])))
      else
        DataResult(table[key := d.(data := collected)], None)
  }

  /** A frame from a sender without a session emits nothing and changes
      nothing. */
  lemma DataWithoutSession(table: Table, p: J1939Packet)
    requires Key(p) !in table
    ensures Data(table, p) == DataResult(table, None)
  {
  }

  /** The expected segment that does not complete the message is appended. */
  lemma DataAppends(table: Table, p: J1939Packet)
    requires Key(p) in table && |p.payload| >= 1
    requires var d := table[Key(p)];
      p.payload[0] == Expected(d) && |d.data| + |p.payload| - 1 < d.size as int
    ensures var d, r := table[Key(p)], Data(table, p);
      r.packet == None && Key(p) in r.table && r.table[Key(p)] == d.(data := d.data + p.payload[1..])
  {
  }

  /** An out-of-order, repeated or skipped segment is dropped: the table is
      left as it was. */
  lemma DataDropsOutOfOrder(table: Table, p: J1939Packet)
    requires Key(p) in table && |p.payload| >= 1
    requires var d := table[Key(p)];
      p.payload[0] != Expected(d) && |d.data| < d.size as int
    ensures Data(table, p) == DataResult(table, None)
  {
    var d := table[Key(p)];
    assert table[Key(p) := d.(data := d.data)] == table;
  }

  /** Once the collected bytes reach the declared size, exactly `size` of
      them are emitted as one packet that carries the session's PGN and
      timestamp and the data frame's priority, destination and source, and
      the session is closed. */
  lemma DataCompletes(table: Table, p: J1939Packet)
    requires Key(p) in table && |p.payload| >= 1
    requires var d := table[Key(p)]; |Collected(d, p)| >= d.size as int
    ensures var d, r := table[Key(p)], Data(table, p);
      && Key(p) !in r.table
      && r.packet.Some?
      && var q := r.packet.value;
      && q.payload == Collected(d, p)[..d.size]
      && q.tx == d.timestamp.None?
      && q.time == (if d.timestamp.Some? then d.timestamp.value else 0)
      && q.id == Identifier(Priority(p), d.pgn, Dest(p), Source(p))
      && Source(q) == Source(p)
  {
    var d := table[Key(p)];
    IdentifierSource(Priority(p), d.pgn, Dest(p), Source(p));
  }

  // ---------------------------------------------------------------------
  // receive_tp

  /** Which branch of `receive_tp` a frame takes, by bits 8-23 of its
      identifier, in the order the source tests them. */
  datatype Kind = BamControl | DirectedControl | BamData | DirectedData | Other

  function KindOf(addr: Byte, id: bv32): Kind
  {
    var m := id & 0xFF_FF00;
    if m == 0xEC_FF00 then BamControl
    else if m == 0xEC_0000 | ((addr as bv32) << 8) then DirectedControl
    else if m == 0xEB_FF00 then BamData
    else if m == 0xEB_0000 | ((addr as bv32) << 8) then DirectedData
    else Other
  }

  /** Broadcast frames are those sent to the global address 0xFF, directed
      frames those sent to this node's address. */
  lemma KindOfAddresses(addr: Byte, id: bv32)
    ensures (KindOf(addr, id).BamControl? || KindOf(addr, id).BamData?) ==> J1939Id.DestOf(id) == 0xFF
    ensures (KindOf(addr, id).DirectedControl? || KindOf(addr, id).DirectedData?) ==> J1939Id.DestOf(id) == addr
  {
  }

  /** A node listening on the global address sees every session as a
      broadcast one: the broadcast tests come first. */
  lemma KindOfGlobal(id: bv32)
    ensures !KindOf(0xFF, id).DirectedControl? && !KindOf(0xFF, id).DirectedData?
  {
  }

  datatype Tables = Tables(bam: Table, ds: Table)

  datatype StepResult = StepResult(tables: Tables, emitted: Option<J1939Packet>, cts: Option<J1939Packet>)

  /** What one frame needs so that no index in its branch panics. */
  predicate StepOk(addr: Byte, t: Tables, p: J1939Packet)
  {
    match KindOf(addr, p.id)
    case BamControl => ControlOk(p)
    case DirectedControl => ControlOk(p)
    case BamData => DataOk(t.bam, p)
    case DirectedData => DataOk(t.ds, p)
    case Other => true
  }

  /** The body of `receive_tp`'s closure for one frame: the new tables, the
      reassembled packet to put after the frame, and the CTS frame sent.
      Broadcast frames use only the broadcast table, directed frames only
      the other one; broadcast sessions never send a CTS; other frames
      change nothing. */
  function Step(addr: Byte, passive: bool, t: Tables, p: J1939Packet): (r: StepResult)
    requires StepOk(addr, t, p)
    ensures (KindOf(addr, p.id).BamControl? || KindOf(addr, p.id).BamData?) ==> r.tables.ds == t.ds
    ensures (KindOf(addr, p.id).DirectedControl? || KindOf(addr, p.id).DirectedData?) ==> r.tables.bam == t.bam
    ensures r.cts.Some? <==> KindOf(addr, p.id).DirectedControl? && !passive && Opens(p.payload[0])
    ensures r.emitted.Some? ==> KindOf(addr, p.id).BamData? || KindOf(addr, p.id).DirectedData?
    ensures KindOf(addr, p.id).Other? ==> r == StepResult(t, None, None)
  {
    match KindOf(addr, p.id)
    case BamControl =>
      var c := Control(t.bam, true, p);
      StepResult(t.(bam := c.table), None, c.cts)
    case DirectedControl =>
      var c := Control(t.ds, passive, p);
      StepResult(t.(ds := c.table), None, c.cts)
    case BamData =>
      var d := Data(t.bam, p);
      StepResult(t.(bam := d.table), d.packet, None)
    case DirectedData =>
      var d := Data(t.ds, p);
      StepResult(t.(ds := d.table), d.packet, None)
    case Other =>
      StepResult(t, None, None)
  }

  /** An item of the output stream: an input frame passed on, or a
      reassembled message put after it. */
  datatype Item = Forwarded(packet: J1939Packet) | Reassembled(packet: J1939Packet)

  datatype Run = Run(tables: Tables, out: seq<Item>, cts: seq<J1939Packet>)

  function OptionSeq<T>(o: Option<T>): seq<T>
  {
    if o.Some? then [o.value] else []
  }

  /** The items the closure yields for one frame. */
  function Yield(p: J1939Packet, s: StepResult): seq<Item>
  {
    [Forwarded(p)] + if s.emitted.Some? then [Reassembled(s.emitted.value)] else []
  }

  /** No frame of the stream panics, in the state the earlier frames left. */
  predicate RunOk(addr: Byte, passive: bool, t: Tables, ps: seq<J1939Packet>)
    decreases |ps|
  {
    |ps| == 0 || (StepOk(addr, t, ps[0]) && RunOk(addr, passive, Step(addr, passive, t, ps[0]).tables, ps[1..]))
  }

  /** `receive_tp` over a finite stream: the closure applied to each frame
      in turn, threading the two tables. Each frame yields itself and at
      most one reassembled message, and sends at most one CTS frame. */
  function ReceiveTp(addr: Byte, passive: bool, t: Tables, ps: seq<J1939Packet>): (r: Run)
    requires RunOk(addr, passive, t, ps)
    ensures |ps| <= |r.out| <= 2 * |ps|
    ensures |r.cts| <= |ps|
    decreases |ps|
  {
    if |ps| == 0 then Run(t, [], [])
    else
      var s := Step(addr, passive, t, ps[0]);
      var rest := ReceiveTp(addr, passive, s.tables, ps[1..]);
      Run(rest.tables, Yield(ps[0], s) + rest.out, OptionSeq(s.cts) + rest.cts)
  }

  /** The packets the iterator yields. */
  function Packets(out: seq<Item>): (ps: seq<J1939Packet>)
    ensures |ps| == |out| && forall i :: 0 <= i < |out| ==> ps[i] == out[i].packet
  {
    seq(|out|, i requires 0 <= i < |out| => out[i].packet)
  }

  /** The frames passed on, in order. */
  function Originals(out: seq<Item>): seq<J1939Packet>
  {
    if |out| == 0 then [] else Original(out[0]) + Originals(out[1..])
  }

  function Original(item: Item): seq<J1939Packet>
  {
    if item.Forwarded? then [item.packet] else []
  }

  /** Every frame passed on as it came, in order. */
  function Forward(ps: seq<J1939Packet>): (out: seq<Item>)
    ensures |out| == |ps| && forall i :: 0 <= i < |ps| ==> out[i] == Forwarded(ps[i])
  {
    seq(|ps|, i requires 0 <= i < |ps| => Forwarded(ps[i]))
  }

  lemma {:induction false} OriginalsAppend(a: seq<Item>, b: seq<Item>)
    ensures Originals(a + b) == Originals(a) + Originals(b)
    decreases |a|
  {
    if |a| == 0 {
      assert a + b == b;
    } else {
      assert (a + b)[1..] == a[1..] + b;
      OriginalsAppend(a[1..], b);
    }
  }

  lemma {:induction false} PacketsAppend(a: seq<Item>, b: seq<Item>)
    ensures Packets(a + b) == Packets(a) + Packets(b)
  {
  }

  /** One frame's items hold that frame once. */
  lemma YieldOriginals(p: J1939Packet, s: StepResult)
    ensures Originals(Yield(p, s)) == [p]
  {
    var y := Yield(p, s);
    assert Originals(y[1..]) == [];
  }

  /** Every input frame is passed on unchanged and in order: dropping the
      reassembled messages from the output gives back the input. */
  lemma {:induction false} ReceiveTpForwards(addr: Byte, passive: bool, t: Tables, ps: seq<J1939Packet>)
    requires RunOk(addr, passive, t, ps)
    ensures Originals(ReceiveTp(addr, passive, t, ps).out) == ps
    decreases |ps|
  {
    if |ps| > 0 {
      var s := Step(addr, passive, t, ps[0]);
      ReceiveTpForwards(addr, passive, s.tables, ps[1..]);
      OriginalsAppend(Yield(ps[0], s), ReceiveTp(addr, passive, s.tables, ps[1..]).out);
      YieldOriginals(ps[0], s);
      assert [ps[0]] + ps[1..] == ps;
    }
  }

  /** Data frames are the only ones a message is reassembled from. */
  predicate IsDataFrame(addr: Byte, p: J1939Packet)
  {
    KindOf(addr, p.id).BamData? || KindOf(addr, p.id).DirectedData?
  }

  /** A reassembled message comes right after a forwarded data frame. */
  lemma {:induction false} ReassembledAfterData(addr: Byte, passive: bool, t: Tables, ps: seq<J1939Packet>, k: nat)
    requires RunOk(addr, passive, t, ps)
    requires var out := ReceiveTp(addr, passive, t, ps).out; k < |out| && out[k].Reassembled?
    ensures var out := ReceiveTp(addr, passive, t, ps).out;
      k > 0 && out[k - 1].Forwarded? && IsDataFrame(addr, out[k - 1].packet)
    decreases |ps|
  {
    var s := Step(addr, passive, t, ps[0]);
    var y := Yield(ps[0], s);
    var rest := ReceiveTp(addr, passive, s.tables, ps[1..]).out;
    assert ReceiveTp(addr, passive, t, ps).out == y + rest;
    if k >= |y| {
      ReassembledAfterData(addr, passive, s.tables, ps[1..], k - |y|);
      IndexPastPrefix(y, rest, k);
    } else {
      YieldReassembled(addr, passive, t, ps[0], k);
    }
  }

  /** Within one frame's yield, a reassembled message follows the data
      frame that completed it. */
  lemma YieldReassembled(addr: Byte, passive: bool, t: Tables, p: J1939Packet, k: nat)
    requires StepOk(addr, t, p)
    requires var y := Yield(p, Step(addr, passive, t, p)); k < |y| && y[k].Reassembled?
    ensures var y := Yield(p, Step(addr, passive, t, p));
      k == 1 && y[0].Forwarded? && IsDataFrame(addr, y[0].packet)
  {
  }

  lemma IndexPastPrefix<T>(a: seq<T>, b: seq<T>, k: nat)
    requires |a| < k < |a| + |b|
    ensures (a + b)[k - 1] == b[k - |a| - 1] && (a + b)[k] == b[k - |a|]
  {
  }

  /** A stream with no transport-protocol frames passes through untouched:
      nothing reassembled, no CTS, tables unchanged. */
  lemma {:induction false} ReceiveTpPassThrough(addr: Byte, passive: bool, t: Tables, ps: seq<J1939Packet>)
    requires forall i :: 0 <= i < |ps| ==> KindOf(addr, ps[i].id).Other?
    ensures RunOk(addr, passive, t, ps)
    ensures ReceiveTp(addr, passive, t, ps) == Run(t, Forward(ps), [])
    decreases |ps|
  {
    if |ps| > 0 {
      ReceiveTpPassThrough(addr, passive, t, ps[1..]);
      assert Step(addr, passive, t, ps[0]) == StepResult(t, None, None);
      ReceiveTpCons(addr, passive, t, ps);
      ForwardCons(ps);
    }
  }

  // ---------------------------------------------------------------------
  // A whole transfer, start to end

  /** The table that holds the sessions of one kind: the directed table or
      the broadcast one. */
  function TableOf(t: Tables, directed: bool): Table
  {
    if directed then t.ds else t.bam
  }

  /** The tables with the one of the given kind replaced. */
  function WithTable(t: Tables, directed: bool, table: Table): (r: Tables)
    ensures TableOf(r, directed) == table && TableOf(r, !directed) == TableOf(t, !directed)
  {
    if directed then t.(ds := table) else t.(bam := table)
  }

  /** A data frame of the given kind: directed to this node, or broadcast. */
  predicate IsData(addr: Byte, directed: bool, id: bv32)
  {
    if directed then KindOf(addr, id).DirectedData? else KindOf(addr, id).BamData?
  }

  /** Segment `k` (from 1) of a message: its bytes 7(k-1) up to 7k, or up
      to the end. */
  function Chunk(msg: seq<Byte>, k: nat): (c: seq<Byte>)
    requires 1 <= k && 7 * (k - 1) < |msg|
    ensures 1 <= |c| <= 7
  {
    msg[7 * (k - 1)..if 7 * k < |msg| then 7 * k else |msg|]
  }

  /** The number of segments a message of `n` bytes takes. */
  function Segments(n: nat): nat
  {
    (n + 6) / 7
  }

  /** Frame `p` is segment `k` of message `msg` from `sa`: an eight-byte
      data frame of the given kind with sequence number `k` whose bytes
      after it start with the segment (the rest is padding). */
  predicate IsSegment(addr: Byte, directed: bool, sa: Byte, msg: seq<Byte>, k: nat, p: J1939Packet)
  {
    && 1 <= k <= 255 && 7 * (k - 1) < |msg|
    && IsData(addr, directed, p.id) && Source(p) == sa
    && |p.payload| == 8 && p.payload[0] == k as Byte
    && p.payload[1..1 + |Chunk(msg, k)|] == Chunk(msg, k)
  }

  /** A well-formed transfer of `msg` from `sa`: an eight-byte opening
      frame (`command`) of the given kind announcing the message's size,
      then every segment in order. At most 255 segments can be numbered,
      so a message is at most 1785 bytes. */
  predicate IsTransfer(addr: Byte, directed: bool, command: Byte, sa: Byte, msg: seq<Byte>, ps: seq<J1939Packet>)
  {
    && 1 <= |msg| <= 1785 && |ps| == Segments(|msg|) + 1
    && (if directed then KindOf(addr, ps[0].id).DirectedControl? else KindOf(addr, ps[0].id).BamControl?)
    && Source(ps[0]) == sa
    && |ps[0].payload| == 8 && ps[0].payload[0] == command
    && Le16(ps[0].payload[1], ps[0].payload[2]) as int == |msg|
    && forall k :: 1 <= k < |ps| ==> IsSegment(addr, directed, sa, msg, k, ps[k])
  }

  /** A broadcast announce transfer: a BAM, then the broadcast segments. */
  predicate IsBamTransfer(addr: Byte, sa: Byte, msg: seq<Byte>, ps: seq<J1939Packet>)
  {
    IsTransfer(addr, false, BAM, sa, msg, ps)
  }

  /** A directed transfer to this node: a request to send, then the
      segments addressed to this node. */
  predicate IsDirectedTransfer(addr: Byte, sa: Byte, msg: seq<Byte>, ps: seq<J1939Packet>)
  {
    IsTransfer(addr, true, RTS, sa, msg, ps)
  }

  /** `ReceiveTp` on a non-empty stream: the first frame's items, then the
      rest of the stream's. */
  lemma ReceiveTpCons(addr: Byte, passive: bool, t: Tables, ps: seq<J1939Packet>)
    requires |ps| >= 1 && StepOk(addr, t, ps[0])
    requires RunOk(addr, passive, Step(addr, passive, t, ps[0]).tables, ps[1..])
    ensures RunOk(addr, passive, t, ps)
    ensures var s := Step(addr, passive, t, ps[0]);
      var rest := ReceiveTp(addr, passive, s.tables, ps[1..]);
      ReceiveTp(addr, passive, t, ps) == Run(rest.tables, Yield(ps[0], s) + rest.out, OptionSeq(s.cts) + rest.cts)
  {
  }

  /** A frame that completes nothing yields itself alone. */
  lemma YieldAlone(p: J1939Packet, s: StepResult)
    requires s.emitted.None?
    ensures Yield(p, s) == [Forwarded(p)]
  {
  }

  lemma ForwardCons(ps: seq<J1939Packet>)
    requires |ps| >= 1
    ensures Forward(ps) == [Forwarded(ps[0])] + Forward(ps[1..])
  {
  }

  /** A message of `n` bytes fills all but the last of its segments. */
  lemma SegmentsBounds(n: nat)
    requires n >= 1
    ensures 7 * (Segments(n) - 1) < n <= 7 * Segments(n)
  {
  }

  /** A session holding `j` whole segments expects segment `j + 1`. */
  lemma ExpectedNext(d: Descriptor, j: nat)
    requires |d.data| == 7 * j && j < 255
    ensures Expected(d) == (j + 1) as Byte
  {
    assert (7 * j) / 7 == j;
  }

  /** Segment `j + 1` continues the first `j` segments: the collected bytes
      are the next prefix of the message, or the whole message followed by
      padding once the last segment is in. */
  lemma SegmentCollected(addr: Byte, directed: bool, sa: Byte, msg: seq<Byte>, j: nat, d: Descriptor, p: J1939Packet)
    requires IsSegment(addr, directed, sa, msg, j + 1, p) && d.data == msg[..7 * j]
    ensures 7 * (j + 1) < |msg| ==> Collected(d, p) == msg[..7 * (j + 1)]
    ensures 7 * (j + 1) >= |msg| ==> |Collected(d, p)| >= |msg| && Collected(d, p)[..|msg|] == msg
  {
    ExpectedNext(d, j);
    var c := Chunk(msg, j + 1);
    if 7 * (j + 1) < |msg| {
      assert p.payload[1..] == c;
      assert msg[..7 * j] + c == msg[..7 * (j + 1)];
    } else {
      assert (d.data + p.payload[1..])[..|msg|] == d.data + c;
      assert msg[..7 * j] + msg[7 * j..] == msg;
    }
  }

  /** A data frame of the given kind is handled by `data` on that kind's
      table, and leaves the other table alone. */
  lemma DataStep(addr: Byte, directed: bool, passive: bool, t: Tables, p: J1939Packet)
    requires IsData(addr, directed, p.id) && DataOk(TableOf(t, directed), p)
    ensures StepOk(addr, t, p)
    ensures var s, d := Step(addr, passive, t, p), Data(TableOf(t, directed), p);
      s == StepResult(WithTable(t, directed, d.table), d.packet, None)
  {
  }

  /** What one segment does to the table of a session that holds the
      segments before it. */
  lemma SegmentStep(addr: Byte, directed: bool, passive: bool, t: Tables, sa: Byte, msg: seq<Byte>, j: nat, p: J1939Packet)
    requires IsSegment(addr, directed, sa, msg, j + 1, p)
    requires var table := TableOf(t, directed);
      sa as nat in table && table[sa as nat].size as int == |msg| && table[sa as nat].data == msg[..7 * j]
    ensures StepOk(addr, t, p)
    ensures var s, table := Step(addr, passive, t, p), TableOf(t, directed);
      var d := table[sa as nat];
      if 7 * (j + 1) < |msg| then
        s == StepResult(WithTable(t, directed, table[sa as nat := d.(data := msg[..7 * (j + 1)])]), None, None)
      else
        s == StepResult(WithTable(t, directed, table - {sa as nat}),
                        Some(NewPacket(d.timestamp, 0, Priority(p), d.pgn, Dest(p), sa, msg)), None)
  {
    var table: Table := TableOf(t, directed);
    SegmentCollected(addr, directed, sa, msg, j, table[sa as nat], p);
    DataStep(addr, directed, passive, t, p);
  }

  /** Replacing a table twice keeps the second one. */
  lemma WithTableTwice(t: Tables, directed: bool, a: Table, b: Table)
    ensures WithTable(WithTable(t, directed, a), directed, b) == WithTable(t, directed, b)
  {
  }

  /** The segments from number `j + 1` on, fed to a session that holds the
      first `j` segments, complete the message. */
  lemma {:induction false} TransferRest(addr: Byte, directed: bool, passive: bool, t: Tables, sa: Byte, msg: seq<Byte>,
                                        timestamp: Option<bv32>, pgn: bv32, ps: seq<J1939Packet>, j: nat)
    requires 1 <= |msg| && |ps| >= 1 && j + |ps| == Segments(|msg|)
    requires var table := TableOf(t, directed);
      sa as nat in table && table[sa as nat].size as int == |msg| && table[sa as nat].data == msg[..7 * j]
      && table[sa as nat].timestamp == timestamp && table[sa as nat].pgn == pgn
    requires forall k :: 0 <= k < |ps| ==> IsSegment(addr, directed, sa, msg, j + k + 1, ps[k])
    ensures RunOk(addr, passive, t, ps)
    ensures ReceiveTp(addr, passive, t, ps).tables == WithTable(t, directed, TableOf(t, directed) - {sa as nat})
    ensures ReceiveTp(addr, passive, t, ps).cts == []
    ensures var r, last := ReceiveTp(addr, passive, t, ps), ps[|ps| - 1];
      r.out == Forward(ps) + [Reassembled(NewPacket(timestamp, 0, Priority(last), pgn, Dest(last), sa, msg))]
    decreases |ps|
  {
    var table: Table := TableOf(t, directed);
    var d := table[sa as nat];
    SegmentsBounds(|msg|);
    if |ps| == 1 {
      LastSegment(addr, directed, passive, t, sa, msg, timestamp, pgn, ps, j);
    } else {
      assert 7 * (j + 1) < |msg|;
      var d' := d.(data := msg[..7 * (j + 1)]);
      var t' := WithTable(t, directed, table[sa as nat := d']);
      assert TableOf(t', directed)[sa as nat] == d';
      SegmentsShift(addr, directed, sa, msg, ps, j);
      TransferRest(addr, directed, passive, t', sa, msg, timestamp, pgn, ps[1..], j + 1);
      assert ps[1..][|ps[1..]| - 1] == ps[|ps| - 1];
      SegmentCons(addr, directed, passive, t, sa, msg, timestamp, pgn, ps, j, t');
    }
  }

  /** A segment that does not complete the message, followed by the rest
      of the transfer. */
  lemma SegmentCons(addr: Byte, directed: bool, passive: bool, t: Tables, sa: Byte, msg: seq<Byte>,
                    timestamp: Option<bv32>, pgn: bv32, ps: seq<J1939Packet>, j: nat, t': Tables)
    requires |ps| >= 2 && 7 * (j + 1) < |msg| && IsSegment(addr, directed, sa, msg, j + 1, ps[0])
    requires var table := TableOf(t, directed);
      sa as nat in table && table[sa as nat].size as int == |msg| && table[sa as nat].data == msg[..7 * j]
    requires var table := TableOf(t, directed);
      t' == WithTable(t, directed, table[sa as nat := table[sa as nat].(data := msg[..7 * (j + 1)])])
    requires RunOk(addr, passive, t', ps[1..])
    requires ReceiveTp(addr, passive, t', ps[1..]).tables == WithTable(t', directed, TableOf(t', directed) - {sa as nat})
    requires ReceiveTp(addr, passive, t', ps[1..]).cts == []
    requires var last := ps[|ps| - 1];
      ReceiveTp(addr, passive, t', ps[1..]).out
        == Forward(ps[1..]) + [Reassembled(NewPacket(timestamp, 0, Priority(last), pgn, Dest(last), sa, msg))]
    ensures RunOk(addr, passive, t, ps)
    ensures ReceiveTp(addr, passive, t, ps).tables == WithTable(t, directed, TableOf(t, directed) - {sa as nat})
    ensures ReceiveTp(addr, passive, t, ps).cts == []
    ensures var last := ps[|ps| - 1];
      ReceiveTp(addr, passive, t, ps).out
        == Forward(ps) + [Reassembled(NewPacket(timestamp, 0, Priority(last), pgn, Dest(last), sa, msg))]
  {
    var p := ps[0];
    var table: Table := TableOf(t, directed);
    SegmentStep(addr, directed, passive, t, sa, msg, j, p);
    var s := Step(addr, passive, t, p);
    assert s == StepResult(t', None, None);
    ReceiveTpCons(addr, passive, t, ps);
    assert TableOf(t', directed) - {sa as nat} == table - {sa as nat};
    WithTableTwice(t, directed, table[sa as nat := table[sa as nat].(data := msg[..7 * (j + 1)])], table - {sa as nat});
    var last := ps[|ps| - 1];
    var tail := [Reassembled(NewPacket(timestamp, 0, Priority(last), pgn, Dest(last), sa, msg))];
    YieldAlone(p, s);
    ForwardCons(ps);
    AppendAssociative([Forwarded(p)], Forward(ps[1..]), tail);
  }

  /** The last segment completes the message. */
  lemma LastSegment(addr: Byte, directed: bool, passive: bool, t: Tables, sa: Byte, msg: seq<Byte>,
                    timestamp: Option<bv32>, pgn: bv32, ps: seq<J1939Packet>, j: nat)
    requires |ps| == 1 && 7 * (j + 1) >= |msg|
    requires IsSegment(addr, directed, sa, msg, j + 1, ps[0])
    requires var table := TableOf(t, directed);
      sa as nat in table && table[sa as nat].size as int == |msg| && table[sa as nat].data == msg[..7 * j]
      && table[sa as nat].timestamp == timestamp && table[sa as nat].pgn == pgn
    ensures RunOk(addr, passive, t, ps)
    ensures var r := ReceiveTp(addr, passive, t, ps);
      r.tables == WithTable(t, directed, TableOf(t, directed) - {sa as nat}) && r.cts == []
    ensures ReceiveTp(addr, passive, t, ps).out
         == Forward(ps) + [Reassembled(NewPacket(timestamp, 0, Priority(ps[0]), pgn, Dest(ps[0]), sa, msg))]
  {
    SegmentStep(addr, directed, passive, t, sa, msg, j, ps[0]);
    ReceiveTpCons(addr, passive, t, ps);
    ForwardCons(ps);
  }

  /** The segments after the first, renumbered from the next one. */
  lemma SegmentsShift(addr: Byte, directed: bool, sa: Byte, msg: seq<Byte>, ps: seq<J1939Packet>, j: nat)
    requires |ps| >= 1 && forall k :: 0 <= k < |ps| ==> IsSegment(addr, directed, sa, msg, j + k + 1, ps[k])
    ensures forall k :: 0 <= k < |ps| - 1 ==> IsSegment(addr, directed, sa, msg, (j + 1) + k + 1, ps[1..][k])
  {
    forall k | 0 <= k < |ps| - 1
      ensures IsSegment(addr, directed, sa, msg, (j + 1) + k + 1, ps[1..][k])
    {
      assert IsSegment(addr, directed, sa, msg, j + (k + 1) + 1, ps[k + 1]);
    }
  }

  lemma TransferSegments(addr: Byte, directed: bool, command: Byte, sa: Byte, msg: seq<Byte>, ps: seq<J1939Packet>)
    requires IsTransfer(addr, directed, command, sa, msg, ps)
    ensures forall k :: 0 <= k < |ps| - 1 ==> IsSegment(addr, directed, sa, msg, 0 + k + 1, ps[1..][k])
  {
    forall k | 0 <= k < |ps| - 1
      ensures IsSegment(addr, directed, sa, msg, 0 + k + 1, ps[1..][k])
    {
      assert IsSegment(addr, directed, sa, msg, k + 1, ps[k + 1]);
    }
  }

  /** A complete transfer of either kind, after its opening frame has been
      handled: the frames are passed on and the message follows them, with
      the opening frame's PGN and time and the last frame's priority and
      destination; the session is closed. */
  lemma TransferAfterOpen(addr: Byte, directed: bool, passive: bool, t: Tables,
                          sa: Byte, msg: seq<Byte>, d: Descriptor, ps: seq<J1939Packet>)
    requires 1 <= |msg| && |ps| == Segments(|msg|) && d.size as int == |msg| && d.data == []
    requires forall k :: 0 <= k < |ps| ==> IsSegment(addr, directed, sa, msg, 0 + k + 1, ps[k])
    ensures RunOk(addr, passive, WithTable(t, directed, TableOf(t, directed)[sa as nat := d]), ps)
    ensures var r, last := ReceiveTp(addr, passive, WithTable(t, directed, TableOf(t, directed)[sa as nat := d]), ps), ps[|ps| - 1];
      && r.tables == WithTable(t, directed, TableOf(t, directed) - {sa as nat}) && r.cts == []
      && r.out == Forward(ps) + [Reassembled(NewPacket(d.timestamp, 0, Priority(last), d.pgn, Dest(last), sa, msg))]
  {
    var table: Table := TableOf(t, directed);
    var t' := WithTable(t, directed, table[sa as nat := d]);
    assert d.data == msg[..7 * 0];
    assert WithTable(t', directed, TableOf(t', directed) - {sa as nat}) == WithTable(t, directed, table - {sa as nat}) by {
      assert TableOf(t', directed) - {sa as nat} == table - {sa as nat};
      WithTableTwice(t, directed, table[sa as nat := d], table - {sa as nat});
    }
    TransferRest(addr, directed, passive, t', sa, msg, d.timestamp, d.pgn, ps, 0);
  }

  /** A complete broadcast transfer is reassembled: the output is the
      frames followed by one message holding exactly `msg`, with the
      announced PGN and time and the last frame's priority and
      destination; the sender's session is closed, nothing is sent, and
      the directed table is untouched. */
  lemma BamRoundTrip(addr: Byte, passive: bool, t: Tables, sa: Byte, msg: seq<Byte>, ps: seq<J1939Packet>)
    requires IsBamTransfer(addr, sa, msg, ps)
    ensures RunOk(addr, passive, t, ps)
    ensures var r := ReceiveTp(addr, passive, t, ps); r.tables == t.(bam := t.bam - {sa as nat}) && r.cts == []
    ensures var r, cm, last := ReceiveTp(addr, passive, t, ps), ps[0].payload, ps[|ps| - 1];
      r.out == Forward(ps) + [Reassembled(NewPacket(Some(ps[0].time), 0, Priority(last),
                                                    Be32(0, cm[7], cm[6], cm[5]), Dest(last), sa, msg))]
  {
    var p := ps[0];
    AnnounceStep(addr, passive, t, p);
    TransferSegments(addr, false, BAM, sa, msg, ps);
    TransferAfterOpen(addr, false, passive, t, sa, msg, Session(p), ps[1..]);
    assert ps[1..][|ps[1..]| - 1] == ps[|ps| - 1];
    ReceiveTpCons(addr, passive, t, ps);
    var cm, last := p.payload, ps[|ps| - 1];
    var tail := [Reassembled(NewPacket(Some(p.time), 0, Priority(last), Be32(0, cm[7], cm[6], cm[5]), Dest(last), sa, msg))];
    YieldAlone(p, Step(addr, passive, t, p));
    ForwardCons(ps);
    AppendAssociative([Forwarded(p)], Forward(ps[1..]), tail);
  }

  /** A complete directed transfer to this node is reassembled the same
      way, in the directed table, leaving the broadcast table untouched;
      the only frame sent is the CTS answering the request to send, and
      none when the receiver is passive. */
  lemma DirectedRoundTrip(addr: Byte, passive: bool, t: Tables, sa: Byte, msg: seq<Byte>, ps: seq<J1939Packet>)
    requires IsDirectedTransfer(addr, sa, msg, ps)
    ensures RunOk(addr, passive, t, ps)
    ensures var r := ReceiveTp(addr, passive, t, ps);
      && r.tables == t.(ds := t.ds - {sa as nat})
      && r.cts == if passive then [] else [ClearToSend(ps[0])]
    ensures var r, cm, last := ReceiveTp(addr, passive, t, ps), ps[0].payload, ps[|ps| - 1];
      r.out == Forward(ps) + [Reassembled(NewPacket(Some(ps[0].time), 0, Priority(last),
                                                    Be32(0, cm[7], cm[6], cm[5]), Dest(last), sa, msg))]
  {
    var p := ps[0];
    RequestStep(addr, passive, t, p);
    TransferSegments(addr, true, RTS, sa, msg, ps);
    TransferAfterOpen(addr, true, passive, t, sa, msg, Session(p), ps[1..]);
    assert ps[1..][|ps[1..]| - 1] == ps[|ps| - 1];
    ReceiveTpCons(addr, passive, t, ps);
    var cm, last := p.payload, ps[|ps| - 1];
    var tail := [Reassembled(NewPacket(Some(p.time), 0, Priority(last), Be32(0, cm[7], cm[6], cm[5]), Dest(last), sa, msg))];
    YieldAlone(p, Step(addr, passive, t, p));
    ForwardCons(ps);
    AppendAssociative([Forwarded(p)], Forward(ps[1..]), tail);
  }

  /** A broadcast announce opens a session and yields nothing more. */
  lemma AnnounceStep(addr: Byte, passive: bool, t: Tables, p: J1939Packet)
    requires KindOf(addr, p.id).BamControl? && |p.payload| == 8 && p.payload[0] == BAM
    ensures StepOk(addr, t, p)
    ensures Step(addr, passive, t, p) == StepResult(t.(bam := t.bam[Key(p) := Session(p)]), None, None)
  {
  }

  /** A request to send addressed to this node opens a directed session,
      yields nothing more, and is answered with a CTS unless passive. */
  lemma RequestStep(addr: Byte, passive: bool, t: Tables, p: J1939Packet)
    requires KindOf(addr, p.id).DirectedControl? && |p.payload| == 8 && p.payload[0] == RTS
    ensures StepOk(addr, t, p)
    ensures Step(addr, passive, t, p)
         == StepResult(t.(ds := t.ds[Key(p) := Session(p)]), None, if passive then None else Some(ClearToSend(p)))
  {
  }

  // ---------------------------------------------------------------------
  // The closure's state, updated in place

  /** The two tables `receive_tp`'s closure captures and updates frame by
      frame. */
  class Receiver {
    const addr: Byte
    const passive: bool
    var bam: Table
    var ds: Table

    constructor(addr: Byte, passive: bool)
      ensures this.addr == addr && this.passive == passive && bam == map[] && ds == map[]
    {
      this.addr := addr;
      this.passive := passive;
      bam := map[];
      ds := map[];
    }

    function State(): Tables
      reads this
    {
      Tables(bam, ds)
    }

    /** One frame through the closure: the packets it yields and the CTS
        frame it sends. */
    method Next(p: J1939Packet) returns (items: seq<J1939Packet>, cts: Option<J1939Packet>)
      requires StepOk(addr, State(), p)
      modifies this
      ensures var s := Step(addr, passive, old(State()), p);
        State() == s.tables && cts == s.cts && items == [p] + OptionSeq(s.emitted)
    {
      var kind := KindOf(addr, p.id);
      items, cts := [p], None;
      if kind.BamControl? {
        var c := Control(bam, true, p);
        bam, cts := c.table, c.cts;
      } else if kind.DirectedControl? {
        var c := Control(ds, passive, p);
        ds, cts := c.table, c.cts;
      } else if kind.BamData? {
        var d := Data(bam, p);
        bam := d.table;
        if d.packet.Some? {
          items := items + [d.packet.value];
        }
      } else if kind.DirectedData? {
        var d := Data(ds, p);
        ds := d.table;
        if d.packet.Some? {
          items := items + [d.packet.value];
        }
      }
    }
  }

  /** `receive_tp` drained over a finite stream: what the iterator yields
      and the CTS frames sent, as the step function describes them. */
  method ReceiveAll(addr: Byte, passive: bool, ps: seq<J1939Packet>) returns (items: seq<J1939Packet>, sent: seq<J1939Packet>)
    requires RunOk(addr, passive, Tables(map[], map[]), ps)
    ensures var r := ReceiveTp(addr, passive, Tables(map[], map[]), ps);
      items == Packets(r.out) && sent == r.cts
  {
    var rx := new Receiver(addr, passive);
    items, sent := [], [];
    ghost var whole := ReceiveTp(addr, passive, Tables(map[], map[]), ps);
    ghost var t := rx.State();
    assert ps[0..] == ps;
    for i := 0 to |ps|
      invariant rx.addr == addr && rx.passive == passive && rx.State() == t
      invariant RunOk(addr, passive, t, ps[i..])
      invariant Packets(whole.out) == items + Packets(ReceiveTp(addr, passive, t, ps[i..]).out)
      invariant whole.cts == sent + ReceiveTp(addr, passive, t, ps[i..]).cts
    {
      RunAdvances(addr, passive, t, ps, i, whole, items, sent);
      var more, cts := rx.Next(ps[i]);
      items := items + more;
      sent := sent + OptionSeq(cts);
      t := rx.State();
    }
    assert ps[|ps|..] == [];
  }

  /** One loop step of `ReceiveAll`: what is collected after frame `i`
      plus the run over the frames after it is still the whole run. */
  lemma RunAdvances(addr: Byte, passive: bool, t: Tables, ps: seq<J1939Packet>, i: nat, whole: Run,
                    items: seq<J1939Packet>, sent: seq<J1939Packet>)
    requires i < |ps| && RunOk(addr, passive, t, ps[i..])
    requires Packets(whole.out) == items + Packets(ReceiveTp(addr, passive, t, ps[i..]).out)
    requires whole.cts == sent + ReceiveTp(addr, passive, t, ps[i..]).cts
    ensures StepOk(addr, t, ps[i])
    ensures var s := Step(addr, passive, t, ps[i]);
      && RunOk(addr, passive, s.tables, ps[i + 1..])
      && var rest := ReceiveTp(addr, passive, s.tables, ps[i + 1..]);
      && Packets(whole.out) == (items + ([ps[i]] + OptionSeq(s.emitted))) + Packets(rest.out)
      && whole.cts == (sent + OptionSeq(s.cts)) + rest.cts
  {
    ReceiveTpUncons(addr, passive, t, ps, i);
    var s := Step(addr, passive, t, ps[i]);
    var rest := ReceiveTp(addr, passive, s.tables, ps[i + 1..]);
    AppendAssociative(items, [ps[i]] + OptionSeq(s.emitted), Packets(rest.out));
    AppendAssociative(sent, OptionSeq(s.cts), rest.cts);
  }

  /** The stream from frame `i` on: frame `i`'s packets and CTS frames,
      then those of the frames after it. */
  lemma ReceiveTpUncons(addr: Byte, passive: bool, t: Tables, ps: seq<J1939Packet>, i: nat)
    requires i < |ps| && RunOk(addr, passive, t, ps[i..])
    ensures StepOk(addr, t, ps[i])
    ensures var s := Step(addr, passive, t, ps[i]);
      && RunOk(addr, passive, s.tables, ps[i + 1..])
      && var rest := ReceiveTp(addr, passive, s.tables, ps[i + 1..]);
      && Packets(ReceiveTp(addr, passive, t, ps[i..]).out) == ([ps[i]] + OptionSeq(s.emitted)) + Packets(rest.out)
      && ReceiveTp(addr, passive, t, ps[i..]).cts == OptionSeq(s.cts) + rest.cts
  {
    var qs := ps[i..];
    assert qs[0] == ps[i] && qs[1..] == ps[i + 1..];
    var s := Step(addr, passive, t, ps[i]);
    ReceiveTpCons(addr, passive, t, qs);
    var rest := ReceiveTp(addr, passive, s.tables, ps[i + 1..]);
    PacketsAppend(Yield(ps[i], s), rest.out);
    YieldPackets(ps[i], s);
  }

  lemma YieldPackets(p: J1939Packet, s: StepResult)
    ensures Packets(Yield(p, s)) == [p] + OptionSeq(s.emitted)
  {
  }

  // ---------------------------------------------------------------------
  // request

  /** The request frame's identifier: PGN 0xEA00 at priority 6, addressed
      to `da`, from `sa`. */
  function RequestId(sa: Byte, da: Byte): bv32
  {
    0x18EA_0000 | ((da as bv32) << 8) | (sa as bv32)
  }

  /** The request frame: sent (no time), on channel 0, carrying the
      requested PGN's three low bytes little-endian. */
  function Request(sa: Byte, da: Byte, pgn: bv32): (p: J1939Packet)
    ensures p.tx && |p.payload| == 3
    ensures Be32(0, p.payload[2], p.payload[1], p.payload[0]) == pgn & 0xFF_FFFF
  {
    New(None, 0, RequestId(sa, da), [(pgn & 0xFF) as Byte, ((pgn >> 8) & 0xFF) as Byte, ((pgn >> 16) & 0xFF) as Byte])
  }

  /** The request goes from `sa` to `da` with PGN 0xEA00. */
  lemma RequestAddresses(sa: Byte, da: Byte)
    ensures var id := RequestId(sa, da);
      J1939Id.SourceOf(id) == sa && J1939Id.DestOf(id) == da && (id >> 8) & 0xFFFF == 0xEA00 | da as bv32
  {
  }

  /** The low 24 identifier bits a response must carry: the PGN one byte
      up with the responder `da` as source, and for a destination-specific
      PGN the requester `sa` as destination. */
  function ResponseId(sa: Byte, da: Byte, pgn: bv32): bv32
  {
    var id := (pgn << 8) | (da as bv32);
    if pgn < 0xF000 then id | ((sa as bv32) << 8) else id
  }

  predicate Matches(rid: bv32, p: J1939Packet)
  {
    p.id & 0xFF_FFFF == rid
  }

  /** A response `new_packet` builds for a PGN of sixteen bits, from `da`
      back to `sa`, matches at every priority. */
  lemma ResponseMatches(sa: Byte, da: Byte, pgn: bv32, priority: Byte, time: Option<bv32>, channel: Byte, data: seq<Byte>)
    requires pgn <= 0xFFFF
    ensures Matches(ResponseId(sa, da, pgn), NewPacket(time, channel, priority, pgn, sa, da, data))
  {
    if pgn < 0xF000 {
      Pdu1Identifier(priority, pgn, sa, da);
      ResponseLow(priority, pgn, sa, da);
    } else {
      BroadcastLow(priority, pgn, sa, da);
    }
  }

  lemma ResponseLow(priority: Byte, pgn: bv32, sa: Byte, da: Byte)
    requires pgn <= 0xFFFF
    ensures (((priority as bv32) << 24) | (pgn << 8) | ((sa as bv32) << 8) | (da as bv32)) & 0xFF_FFFF
         == (pgn << 8) | (da as bv32) | ((sa as bv32) << 8)
  {
  }

  lemma BroadcastLow(priority: Byte, pgn: bv32, sa: Byte, da: Byte)
    requires 0xF000 <= pgn <= 0xFFFF
    ensures Identifier(priority, pgn, sa, da) & 0xFF_FFFF == (pgn << 8) | (da as bv32)
  {
  }

  /** A PGN with the data-page bit set (0x10000 to 0xFFFFFF) never matches: the
      bit lands at bit 24 of the expected value, above the 24 bits compared. */
  lemma DataPageNeverMatches(sa: Byte, da: Byte, pgn: bv32, p: J1939Packet)
    requires 0x1_0000 <= pgn <= 0xFF_FFFF
    ensures !Matches(ResponseId(sa, da, pgn), p)
  {
    DataPageHigh(sa, da, pgn, p.id);
  }

  lemma DataPageHigh(sa: Byte, da: Byte, pgn: bv32, id: bv32)
    requires 0x1_0000 <= pgn <= 0xFF_FFFF
    ensures ResponseId(sa, da, pgn) > 0xFF_FFFF && id & 0xFF_FFFF <= 0xFF_FFFF
  {
  }

  /** `find`: the first packet that matches. */
  function Find(rid: bv32, ps: seq<J1939Packet>): (r: Option<J1939Packet>)
    ensures r.Some? ==> Matches(rid, r.value) && exists i :: 0 <= i < |ps| && ps[i] == r.value
    ensures r.Some? ==> exists i :: 0 <= i < |ps| && ps[i] == r.value
                               && forall j :: 0 <= j < i ==> !Matches(rid, ps[j])
    ensures r.None? <==> forall i :: 0 <= i < |ps| ==> !Matches(rid, ps[i])
  {
    if |ps| == 0 then None
    else if Matches(rid, ps[0]) then Some(ps[0])
    else
      var r := Find(rid, ps[1..]);
      if r.Some? then
        ghost var i :| 0 <= i < |ps[1..]| && ps[1..][i] == r.value && forall j :: 0 <= j < i ==> !Matches(rid, ps[1..][j]);
        assert ps[i + 1] == r.value && forall j :: 0 <= j < i + 1 ==> !Matches(rid, ps[j]);
        r
      else r
  }

  /** `find` over two parts: the first part's match if it has one,
      otherwise the second part's. */
  lemma {:induction false} FindAppend(rid: bv32, a: seq<J1939Packet>, b: seq<J1939Packet>)
    ensures Find(rid, a + b) == if Find(rid, a).Some? then Find(rid, a) else Find(rid, b)
  {
    if |a| > 0 {
      assert (a + b)[0] == a[0] && (a + b)[1..] == a[1..] + b;
      FindAppend(rid, a[1..], b);
    } else {
      assert a + b == b;
    }
  }

  /** What `find` over `receive_tp` needs so that no frame it reads
      panics: `find` stops at the first frame whose items hold a match, so
      the frames after it are never read. */
  predicate FindOk(addr: Byte, passive: bool, t: Tables, rid: bv32, ps: seq<J1939Packet>)
    decreases |ps|
  {
    |ps| == 0 ||
      (StepOk(addr, t, ps[0]) &&
       var s := Step(addr, passive, t, ps[0]);
       (Find(rid, Packets(Yield(ps[0], s))).Some? || FindOk(addr, passive, s.tables, rid, ps[1..])))
  }

  /** `receive_tp(...).find(predicate)` read lazily: the closure runs on one
      frame at a time, and the search stops at the first frame that yields
      a match (the frame itself or the message it completes). The result
      is the match and the CTS frames sent up to that point. */
  function TpFind(addr: Byte, passive: bool, t: Tables, rid: bv32, ps: seq<J1939Packet>)
    : (r: (Option<J1939Packet>, seq<J1939Packet>))
    requires FindOk(addr, passive, t, rid, ps)
    ensures r.0.Some? ==> Matches(rid, r.0.value)
    ensures |r.1| <= |ps|
    decreases |ps|
  {
    if |ps| == 0 then (None, [])
    else
      var s := Step(addr, passive, t, ps[0]);
      var here := Find(rid, Packets(Yield(ps[0], s)));
      if here.Some? then (here, OptionSeq(s.cts))
      else
        var rest := TpFind(addr, passive, s.tables, rid, ps[1..]);
        (rest.0, OptionSeq(s.cts) + rest.1)
  }

  /** Where the whole stream can be read, the lazy search finds what
      `find` finds in the full output of `receive_tp`, and the CTS frames
      it sends are the first of those the full run sends. */
  lemma {:induction false} TpFindAgrees(addr: Byte, passive: bool, t: Tables, rid: bv32, ps: seq<J1939Packet>)
    requires RunOk(addr, passive, t, ps)
    ensures FindOk(addr, passive, t, rid, ps)
    ensures var r, run := TpFind(addr, passive, t, rid, ps), ReceiveTp(addr, passive, t, ps);
      r.0 == Find(rid, Packets(run.out)) && r.1 <= run.cts
    decreases |ps|
  {
    if |ps| > 0 {
      var s := Step(addr, passive, t, ps[0]);
      var rest := ReceiveTp(addr, passive, s.tables, ps[1..]);
      TpFindAgrees(addr, passive, s.tables, rid, ps[1..]);
      ReceiveTpCons(addr, passive, t, ps);
      var a, b := Packets(Yield(ps[0], s)), Packets(rest.out);
      PacketsAppend(Yield(ps[0], s), rest.out);
      FindAppend(rid, a, b);
      var later := TpFind(addr, passive, s.tables, rid, ps[1..]);
      if Find(rid, a).None? {
        PrefixGrows(OptionSeq(s.cts), later.1, rest.cts);
      }
    }
  }

  /** A prefix stays a prefix behind a common head. */
  lemma PrefixGrows<T>(h: seq<T>, a: seq<T>, b: seq<T>)
    requires a <= b
    ensures h + a <= h + b
  {
    assert (h + b)[..|h + a|] == h + a;
  }

  /** `request`: the frame sent, the first response among the frames
      received in the two-second window, and the CTS frames sent while
      looking. Without transport protocol the window is searched directly;
      with it the frames go through `receive_tp` listening (not passively)
      at `sa`, which answers every directed RTS before the response is
      found. */
  function RequestResponse(transportProtocol: bool, sa: Byte, da: Byte, pgn: bv32, window: seq<J1939Packet>):
    (r: (J1939Packet, Option<J1939Packet>, seq<J1939Packet>))
    requires transportProtocol ==> FindOk(sa, false, Tables(map[], map[]), ResponseId(sa, da, pgn), window)
    ensures r.0 == Request(sa, da, pgn)
    ensures r.1.Some? ==> Matches(ResponseId(sa, da, pgn), r.1.value)
    ensures !transportProtocol ==>
      r.2 == [] && (r.1.None? <==> forall i :: 0 <= i < |window| ==> !Matches(ResponseId(sa, da, pgn), window[i]))
    ensures transportProtocol && RunOk(sa, false, Tables(map[], map[]), window) ==>
      var run := ReceiveTp(sa, false, Tables(map[], map[]), window);
      r.1 == Find(ResponseId(sa, da, pgn), Packets(run.out)) && r.2 <= run.cts
  {
    var rid := ResponseId(sa, da, pgn);
    if transportProtocol then
      var found := TpFind(sa, false, Tables(map[], map[]), rid, window);
      if RunOk(sa, false, Tables(map[], map[]), window) then
        TpFindAgrees(sa, false, Tables(map[], map[]), rid, window);
        (Request(sa, da, pgn), found.0, found.1)
      else
        (Request(sa, da, pgn), found.0, found.1)
    else
      (Request(sa, da, pgn), Find(rid, window), [])
  }
}
