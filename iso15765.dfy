/** ISO-TP framing (ISO 15765-2:2016, section 9.6) as src/uds/iso15765.rs
    implements it over the crate's generic `Packet`: single frames of up to
    eight data bytes, and longer messages as a first frame, a flow-control
    frame from the peer and consecutive frames of seven bytes each.
    Sending and receiving frames through the connection are left to the
    caller: the frames a call sends are returned, and the frames it reads
    are passed in as finite windows. */
module Iso15765 {
  import opened Bytes

  /** The two fields of the crate's `Packet` this file reads and writes;
      `Packet::new(id, payload)` builds one to send. */
  datatype Frame = Frame(id: bv32, payload: seq<Byte>)

  /** `Iso15765` without its connection and time-out: the identifier bits
      it sends with, and those it accepts. */
  datatype Headers = Headers(send: bv32, receive: bv32)

  datatype Error = NoResponse | Nack | Unexpected

  function Min(a: int, b: int): int
  {
    if a < b then a else b
  }

  // ---------------------------------------------------------------------
  // headers

  /** `new`: both headers carry the PGN shifted up one byte; the send
      header is addressed to `da` from `sa`, the receive header the other
      way round. */
  function New(pgn: bv32, sa: Byte, da: Byte): (h: Headers)
    ensures (h.send & 0xFF) as Byte == sa && (h.receive & 0xFF) as Byte == da
  {
    Headers((pgn << 8) | ((da as bv32) << 8) | (sa as bv32), (pgn << 8) | ((sa as bv32) << 8) | (da as bv32))
  }

  /** The peer built with the addresses swapped sends with this node's
      receive header and accepts this node's send header. */
  lemma PeerHeaders(pgn: bv32, sa: Byte, da: Byte)
    ensures New(pgn, da, sa).send == New(pgn, sa, da).receive
    ensures New(pgn, da, sa).receive == New(pgn, sa, da).send
  {
  }

  /** The tester at 0xF9 talking to the node at 0. */
  lemma HeadersExample()
    ensures New(0xDA00, 0xF9, 0) == Headers(0xDA_00F9, 0xDA_F900)
  {
  }

  /** A frame is accepted when its low 24 identifier bits equal the
      receive header. */
  predicate Matches(receive: bv32, f: Frame)
  {
    f.id & 0xFF_FFFF == receive
  }

  /** `find`: the first accepted frame. */
  function FindFrame(receive: bv32, w: seq<Frame>): (r: Option<Frame>)
    ensures r.Some? ==> Matches(receive, r.value) && r.value in w
    ensures r.None? <==> forall i :: 0 <= i < |w| ==> !Matches(receive, w[i])
    ensures r.Some? ==> exists i :: 0 <= i < |w| && w[i] == r.value && forall j :: 0 <= j < i ==> !Matches(receive, w[j])
  {
    if |w| == 0 then None
    else if Matches(receive, w[0]) then Some(w[0])
    else
      var r := FindFrame(receive, w[1..]);
      if r.Some? then
        ghost var i :| 0 <= i < |w[1..]| && w[1..][i] == r.value && forall j :: 0 <= j < i ==> !Matches(receive, w[1..][j]);
        assert w[i + 1] == r.value && forall j :: 0 <= j < i + 1 ==> !Matches(receive, w[j]);
        r
      else r
  }

  // ---------------------------------------------------------------------
  // padding

  /** A payload filled up with 0xFF to eight bytes; a longer one is left
      as it is. */
  function Padded(s: seq<Byte>): (r: seq<Byte>)
    ensures |r| == if |s| < 8 then 8 else |s|
    ensures r[..|s|] == s
    ensures forall i :: |s| <= i < |r| ==> r[i] == 0xFF
  {
    if |s| < 8 then s + seq(8 - |s|, _ => 0xFF) else s
  }

  /** The padding loop of `send` and `transport_send`. */
  method Pad(payload: seq<Byte>) returns (padded: seq<Byte>)
    ensures padded == Padded(payload)
  {
    padded := payload;
    while |padded| < 8
      invariant |payload| <= |padded| && (|padded| <= 8 || |padded| == |payload|)
      invariant padded[..|payload|] == payload
      invariant forall i :: |payload| <= i < |padded| ==> padded[i] == 0xFF
      decreases 8 - |padded|
    {
      padded := padded + [0xFF];
    }
    assert forall i :: 0 <= i < |padded| ==> padded[i] == Padded(payload)[i];
  }

  // ---------------------------------------------------------------------
  // single frame

  /** A request of at most eight bytes: its length, the bytes, and padding,
      with the priority bits 0x18000000 added to the send header. An
      eight-byte request makes a nine-byte payload. */
  function SingleFrame(send: bv32, req: seq<Byte>): (f: Frame)
    requires |req| <= 8
    ensures |f.payload| == if |req| < 7 then 8 else |req| + 1
    ensures f.payload[0] & 0xF0 == 0 && f.payload[0] as int == |req| && f.payload[1..1 + |req|] == req
  {
    SmallLength(|req|);
    Frame(send | 0x1800_0000, Padded([ByteOf(|req|)] + req))
  }

  /** The test `send8`. */
  lemma SingleFrameExample()
    ensures SingleFrame(New(0xDA00, 0xF9, 0).send, [1, 2, 3]) == Frame(0x18DA_00F9, [3, 1, 2, 3, 0xFF, 0xFF, 0xFF, 0xFF])
  {
    HeadersExample();
    assert Padded([3, 1, 2, 3]) == [3, 1, 2, 3, 0xFF, 0xFF, 0xFF, 0xFF];
  }

  // ---------------------------------------------------------------------
  // first frame and consecutive frames

  /** The first frame: the big-endian `u16` 0x1000 | length (the length
      truncated to sixteen bits), then the first six bytes. */
  function FirstFrame(send: bv32, req: seq<Byte>): (f: Frame)
    requires |req| >= 6
    ensures |f.payload| == 8 && f.payload[2..] == req[..6]
  {
    var size := |req| % 0x1_0000;
    Frame(send, [0x10 | ByteOf(size / 256), ByteOf(size % 256)] + req[..6])
  }

  /** The message length a first frame announces: the low twelve bits of
      its big-endian first two bytes. */
  function Length(f: Frame): nat
    requires |f.payload| >= 2
  {
    (f.payload[0] & 0x0F) as int * 256 + f.payload[1] as int
  }

  /** A length of up to 0xFFF reads back, and the frame-type nibble is 1. */
  lemma FirstFrameLength(send: bv32, req: seq<Byte>)
    requires 6 <= |req| <= 0xFFF
    ensures var f := FirstFrame(send, req); f.payload[0] & 0xF0 == 0x10 && Length(f) == |req|
  {
    var n := |req|;
    FirstFrameHeader(send, req);
    HeaderLength(n);
  }

  lemma FirstFrameHeader(send: bv32, req: seq<Byte>)
    requires 6 <= |req| <= 0xFFF
    ensures FirstFrame(send, req).payload[..2] == [0x10 | ByteOf(|req| / 256), ByteOf(|req| % 256)]
  {
    assert |req| % 0x1_0000 == |req|;
  }

  lemma HeaderLength(n: nat)
    requires n <= 0xFFF
    ensures var hi, lo := 0x10 | ByteOf(n / 256), ByteOf(n % 256);
      hi & 0xF0 == 0x10 && (hi & 0x0F) as int * 256 + lo as int == n
  {
    Nibbles(ByteOf(n / 256));
  }

  lemma Nibbles(x: Byte)
    requires x as int < 16
    ensures (0x10 | x) & 0xF0 == 0x10 && ((0x10 | x) & 0x0F) as int == x as int
  {
  }

  /** Consecutive frame `k` (from 1): sequence number `k` modulo 16 after
      the type nibble 2, then the next seven bytes after the first six and
      the `k - 1` frames before it (fewer at the end), padded. */
  function ConsecutiveFrame(send: bv32, req: seq<Byte>, k: nat): (f: Frame)
    requires 1 <= k && 7 * k <= |req|
    ensures |f.payload| == 8
  {
    var offset := 6 + (k - 1) * 7;
    Frame(send, Padded([0x20 | (ByteOf(k % 256) & 0x0F)] + req[offset..Min(7 + offset, |req|)]))
  }

  /** All consecutive frames: one per seven bytes of the whole request. */
  function ConsecutiveFrames(send: bv32, req: seq<Byte>): (fs: seq<Frame>)
    ensures |fs| == |req| / 7
  {
    seq(|req| / 7, k requires 0 <= k < |req| / 7 => ConsecutiveFrame(send, req, k + 1))
  }

  /** The bytes of frame `k` are the slice the source's comments describe,
      never empty. */
  lemma ConsecutiveFrameBytes(send: bv32, req: seq<Byte>, k: nat)
    requires 1 <= k && 7 * k <= |req|
    ensures var f, lo, hi := ConsecutiveFrame(send, req, k), 6 + 7 * (k - 1), Min(13 + 7 * (k - 1), |req|);
      lo < hi && f.payload[1..1 + hi - lo] == req[lo..hi]
      && (f.payload[0] & 0xF0) == 0x20 && (f.payload[0] & 0x0F) as int == k % 16
  {
    var b := ByteOf(k % 256);
    SequenceByte(b);
    assert (b & 0x0F) as int == k % 16 by { LowNibble(k); }
  }

  lemma SequenceByte(b: Byte)
    ensures (0x20 | (b & 0x0F)) & 0xF0 == 0x20 && (0x20 | (b & 0x0F)) & 0x0F == b & 0x0F
  {
  }

  lemma LowNibble(k: nat)
    ensures (ByteOf(k % 256) & 0x0F) as int == k % 16
  {
    NibbleOfByte(ByteOf(k % 256));
    ModMod(k);
  }

  lemma ModMod(k: nat)
    ensures k % 256 % 16 == k % 16
  {
    assert k == 256 * (k / 256) + k % 256;
    assert k == 16 * (16 * (k / 256) + k % 256 / 16) + k % 256 % 16;
  }

  lemma NibbleOfByte(b: Byte)
    ensures (b & 0x0F) as int == b as int % 16
  {
  }

  // ---------------------------------------------------------------------
  // flow control

  /** STmin: 0xF1-0xF9 mean 100 to 900 microseconds; every other value is
      taken as that many milliseconds (ISO 15765-2 reserves 0x80-0xF0 and
      0xFA-0xFF, which the source does not single out). In microseconds. */
  function StMinMicros(b: Byte): (us: nat)
    ensures 0xF1 <= b <= 0xF9 ==> us == 100 * (b as int - 0xF0)
    ensures !(0xF1 <= b <= 0xF9) ==> us == 1000 * b as int
  {
    if b > 0xF0 && b < 0xFA then 100 * (b & 0x0F) as int else 1000 * b as int
  }

  /** What `transport_send` reads of the flow-control frame. */
  predicate FlowControlOk(fc: Option<Frame>)
  {
    fc.Some? ==> |fc.value.payload| >= 1 && (fc.value.payload[0] == 0x30 ==> |fc.value.payload| >= 3)
  }

  /** The flow-control check: no frame, a negative response 0x7F, or any
      byte other than 0x30 (continue to send) stops the transfer; a
      continue gives the separation time. The block size is not used. */
  function CheckFlowControl(fc: Option<Frame>): (r: Result<nat, Error>)
    requires FlowControlOk(fc)
    ensures r.Ok? <==> fc.Some? && fc.value.payload[0] == 0x30
    ensures r.Ok? ==> r.value == StMinMicros(fc.value.payload[2])
    ensures r == Err(Nack) <==> fc.Some? && fc.value.payload[0] == 0x7F
    ensures r == Err(NoResponse) <==> fc.None?
  {
    if fc.None? then Err(NoResponse)
    else if fc.value.payload[0] == 0x7F then Err(Nack)
    else if fc.value.payload[0] != 0x30 then Err(Unexpected)
    else Ok(StMinMicros(fc.value.payload[2]))
  }

  // ---------------------------------------------------------------------
  // send

  /** The frames `send` puts on the bus and its outcome. */
  datatype Sent = Sent(frames: seq<Frame>, result: Result<(), Error>)

  /** `send`: one single frame, or (above eight bytes) the first frame, and
      after an accepted flow control every consecutive frame. */
  function SendSpec(h: Headers, req: seq<Byte>, window: seq<Frame>): Sent
    requires |req| > 8 ==> FlowControlOk(FindFrame(h.receive, window))
  {
    if |req| <= 8 then Sent([SingleFrame(h.send, req)], Ok(()))
    else
      var check := CheckFlowControl(FindFrame(h.receive, window));
      if check.Err? then Sent([FirstFrame(h.send, req)], Err(check.error))
      else Sent([FirstFrame(h.send, req)] + ConsecutiveFrames(h.send, req), Ok(()))
  }

  method Send(h: Headers, req: seq<Byte>, window: seq<Frame>) returns (s: Sent)
    requires |req| > 8 ==> FlowControlOk(FindFrame(h.receive, window))
    ensures s == SendSpec(h, req, window)
  {
    if |req| > 8 {
      s := TransportSend(h, req, window);
    } else {
      var payload := Pad([ByteOf(|req|)] + req);
      s := Sent([Frame(h.send | 0x1800_0000, payload)], Ok(()));
    }
  }

  /** `transport_send`; the sleep between frames is not modelled. */
  method TransportSend(h: Headers, req: seq<Byte>, window: seq<Frame>) returns (s: Sent)
    requires |req| > 8 && FlowControlOk(FindFrame(h.receive, window))
    ensures s == SendSpec(h, req, window)
  {
    var first := FirstFrame(h.send, req);
    var check := CheckFlowControl(FindFrame(h.receive, window));
    if check.Err? {
      return Sent([first], Err(check.error));
    }
    var rest := SendConsecutive(h.send, req);
    s := Sent([first] + rest, Ok(()));
  }

  /** The loop of `transport_send` that sends one consecutive frame per
      sequence number from 1 to `length / 7`. */
  method SendConsecutive(send: bv32, req: seq<Byte>) returns (sent: seq<Frame>)
    requires |req| > 8
    ensures sent == ConsecutiveFrames(send, req)
  {
    var size := |req|;
    var frames := 1 + size / 7;
    sent := [];
    for sequence := 1 to frames
      invariant sent == ConsecutiveFrames(send, req)[..sequence - 1]
    {
      WithinRequest(sequence, size);
      var offset := 6 + (sequence - 1) * 7;
      var end := Min(7 + offset, size);
      var payload := Pad([0x20 | (ByteOf(sequence % 256) & 0x0F)] + req[offset..end]);
      FramesPrefix(send, req, sequence);
      sent := sent + [Frame(send, payload)];
    }
    assert ConsecutiveFrames(send, req)[..frames - 1] == ConsecutiveFrames(send, req);
  }

  lemma WithinRequest(k: nat, n: nat)
    requires k <= n / 7
    ensures 7 * k <= n
  {
  }

  /** The first `k` consecutive frames are the first `k - 1` and frame `k`. */
  lemma FramesPrefix(send: bv32, req: seq<Byte>, k: nat)
    requires 1 <= k <= |req| / 7
    ensures 7 * k <= |req|
    ensures ConsecutiveFrames(send, req)[..k] == ConsecutiveFrames(send, req)[..k - 1] + [ConsecutiveFrame(send, req, k)]
  {
    WithinRequest(k, |req|);
    var fs := ConsecutiveFrames(send, req);
    assert fs[k - 1] == ConsecutiveFrame(send, req, k);
  }

  // ---------------------------------------------------------------------
  // receive

  /** The accepted frames of a window, in order. */
  function Matching(receive: bv32, w: seq<Frame>): (m: seq<Frame>)
    ensures |m| <= |w|
  {
    if |w| == 0 then []
    else Matching(receive, w[..|w| - 1]) + (if Matches(receive, w[|w| - 1]) then [w[|w| - 1]] else [])
  }

  /** The first `n` accepted frames: `filter` then `take(n)`. */
  function Taken(receive: bv32, w: seq<Frame>, n: nat): seq<Frame>
  {
    var m := Matching(receive, w);
    m[..Min(n, |m|)]
  }

  /** The bytes after the sequence number of each frame, one after another. */
  function Tails(fs: seq<Frame>): seq<Byte>
    requires forall i :: 0 <= i < |fs| ==> |fs[i].payload| >= 1
  {
    if |fs| == 0 then [] else Tails(fs[..|fs| - 1]) + fs[|fs| - 1].payload[1..]
  }

  function Truncate(s: seq<Byte>, n: nat): (r: seq<Byte>)
    ensures |r| == Min(|s|, n) && r == s[..|r|]
  {
    if |s| > n then s[..n] else s
  }

  /** What `transport_receive` indexes: two bytes of the first frame, and a
      sequence byte of each consecutive frame it takes. */
  predicate TransportReceiveOk(receive: bv32, first: Frame, later: seq<Frame>)
  {
    |first.payload| >= 2
    && var taken := Taken(receive, later, Length(first) / 7);
    forall i :: 0 <= i < |taken| ==> |taken[i].payload| >= 1
  }

  /** The message `transport_receive` puts together: the first frame's
      bytes after the length, then the bytes of the first `length / 7`
      accepted frames that follow, cut to the announced length. Missing
      frames leave it short. */
  function Reassembled(receive: bv32, first: Frame, later: seq<Frame>): (r: seq<Byte>)
    requires TransportReceiveOk(receive, first, later)
    ensures |r| <= Length(first)
  {
    Truncate(first.payload[2..] + Tails(Taken(receive, later, Length(first) / 7)), Length(first))
  }

  /** The flow-control frame `transport_receive` sends: continue, no block
      limit, no separation time. */
  function FlowControl(send: bv32): Frame
  {
    Frame(send, [0x30, 0, 0, 0xFF, 0xFF, 0xFF, 0xFF, 0xFF])
  }

  /** What `receive` indexes. */
  predicate ReceiveOk(receive: bv32, window: seq<Frame>, later: seq<Frame>)
  {
    var p := FindFrame(receive, window);
    p.Some? ==>
      |p.value.payload| >= 1
      && if p.value.payload[0] & 0xF0 == 0 then |p.value.payload| >= 1 + p.value.payload[0] as int
         else TransportReceiveOk(receive, p.value, later)
  }

  /** `receive`: the first accepted frame of the window; a single frame
      gives its bytes, any other frame starts a multi-frame reception from
      the frames after it; no frame is the "No response" error. */
  function ReceiveSpec(receive: bv32, window: seq<Frame>, later: seq<Frame>): (r: Result<seq<Byte>, Error>)
    requires ReceiveOk(receive, window, later)
    ensures r.Err? <==> FindFrame(receive, window).None?
    ensures r.Err? ==> r.error == NoResponse
  {
    match FindFrame(receive, window)
    case None => Err(NoResponse)
    case Some(p) =>
      if p.payload[0] & 0xF0 == 0 then Ok(p.payload[1..1 + p.payload[0] as int])
      else Ok(Reassembled(receive, p, later))
  }

  /** `receive` with the flow-control frame it sends, if any. */
  method Receive(h: Headers, window: seq<Frame>, later: seq<Frame>) returns (sent: seq<Frame>, r: Result<seq<Byte>, Error>)
    requires ReceiveOk(h.receive, window, later)
    ensures r == ReceiveSpec(h.receive, window, later)
    ensures var p := FindFrame(h.receive, window);
      sent == if p.Some? && p.value.payload[0] & 0xF0 != 0 then [FlowControl(h.send)] else []
  {
    var p := FindFrame(h.receive, window);
    sent := [];
    if p.None? {
      r := Err(NoResponse);
    } else if p.value.payload[0] & 0xF0 == 0 {
      r := Ok(p.value.payload[1..1 + p.value.payload[0] as int]);
    } else {
      var fc, data := TransportReceive(h, p.value, later);
      sent, r := [fc], Ok(data);
    }
  }

  /** `transport_receive`: the accepted frames are taken one by one until
      `length / 7` of them are in. */
  method TransportReceive(h: Headers, first: Frame, later: seq<Frame>) returns (fc: Frame, result: seq<Byte>)
    requires TransportReceiveOk(h.receive, first, later)
    ensures fc == FlowControl(h.send)
    ensures result == Reassembled(h.receive, first, later)
  {
    fc := FlowControl(h.send);
    var len := Length(first);
    var frames := len / 7;
    result := first.payload[2..];
    var taken := 0;
    for i := 0 to |later|
      invariant taken == |Taken(h.receive, later[..i], frames)|
      invariant TakenOk(h.receive, later[..i], frames)
      invariant result == first.payload[2..] + Tails(Taken(h.receive, later[..i], frames))
    {
      TakenStep(h.receive, later, frames, i);
      if taken < frames && Matches(h.receive, later[i]) {
        AppendAssociative(first.payload[2..], Tails(Taken(h.receive, later[..i], frames)), later[i].payload[1..]);
        result := result + later[i].payload[1..];
        taken := taken + 1;
      }
    }
    assert later[..|later|] == later;
    result := Truncate(result, len);
  }

  predicate TakenOk(receive: bv32, w: seq<Frame>, n: nat)
  {
    var taken := Taken(receive, w, n);
    forall i :: 0 <= i < |taken| ==> |taken[i].payload| >= 1
  }

  /** One more frame of the window: taken when accepted and fewer than `n`
      are in. */
  lemma TakenStep(receive: bv32, w: seq<Frame>, n: nat, i: nat)
    requires i < |w| && TakenOk(receive, w, n)
    ensures TakenOk(receive, w[..i + 1], n)
    ensures TakenOk(receive, w[..i], n)
    ensures var before, after := Taken(receive, w[..i], n), Taken(receive, w[..i + 1], n);
      if |before| < n && Matches(receive, w[i]) then
        after == before + [w[i]] && |w[i].payload| >= 1 && Tails(after) == Tails(before) + w[i].payload[1..]
      else after == before
  {
    TakenSnoc(receive, w, n, i);
    TakenOkPrefix(receive, w, n, i + 1);
    TakenOkPrefix(receive, w, n, i);
    var before := Taken(receive, w[..i], n);
    if |before| < n && Matches(receive, w[i]) {
      assert Taken(receive, w[..i + 1], n)[|before|] == w[i];
      TailsSnoc(before, w[i]);
    }
  }

  lemma TakenSnoc(receive: bv32, w: seq<Frame>, n: nat, i: nat)
    requires i < |w|
    ensures var before, after := Taken(receive, w[..i], n), Taken(receive, w[..i + 1], n);
      after == if |before| < n && Matches(receive, w[i]) then before + [w[i]] else before
  {
    assert w[..i + 1][..i] == w[..i];
  }

  lemma TakenOkPrefix(receive: bv32, w: seq<Frame>, n: nat, i: nat)
    requires i <= |w| && TakenOk(receive, w, n)
    ensures TakenOk(receive, w[..i], n)
  {
    TakenPrefix(receive, w, n, i);
  }

  lemma TailsSnoc(fs: seq<Frame>, f: Frame)
    requires forall i :: 0 <= i < |fs| ==> |fs[i].payload| >= 1
    requires |f.payload| >= 1
    ensures Tails(fs + [f]) == Tails(fs) + f.payload[1..]
  {
    assert (fs + [f])[..|fs|] == fs;
  }

  /** The frames taken from a prefix of the window are a prefix of those
      taken from the whole window. */
  lemma {:induction false} TakenPrefix(receive: bv32, w: seq<Frame>, n: nat, i: nat)
    requires i <= |w|
    ensures Taken(receive, w[..i], n) <= Taken(receive, w, n)
    decreases |w| - i
  {
    MatchingPrefix(receive, w, i);
  }

  lemma {:induction false} MatchingPrefix(receive: bv32, w: seq<Frame>, i: nat)
    requires i <= |w|
    ensures Matching(receive, w[..i]) <= Matching(receive, w)
    decreases |w| - i
  {
    if i < |w| {
      var init := w[..|w| - 1];
      assert init[..i] == w[..i];
      MatchingPrefix(receive, init, i);
    } else {
      assert w[..i] == w;
    }
  }

  // ---------------------------------------------------------------------
  // round trips

  /** A single frame is received as the request it carries. */
  lemma SingleFrameRoundTrip(send: bv32, receive: bv32, req: seq<Byte>, later: seq<Frame>)
    requires |req| <= 8 && receive == send & 0xFF_FFFF
    ensures ReceiveOk(receive, [SingleFrame(send, req)], later)
    ensures ReceiveSpec(receive, [SingleFrame(send, req)], later) == Ok(req)
  {
    SingleFrameFound(send, receive, req);
    ReceiveSingle(receive, [SingleFrame(send, req)], later, |req|);
  }

  lemma SingleFrameFound(send: bv32, receive: bv32, req: seq<Byte>)
    requires |req| <= 8 && receive == send & 0xFF_FFFF
    ensures FindFrame(receive, [SingleFrame(send, req)]) == Some(SingleFrame(send, req))
  {
    PriorityBits(send);
    FindFirst(receive, SingleFrame(send, req));
  }

  /** A single frame found first gives the bytes its first byte counts. */
  lemma ReceiveSingle(receive: bv32, window: seq<Frame>, later: seq<Frame>, n: nat)
    requires FindFrame(receive, window).Some?
    requires var p := FindFrame(receive, window).value.payload;
      |p| >= 1 + n && p[0] & 0xF0 == 0 && p[0] as int == n
    ensures ReceiveOk(receive, window, later)
    ensures ReceiveSpec(receive, window, later) == Ok(FindFrame(receive, window).value.payload[1..1 + n])
  {
  }

  lemma FindFirst(receive: bv32, f: Frame)
    requires Matches(receive, f)
    ensures FindFrame(receive, [f]) == Some(f)
  {
  }

  lemma PriorityBits(send: bv32)
    ensures (send | 0x1800_0000) & 0xFF_FFFF == send & 0xFF_FFFF
  {
  }

  /** A length of at most eight leaves the frame-type nibble 0. */
  lemma SmallLength(n: nat)
    requires n <= 8
    ensures ByteOf(n) & 0xF0 == 0
  {
    SmallByte(ByteOf(n));
  }

  lemma SmallByte(b: Byte)
    requires b as int <= 8
    ensures b & 0xF0 == 0
  {
  }

  /** Every consecutive frame is accepted by the peer. */
  lemma {:induction false} AllMatching(send: bv32, receive: bv32, fs: seq<Frame>)
    requires forall i :: 0 <= i < |fs| ==> fs[i].id == send
    requires send & 0xFF_FFFF == receive
    ensures Matching(receive, fs) == fs
  {
    if |fs| > 0 {
      AllMatching(send, receive, fs[..|fs| - 1]);
    }
  }

  /** The consecutive frames carry the request from byte 6 on, followed by
      padding. */
  lemma {:induction false} TailsOfFrames(send: bv32, req: seq<Byte>, k: nat)
    requires 6 <= |req| && k <= |req| / 7
    ensures var fs := ConsecutiveFrames(send, req)[..k];
      (forall i :: 0 <= i < |fs| ==> |fs[i].payload| >= 1)
      && |Tails(fs)| == 7 * k
      && Tails(fs)[..Min(7 * k, |req| - 6)] == req[6..Min(6 + 7 * k, |req|)]
  {
    var all := ConsecutiveFrames(send, req);
    if k > 0 {
      TailsOfFrames(send, req, k - 1);
      assert all[..k][..k - 1] == all[..k - 1];
      ConsecutiveFrameBytes(send, req, k);
      TailsStep(all[..k - 1], all[k - 1], req, k);
      assert all[..k] == all[..k - 1] + [all[k - 1]];
    }
  }

  lemma TailsStep(fs: seq<Frame>, f: Frame, req: seq<Byte>, k: nat)
    requires 1 <= k && 7 * k <= |req| && 6 <= |req|
    requires forall i :: 0 <= i < |fs| ==> |fs[i].payload| >= 1
    requires |Tails(fs)| == 7 * (k - 1)
    requires Tails(fs)[..Min(7 * (k - 1), |req| - 6)] == req[6..Min(6 + 7 * (k - 1), |req|)]
    requires |f.payload| == 8
    requires var lo, hi := 6 + 7 * (k - 1), Min(13 + 7 * (k - 1), |req|); f.payload[1..1 + hi - lo] == req[lo..hi]
    ensures var gs := fs + [f];
      (forall i :: 0 <= i < |gs| ==> |gs[i].payload| >= 1)
      && |Tails(gs)| == 7 * k
      && Tails(gs)[..Min(7 * k, |req| - 6)] == req[6..Min(6 + 7 * k, |req|)]
  {
    TailsSnoc(fs, f);
    SliceStep(Tails(fs), f.payload[1..], req, k);
  }

  /** Seven more bytes of which the first ones continue the request. */
  lemma SliceStep(t: seq<Byte>, p: seq<Byte>, req: seq<Byte>, k: nat)
    requires 1 <= k && 7 * k <= |req|
    requires |t| == 7 * (k - 1) && |p| == 7
    requires t[..Min(7 * (k - 1), |req| - 6)] == req[6..Min(6 + 7 * (k - 1), |req|)]
    requires var lo, hi := 6 + 7 * (k - 1), Min(13 + 7 * (k - 1), |req|); p[..hi - lo] == req[lo..hi]
    ensures (t + p)[..Min(7 * k, |req| - 6)] == req[6..Min(6 + 7 * k, |req|)]
  {
    var lo, hi := 6 + 7 * (k - 1), Min(13 + 7 * (k - 1), |req|);
    assert t == req[6..lo];
    assert (t + p)[..hi - 6] == t + p[..hi - lo];
    assert req[6..hi] == req[6..lo] + req[lo..hi];
  }

  /** A request of 9 to 0xFFF bytes sent as a first frame and consecutive
      frames is received back whole (the tests `send14` and `send4000`). */
  lemma MultiFrameRoundTrip(send: bv32, receive: bv32, req: seq<Byte>)
    requires 8 < |req| <= 0xFFF && receive == send & 0xFF_FFFF
    ensures FirstFrame(send, req).payload[0] & 0xF0 == 0x10
    ensures TransportReceiveOk(receive, FirstFrame(send, req), ConsecutiveFrames(send, req))
    ensures Reassembled(receive, FirstFrame(send, req), ConsecutiveFrames(send, req)) == req
  {
    FirstFrameLength(send, req);
    FramesReassemble(send, receive, req, FirstFrame(send, req));
  }

  lemma FramesReassemble(send: bv32, receive: bv32, req: seq<Byte>, first: Frame)
    requires 8 < |req| && send & 0xFF_FFFF == receive
    requires |first.payload| >= 2 && first.payload[2..] == req[..6] && Length(first) == |req|
    ensures TransportReceiveOk(receive, first, ConsecutiveFrames(send, req))
    ensures Reassembled(receive, first, ConsecutiveFrames(send, req)) == req
  {
    var cfs := ConsecutiveFrames(send, req);
    var n := |req| / 7;
    TakenAll(send, receive, cfs);
    assert cfs[..n] == cfs;
    TailsOfFrames(send, req, n);
    TruncateJoin(req, Tails(cfs));
  }

  lemma TakenAll(send: bv32, receive: bv32, fs: seq<Frame>)
    requires forall i :: 0 <= i < |fs| ==> fs[i].id == send
    requires send & 0xFF_FFFF == receive
    ensures Taken(receive, fs, |fs|) == fs
  {
    AllMatching(send, receive, fs);
  }

  /** The first six bytes and the frames' bytes, cut to the length, are
      the request: the last frame reaches its end. */
  lemma TruncateJoin(req: seq<Byte>, t: seq<Byte>)
    requires |req| >= 6 && |t| == 7 * (|req| / 7)
    requires t[..Min(|t|, |req| - 6)] == req[6..Min(6 + |t|, |req|)]
    ensures Truncate(req[..6] + t, |req|) == req
  {
    assert |req| - 6 <= |t|;
    assert (req[..6] + t)[..|req|] == req[..6] + t[..|req| - 6];
    assert req[..6] + req[6..] == req;
  }

  /** Sending a long request after an accepted flow control puts the first
      frame and every consecutive frame on the bus ... */
  lemma SendMulti(h: Headers, req: seq<Byte>, window: seq<Frame>)
    requires 8 < |req| && FlowControlOk(FindFrame(h.receive, window)) && CheckFlowControl(FindFrame(h.receive, window)).Ok?
    ensures SendSpec(h, req, window) == Sent([FirstFrame(h.send, req)] + ConsecutiveFrames(h.send, req), Ok(()))
  {
  }

  /** ... and the peer's `receive`, finding the first of them and reading
      the rest, gives the request back. */
  lemma SendReceiveRoundTrip(send: bv32, receive: bv32, req: seq<Byte>)
    requires 8 < |req| <= 0xFFF && receive == send & 0xFF_FFFF
    ensures var sent := [FirstFrame(send, req)] + ConsecutiveFrames(send, req);
      ReceiveOk(receive, sent[..1], sent[1..]) && ReceiveSpec(receive, sent[..1], sent[1..]) == Ok(req)
  {
    var first, cfs := FirstFrame(send, req), ConsecutiveFrames(send, req);
    MultiFrameRoundTrip(send, receive, req);
    FindFirst(receive, first);
    ReceiveMulti(receive, [first], cfs);
    assert ([first] + cfs)[..1] == [first] && ([first] + cfs)[1..] == cfs;
  }

  /** Any other frame found first starts a multi-frame reception. */
  lemma ReceiveMulti(receive: bv32, window: seq<Frame>, later: seq<Frame>)
    requires FindFrame(receive, window).Some?
    requires var p := FindFrame(receive, window).value;
      |p.payload| >= 2 && p.payload[0] & 0xF0 != 0 && TransportReceiveOk(receive, p, later)
    ensures ReceiveOk(receive, window, later)
    ensures ReceiveSpec(receive, window, later) == Ok(Reassembled(receive, FindFrame(receive, window).value, later))
  {
  }
}
