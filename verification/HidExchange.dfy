/** Both directions of a CTAPHID exchange: the packets a message is cut into, and their reassembly at the other
    end. The host's sender and the device's response pump produce the same packets. */
module HidExchange {
  import opened Bits
  import opened Words
  import opened StoreFormat
  import opened HidFraming

  // ---- Packets ----

  /** make_init_packet, and the first packet of send_next_response_packet */
  function InitPacket(cid: u32, cmd: byte, length: nat, chunk: seq<byte>): (p: Packet)
    requires |chunk| <= INIT_ROOM
  {
    Be32(cid) + [128 + cmd % 128] + Be16(length % 0x1_0000) + chunk + Zeros(INIT_ROOM - |chunk|)
  }

  /** make_continuation_packet, and the further packets of send_next_response_packet */
  function ContPacket(cid: u32, number: nat, chunk: seq<byte>): (p: Packet)
    requires |chunk| <= CONT_ROOM
  {
    Be32(cid) + [number % 128] + chunk + Zeros(CONT_ROOM - |chunk|)
  }

  lemma InitPacketReads(cid: u32, cmd: byte, length: nat, chunk: seq<byte>)
    requires |chunk| <= INIT_ROOM
    ensures var p := InitPacket(cid, cmd, length, chunk);
      IsInit(p) && Cid(p) == cid && Cmd(p) == cmd % 128 && Total(p) == length % 0x1_0000 && Body(p)[..|chunk|] == chunk
  {
    var p := InitPacket(cid, cmd, length, chunk);
    assert p[0] == Be32(cid)[0] && p[1] == Be32(cid)[1] && p[2] == Be32(cid)[2] && p[3] == Be32(cid)[3];
    Be32RoundTrip(cid);
    assert p[5] == Be16(length % 0x1_0000)[0] && p[6] == Be16(length % 0x1_0000)[1];
    assert p[7..] == chunk + Zeros(INIT_ROOM - |chunk|);
  }

  lemma ContPacketReads(cid: u32, number: nat, chunk: seq<byte>)
    requires |chunk| <= CONT_ROOM
    ensures var p := ContPacket(cid, number, chunk);
      !IsInit(p) && Cid(p) == cid && p[4] == number % 128 && Body(p)[..|chunk|] == chunk
  {
    var p := ContPacket(cid, number, chunk);
    assert p[0] == Be32(cid)[0] && p[1] == Be32(cid)[1] && p[2] == Be32(cid)[2] && p[3] == Be32(cid)[3];
    Be32RoundTrip(cid);
    assert p[5..] == chunk + Zeros(CONT_ROOM - |chunk|);
  }

  /** Packets carry nothing behind their chunk. */
  lemma PaddedWithZeros(cid: u32, cmd: byte, length: nat, number: nat, chunk: seq<byte>, i: nat)
    requires |chunk| <= INIT_ROOM && |chunk| + 7 <= i < 64
    ensures InitPacket(cid, cmd, length, chunk)[i] == 0 && ContPacket(cid, number, chunk)[i] == 0
  {
    assert InitPacket(cid, cmd, length, chunk)[7..] == chunk + Zeros(INIT_ROOM - |chunk|);
    assert ContPacket(cid, number, chunk)[5..] == chunk + Zeros(CONT_ROOM - |chunk|);
  }

  /** How much of a payload the first `k + 1` packets carry. */
  function Sent(length: nat, k: nat): (r: nat)
    ensures r <= length
  {
    Min(length, INIT_ROOM + CONT_ROOM * k)
  }

  function PacketAt(m: Message, k: nat): Packet {
    var n := |m.payload|;
    if k == 0 then InitPacket(m.cid, m.cmd, n, m.payload[..Sent(n, 0)])
    else ContPacket(m.cid, k - 1, m.payload[Sent(n, k - 1)..Sent(n, k)])
  }

  /** The first `count` packets of a message. */
  function FirstPackets(m: Message, count: nat): (ps: seq<Packet>)
    ensures |ps| == count
  {
    seq(count, k requires 0 <= k => PacketAt(m, k))
  }

  /** Every packet of a message. */
  function Packets(m: Message): (ps: seq<Packet>)
    ensures |ps| == 1 + Continuations(|m.payload|)
  {
    FirstPackets(m, 1 + Continuations(|m.payload|))
  }

  lemma FirstPacketsMore(m: Message, count: nat)
    ensures FirstPackets(m, count + 1) == FirstPackets(m, count) + [PacketAt(m, count)]
  {
  }

  lemma AllSent(length: nat)
    ensures Sent(length, Continuations(length)) == length
    ensures forall k :: 0 <= k < Continuations(length) ==> INIT_ROOM + CONT_ROOM * k < length
  {
  }

  /** The sending half of DebugHidBackend::send_command. */
  method SendPackets(m: Message) returns (ps: seq<Packet>)
    ensures ps == Packets(m)
  {
    hide PacketAt;
    var n := |m.payload|;
    FirstPacket(m);
    AllSent(n);
    ps := [InitPacket(m.cid, m.cmd, n, m.payload[..Min(n, INIT_ROOM)])];
    var offset, number := INIT_ROOM, 0;
    while offset < n
      invariant 0 <= number && offset == (if number == 0 then INIT_ROOM else Sent(n, number))
      invariant number <= Continuations(n) && (offset < n <==> number < Continuations(n))
      invariant ps == FirstPackets(m, number + 1)
    {
      var end := Min(offset + CONT_ROOM, n);
      NextPacket(m, number);
      FirstPacketsMore(m, number + 1);
      ps := ps + [ContPacket(m.cid, number, m.payload[offset..end])];
      offset := end;
      number := number + 1;
    }
  }

  lemma FirstPacket(m: Message)
    ensures FirstPackets(m, 1) == [InitPacket(m.cid, m.cmd, |m.payload|, m.payload[..Min(|m.payload|, INIT_ROOM)])]
  {
    FirstPacketsMore(m, 0);
  }

  lemma NextPacket(m: Message, k: nat)
    requires k < Continuations(|m.payload|)
    ensures Sent(|m.payload|, k) == INIT_ROOM + CONT_ROOM * k <= Sent(|m.payload|, k + 1) <= |m.payload|
    ensures PacketAt(m, k + 1)
         == ContPacket(m.cid, k, m.payload[Sent(|m.payload|, k)..Sent(|m.payload|, k + 1)])
  {
    AllSent(|m.payload|);
  }

  // ---- Host to device ----

  datatype Ran = Ran(request: Request, reactions: seq<Reaction>)

  function Run(s: Request, ps: seq<Packet>): (r: Ran)
    ensures |r.reactions| == |ps|
    decreases |ps|
  {
    if ps == [] then Ran(s, [])
    else
      var before := Run(s, ps[..|ps| - 1]);
      var step := Receive(before.request, ps[|ps| - 1]);
      Ran(step.request, before.reactions + [step.reaction])
  }

  predicate Quiet(reactions: seq<Reaction>) {
    forall i :: 0 <= i < |reactions| ==> reactions[i] == Nothing
  }

  lemma RunMore(s: Request, ps: seq<Packet>, p: Packet)
    ensures var before := Run(s, ps);
      var step := Receive(before.request, p);
      Run(s, ps + [p]) == Ran(step.request, before.reactions + [step.reaction])
  {
    assert (ps + [p])[..|ps|] == ps;
  }

  /** The request state while a message is in flight. */
  function InFlightState(m: Message, k: nat): Request
    requires k < Continuations(|m.payload|) && |m.payload| <= MAX_MESSAGE
  {
    AllSent(|m.payload|);
    Receiving(m.cid, m.cmd, |m.payload|, m.payload[..INIT_ROOM + CONT_ROOM * k], k)
  }

  lemma FirstArrives(s: Request, m: Message)
    requires |m.payload| <= MAX_MESSAGE && m.cmd < 128 && (m.cid == BROADCAST_CID ==> m.cmd == CMD_INIT)
    ensures Receive(s, PacketAt(m, 0))
         == if Continuations(|m.payload|) == 0 then Step(Idle, Dispatch(m)) else Step(InFlightState(m, 0), Nothing)
  {
    hide InitPacket, Cid, Total, Body;
    var n := |m.payload|;
    InitPacketReads(m.cid, m.cmd, n, m.payload[..Sent(n, 0)]);
    if n <= INIT_ROOM {
      assert m.payload[..n] == m.payload;
    }
  }

  lemma NextArrives(m: Message, k: nat)
    requires k < Continuations(|m.payload|) && |m.payload| <= MAX_MESSAGE
    ensures Receive(InFlightState(m, k), PacketAt(m, k + 1))
         == if k + 1 == Continuations(|m.payload|) then Step(Idle, Dispatch(m))
            else Step(InFlightState(m, k + 1), Nothing)
  {
    hide ContPacket, Cid, Total, Body;
    var n, lo, hi := |m.payload|, INIT_ROOM + CONT_ROOM * k, Sent(|m.payload|, k + 1);
    AllSent(n);
    NextPacket(m, k);
    ContPacketReads(m.cid, k, m.payload[lo..hi]);
    assert m.payload[..lo] + m.payload[lo..hi] == m.payload[..hi];
    assert m.payload[..n] == m.payload;
    assert Chunk(InFlightState(m, k)) == hi - lo;
  }

  /** Before its last packet, a message in flight is received in order and nothing is answered. */
  lemma {:induction false} InFlight(s: Request, m: Message, k: nat)
    requires k < Continuations(|m.payload|) && |m.payload| <= MAX_MESSAGE && m.cmd < 128
    requires m.cid == BROADCAST_CID ==> m.cmd == CMD_INIT
    ensures var r := Run(s, FirstPackets(m, k + 1));
      r.request == InFlightState(m, k) && Quiet(r.reactions)
    decreases k
  {
    hide Receive, PacketAt, InFlightState;
    FirstPacketsMore(m, k);
    if k == 0 {
      FirstArrives(s, m);
      assert FirstPackets(m, 0) == [];
    } else {
      InFlight(s, m, k - 1);
      NextArrives(m, k - 1);
    }
    RunMore(s, FirstPackets(m, k), PacketAt(m, k));
  }

  /** Host to device: whatever state the interface is in, the packets of a message make it dispatch exactly that
      message, with the last packet, and leave it idle. */
  lemma RequestArrives(s: Request, m: Message)
    requires |m.payload| <= MAX_MESSAGE && m.cmd < 128
    requires m.cid == BROADCAST_CID ==> m.cmd == CMD_INIT
    ensures var r := Run(s, Packets(m));
      && r.request == Idle
      && r.reactions[|r.reactions| - 1] == Dispatch(m)
      && Quiet(r.reactions[..|r.reactions| - 1])
  {
    hide Receive, PacketAt, InFlightState;
    var k := Continuations(|m.payload|);
    FirstPacketsMore(m, k);
    if k == 0 {
      FirstArrives(s, m);
      assert FirstPackets(m, 0) == [];
    } else {
      InFlight(s, m, k - 1);
      NextArrives(m, k - 1);
    }
    RunMore(s, FirstPackets(m, k), PacketAt(m, k));
  }

  /** No longer message ever arrives: the length field is sixteen bits and the device takes at most 1024. */
  lemma {:induction false} LongRequestNeverArrives(s: Request, ps: seq<Packet>, m: Message)
    requires RequestValid(s) && |m.payload| > MAX_MESSAGE
    ensures forall i :: 0 <= i < |ps| ==> Run(s, ps).reactions[i] != Dispatch(m)
    ensures RequestValid(Run(s, ps).request)
    decreases |ps|
  {
    if ps != [] {
      var front, p := ps[..|ps| - 1], ps[|ps| - 1];
      LongRequestNeverArrives(s, front, m);
      ReceiveKeepsValid(Run(s, front).request, p);
    }
  }

  /** What was sent is dispatched exactly if it fits, from any state an interface can be in. */
  lemma RequestArrivesIff(s: Request, m: Message)
    requires RequestValid(s) && m.cmd < 128 && (m.cid == BROADCAST_CID ==> m.cmd == CMD_INIT)
    ensures Dispatch(m) in Run(s, Packets(m)).reactions <==> |m.payload| <= MAX_MESSAGE
  {
    hide Run, Packets;
    if |m.payload| <= MAX_MESSAGE {
      RequestArrives(s, m);
      var reactions := Run(s, Packets(m)).reactions;
      assert reactions[|reactions| - 1] in reactions;
    } else {
      LongRequestNeverArrives(s, Packets(m), m);
    }
  }

  // ---- Device to host ----

  datatype Response = NoResponse | Sending(message: Message, sent: nat, nextSeq: byte)

  /** queue_response */
  function Queue(m: Message): Response {
    Sending(m.(payload := m.payload[..Min(|m.payload|, MAX_MESSAGE)]), 0, 0)
  }

  /** send_next_response_packet: the packet, and what is left to send */
  function Pump(r: Response): (Packet, Response)
    requires r.Sending? && r.sent <= |r.message.payload|
  {
    var m, n := r.message, |r.message.payload|;
    if r.sent == 0 then
      var end := Min(n, INIT_ROOM);
      (InitPacket(m.cid, m.cmd, n, m.payload[..end]), if end >= n then NoResponse else r.(sent := end))
    else
      var end := Min(n, r.sent + CONT_ROOM);
      (ContPacket(m.cid, r.nextSeq, m.payload[r.sent..end]),
       if end >= n then NoResponse else r.(sent := end, nextSeq := (r.nextSeq + 1) % 256))
  }

  /** Every packet still to come. */
  function PumpAll(r: Response): seq<Packet>
    requires r.Sending? ==> r.sent <= |r.message.payload|
    decreases if r.Sending? then 1 + |r.message.payload| - r.sent else 0
  {
    if r.NoResponse? then []
    else
      var (p, rest) := Pump(r);
      [p] + PumpAll(rest)
  }

  /** The response state after the first `k + 1` packets. */
  function SendingState(m: Message, k: nat): (r: Response)
    requires k < Continuations(|m.payload|)
    ensures r.Sending? && r.sent <= |r.message.payload|
  {
    AllSent(|m.payload|);
    Sending(m, INIT_ROOM + CONT_ROOM * k, k % 256)
  }

  lemma PumpOne(m: Message, k: nat)
    requires k < Continuations(|m.payload|) && |m.payload| <= MAX_MESSAGE
    ensures Pump(SendingState(m, k))
         == (PacketAt(m, k + 1), if k + 1 == Continuations(|m.payload|) then NoResponse else SendingState(m, k + 1))
  {
    hide InitPacket, ContPacket;
    AllSent(|m.payload|);
    NextPacket(m, k);
  }

  lemma {:induction false} PumpContinues(m: Message, k: nat)
    requires k < Continuations(|m.payload|) && |m.payload| <= MAX_MESSAGE
    ensures FirstPackets(m, k + 1) + PumpAll(SendingState(m, k)) == Packets(m)
    decreases Continuations(|m.payload|) - k
  {
    hide Pump, PacketAt, SendingState;
    var n := |m.payload|;
    FirstPacketsMore(m, k + 1);
    PumpOne(m, k);
    var (p, rest) := Pump(SendingState(m, k));
    assert FirstPackets(m, k + 1) + ([p] + PumpAll(rest)) == (FirstPackets(m, k + 1) + [p]) + PumpAll(rest);
    if k + 1 < Continuations(n) {
      PumpContinues(m, k + 1);
    }
  }

  /** The response pump emits exactly the packets of the queued message. */
  lemma PumpEmits(m: Message)
    requires |m.payload| <= MAX_MESSAGE
    ensures PumpAll(Queue(m)) == Packets(m)
  {
    hide InitPacket, ContPacket, PacketAt;
    assert m.payload[..|m.payload|] == m.payload;
    FirstPacket(m);
    AllSent(|m.payload|);
    if Continuations(|m.payload|) > 0 {
      PumpContinues(m, 0);
    }
  }

  /** expected_cid, expected_command, total_length, the chunks and next_seq of send_command's receive loop */
  datatype Host = Waiting | Collecting(cid: u32, cmd: byte, total: nat, data: seq<byte>, nextSeq: byte)

  datatype Received = More(host: Host) | Done(cmd: byte, payload: seq<byte>) | OutOfOrder

  function HostReceive(h: Host, p: Packet): Received {
    if IsInit(p) then
      var data := Body(p)[..Min(INIT_ROOM, Total(p))];
      if |data| >= Total(p) then Done(Cmd(p), data) else More(Collecting(Cid(p), Cmd(p), Total(p), data, 0))
    else if h.Waiting? then More(h)
    else if Cid(p) != h.cid || p[4] % 128 != h.nextSeq then OutOfOrder
    else
      var data := h.data + Body(p)[..if h.total <= |h.data| then 0 else Min(h.total - |h.data|, CONT_ROOM)];
      if |data| >= h.total then Done(h.cmd, data) else More(h.(data := data, nextSeq := (h.nextSeq + 1) % 256))
  }

  /** The receive loop: it stops at the first packet that ends the message or breaks its order. */
  function HostRun(h: Host, ps: seq<Packet>): Received
    decreases |ps|
  {
    if ps == [] then More(h)
    else
      match HostReceive(h, ps[0])
      case More(next) => HostRun(next, ps[1..])
      case r => r
  }

  datatype Answer = Success(cmd: byte, payload: seq<byte>) | DeviceError(code: byte) | Broken | TimedOut

  /** How send_command ends, once the loop has. */
  function Concluded(r: Received): Answer {
    match r
    case More(_) => TimedOut
    case OutOfOrder => Broken
    case Done(cmd, payload) =>
      if cmd == CMD_ERROR then DeviceError(if payload == [] then 0xff else payload[0]) else Success(cmd, payload)
  }

  /** The receiving half of DebugHidBackend::send_command. */
  method ReceiveResponse(ps: seq<Packet>) returns (r: Answer, used: nat)
    ensures used <= |ps| && r == Concluded(HostRun(Waiting, ps))
    ensures r.TimedOut? <==> HostRun(Waiting, ps).More?
    ensures !r.TimedOut? ==> 0 < used && HostRun(Waiting, ps[..used]) == HostRun(Waiting, ps)
  {
    hide HostReceive;
    var h := Waiting;
    used := 0;
    RunNothing(Waiting);
    while used < |ps|
      invariant used <= |ps|
      invariant HostRun(h, ps[used..]) == HostRun(Waiting, ps)
      invariant HostRun(Waiting, ps[..used]) == More(h)
    {
      var step := HostReceive(h, ps[used]);
      assert ps[used..][0] == ps[used] && ps[used..][1..] == ps[used + 1..];
      HostRunMore(Waiting, ps[..used], ps[used]);
      assert ps[..used] + [ps[used]] == ps[..used + 1];
      used := used + 1;
      if !step.More? {
        return Concluded(step), used;
      }
      h := step.host;
    }
    r := TimedOut;
  }

  lemma RunNothing(h: Host)
    ensures HostRun(h, []) == More(h)
  {
  }

  lemma {:induction false} HostRunMore(h: Host, ps: seq<Packet>, p: Packet)
    requires HostRun(h, ps).More?
    ensures HostRun(h, ps + [p]) == HostReceive(HostRun(h, ps).host, p)
    decreases |ps|
  {
    hide HostReceive;
    if ps == [] {
      RunNothing(h);
      assert [p][1..] == [] && [] + [p] == [p];
      if HostReceive(h, p).More? {
        RunNothing(HostReceive(h, p).host);
      }
    } else {
      assert (ps + [p])[0] == ps[0] && (ps + [p])[1..] == ps[1..] + [p];
      HostRunMore(HostReceive(h, ps[0]).host, ps[1..], p);
    }
  }

  lemma {:induction false} HostSkips(strays: seq<Packet>, ps: seq<Packet>)
    requires forall i :: 0 <= i < |strays| ==> !IsInit(strays[i])
    ensures HostRun(Waiting, strays + ps) == HostRun(Waiting, ps)
    decreases |strays|
  {
    if strays == [] {
      assert strays + ps == ps;
    } else {
      assert (strays + ps)[0] == strays[0] && (strays + ps)[1..] == strays[1..] + ps;
      HostSkips(strays[1..], ps);
    }
  }

  /** The receiver's state while a response is in flight. */
  function CollectingState(m: Message, k: nat): Host
    requires k < Continuations(|m.payload|) && |m.payload| <= MAX_MESSAGE
  {
    AllSent(|m.payload|);
    Collecting(m.cid, m.cmd, |m.payload|, m.payload[..INIT_ROOM + CONT_ROOM * k], k)
  }

  lemma FirstCollected(h: Host, m: Message)
    requires |m.payload| <= MAX_MESSAGE && m.cmd < 128
    ensures HostReceive(h, PacketAt(m, 0))
         == if Continuations(|m.payload|) == 0 then Done(m.cmd, m.payload) else More(CollectingState(m, 0))
  {
    hide InitPacket, Cid, Total, Body;
    var n := |m.payload|;
    InitPacketReads(m.cid, m.cmd, n, m.payload[..Sent(n, 0)]);
    if n <= INIT_ROOM {
      assert m.payload[..n] == m.payload;
    }
  }

  lemma NextCollected(m: Message, k: nat)
    requires k < Continuations(|m.payload|) && |m.payload| <= MAX_MESSAGE
    ensures HostReceive(CollectingState(m, k), PacketAt(m, k + 1))
         == if k + 1 == Continuations(|m.payload|) then Done(m.cmd, m.payload) else More(CollectingState(m, k + 1))
  {
    hide ContPacket, Cid, Total, Body;
    var n, lo, hi := |m.payload|, INIT_ROOM + CONT_ROOM * k, Sent(|m.payload|, k + 1);
    AllSent(n);
    NextPacket(m, k);
    ContPacketReads(m.cid, k, m.payload[lo..hi]);
    assert m.payload[..lo] + m.payload[lo..hi] == m.payload[..hi];
    assert m.payload[..n] == m.payload;
    assert hi - lo == Min(n - lo, CONT_ROOM);
  }

  lemma {:induction false} Collects(m: Message, k: nat)
    requires k < Continuations(|m.payload|) && |m.payload| <= MAX_MESSAGE && m.cmd < 128
    ensures HostRun(Waiting, FirstPackets(m, k + 1)) == More(CollectingState(m, k))
    decreases k
  {
    hide HostReceive, PacketAt, CollectingState;
    FirstPacketsMore(m, k);
    if k == 0 {
      FirstCollected(Waiting, m);
      assert FirstPackets(m, 0) == [];
      RunNothing(Waiting);
    } else {
      Collects(m, k - 1);
      NextCollected(m, k - 1);
    }
    HostRunMore(Waiting, FirstPackets(m, k), PacketAt(m, k));
  }

  /** Device to host: the packets pumped for a queued response, after any stray continuations, are reassembled to
      the same command and payload, and the receive loop uses all of them. */
  lemma ResponseArrives(m: Message, strays: seq<Packet>)
    requires |m.payload| <= MAX_MESSAGE && m.cmd < 128
    requires forall i :: 0 <= i < |strays| ==> !IsInit(strays[i])
    ensures var stream := strays + PumpAll(Queue(m));
      && HostRun(Waiting, stream) == Done(m.cmd, m.payload)
      && HostRun(Waiting, stream[..|stream| - 1]).More?
  {
    hide HostReceive, PacketAt, CollectingState, HostRun;
    var k := Continuations(|m.payload|);
    PumpEmits(m);
    var all, front := Packets(m), FirstPackets(m, k);
    FirstPacketsMore(m, k);
    assert (strays + all)[..|strays| + k] == strays + front;
    HostSkips(strays, all);
    HostSkips(strays, front);
    if k == 0 {
      FirstCollected(Waiting, m);
      assert front == [];
      RunNothing(Waiting);
    } else {
      Collects(m, k - 1);
      NextCollected(m, k - 1);
    }
    HostRunMore(Waiting, front, PacketAt(m, k));
  }

  /** The host gives up exactly on a continuation, once a response has begun, that is of another channel or out of
      order, and so a response with one packet missing is never taken for another. */
  lemma GivesUpIff(h: Host, p: Packet)
    ensures HostReceive(h, p) == OutOfOrder
       <==> h.Collecting? && p[4] < 128 && (Cid(p) != h.cid || p[4] != h.nextSeq)
  {
  }

  const CMD_KEEPALIVE: byte := 0x3b

  /** CTAPHID_KEEPALIVE: one status byte. */
  predicate IsKeepalive(p: Packet) {
    IsInit(p) && Cmd(p) == CMD_KEEPALIVE && Total(p) == 1
  }

  /** What the device sends as a keepalive is one. */
  lemma KeepaliveIsOne(cid: u32, status: byte)
    ensures IsKeepalive(InitPacket(cid, CMD_KEEPALIVE, 1, [status]))
    ensures Body(InitPacket(cid, CMD_KEEPALIVE, 1, [status]))[..1] == [status]
  {
    InitPacketReads(cid, CMD_KEEPALIVE, 1, [status]);
  }

  /** A keepalive is taken for the response, wherever the wait meets it: the host never looks at what follows. */
  lemma {:induction false} KeepaliveEndsTheWait(strays: seq<Packet>, keepalive: Packet, ps: seq<Packet>)
    requires (forall i :: 0 <= i < |strays| ==> !IsInit(strays[i])) && IsKeepalive(keepalive)
    ensures HostRun(Waiting, strays + [keepalive] + ps) == Done(CMD_KEEPALIVE, Body(keepalive)[..1])
  {
    var rest := [keepalive] + ps;
    assert strays + [keepalive] + ps == strays + rest && rest[0] == keepalive;
    HostSkips(strays, rest);
  }

  /** Exactly when the host gets the response: among stray continuations and keepalives in front of it, there must
      be no keepalive. Otherwise it answers with the first of them. */
  lemma {:induction false} ResponseArrivesIff(m: Message, strays: seq<Packet>)
    requires |m.payload| <= MAX_MESSAGE && m.cmd < 128 && m.cmd != CMD_KEEPALIVE
    requires forall i :: 0 <= i < |strays| ==> !IsInit(strays[i]) || IsKeepalive(strays[i])
    ensures HostRun(Waiting, strays + PumpAll(Queue(m))) == Done(m.cmd, m.payload)
       <==> forall i :: 0 <= i < |strays| ==> !IsInit(strays[i])
  {
    hide HostRun, HostReceive, IsKeepalive;
    if forall i :: 0 <= i < |strays| ==> !IsInit(strays[i]) {
      ResponseArrives(m, strays);
    } else {
      var first := FirstInit(strays);
      var stream := PumpAll(Queue(m));
      KeepaliveEndsTheWait(strays[..first], strays[first], strays[first + 1..] + stream);
      assert strays[..first] + [strays[first]] + (strays[first + 1..] + stream) == strays + stream;
    }
  }

  lemma {:induction false} FirstInit(ps: seq<Packet>) returns (first: nat)
    requires exists i :: 0 <= i < |ps| && IsInit(ps[i])
    ensures first < |ps| && IsInit(ps[first]) && forall i :: 0 <= i < first ==> !IsInit(ps[i])
    decreases |ps|
  {
    if IsInit(ps[0]) {
      first := 0;
    } else {
      var i :| 0 <= i < |ps| && IsInit(ps[i]);
      assert ps[1..][i - 1] == ps[i];
      var later := FirstInit(ps[1..]);
      first := later + 1;
    }
  }
}
