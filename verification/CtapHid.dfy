/** The HID interfaces of the firmware: fixed request and response buffers filled packet by packet. Its methods
    are proved to follow HidFraming.dfy and HidExchange.dfy. */
module CtapHid {
  import opened Bits
  import opened Words
  import opened StoreFormat
  import opened HidFraming
  import opened HidExchange

  /** The command handlers behind the transport: None is ctap2_handle_cbor failing; the diagnostics handler is
      None on every interface but the debug one. */
  datatype Handlers = Handlers(
    cbor: seq<byte> -> Option<seq<byte>>,
    diagnostics: Option<seq<byte> -> seq<byte>>)

  /** allocate_channel: neither 0 nor the broadcast channel. */
  function AllocateChannel(next: u32): (r: (u32, u32))
    ensures r.0 != 0 && r.0 != BROADCAST_CID
  {
    if next == 0 || next == BROADCAST_CID then (1, 2) else (next, (next + 1) % 0x1_0000_0000)
  }

  function ErrorMessage(cid: u32, code: byte): Message {
    Message(cid, CMD_ERROR, [code])
  }

  datatype Reply = Reply(message: Option<Message>, nextChannel: u32)

  /** dispatch_request: what is queued for a request, and the next channel id. A channel id is used up even by a
      broadcast INIT of the wrong length. */
  function Serve(h: Handlers, m: Message, nextChannel: u32): Reply {
    if m.cmd == CMD_INIT then
      var (cid, next) := if m.cid == BROADCAST_CID then AllocateChannel(nextChannel) else (m.cid, nextChannel);
      if |m.payload| != 8 then Reply(Some(ErrorMessage(m.cid, ERR_INVALID_LEN)), next)
      else Reply(Some(Message(m.cid, CMD_INIT, m.payload + Be32(cid) + [2, 1, 0, 1, 12])), next)
    else if m.cmd == CMD_PING then Reply(Some(m), nextChannel)
    else if m.cmd == CMD_CBOR then
      match h.cbor(m.payload)
      case None => Reply(Some(ErrorMessage(m.cid, ERR_INVALID_CMD)), nextChannel)
      case Some(r) =>
        Reply(Some(if |r| > MAX_MESSAGE then ErrorMessage(m.cid, ERR_INVALID_LEN) else Message(m.cid, CMD_CBOR, r)),
              nextChannel)
    else if m.cmd == CMD_CANCEL then Reply(None, nextChannel)
    else if m.cmd == CMD_DIAG && h.diagnostics.Some? then
      Reply(Some(Message(m.cid, CMD_DIAG, h.diagnostics.value(m.payload))), nextChannel)
    else Reply(Some(ErrorMessage(m.cid, ERR_INVALID_CMD)), nextChannel)
  }

  /** What one reaction of the request state means for the response state. */
  function Respond(h: Handlers, r: Reaction, pending: Response, nextChannel: u32): (Response, u32) {
    match r
    case Nothing => (pending, nextChannel)
    case Error(cid, code) => (Queue(ErrorMessage(cid, code)), nextChannel)
    case Dispatch(m) =>
      var reply := Serve(h, m, nextChannel);
      (if reply.message.Some? then Queue(reply.message.value) else pending, reply.nextChannel)
  }

  /** s_next_channel_id, which all interfaces share. */
  class Channels {
    var next: u32

    constructor ()
      ensures next == 1
    {
      next := 1;
    }

    /** allocate_channel */
    method Allocate() returns (channel: u32)
      modifies this
      ensures (channel, next) == AllocateChannel(old(next))
    {
      channel := next;
      next := (next + 1) % 0x1_0000_0000;
      if channel == 0 || channel == BROADCAST_CID {
        next := 1;
        channel := next;
        next := next + 1;
      }
    }
  }

  /** The counter after `count` allocations, by whichever interfaces. */
  function NextAfter(count: nat): u32
    decreases count
  {
    if count == 0 then 1 else AllocateChannel(NextAfter(count - 1)).1
  }

  /** How many channels there are: all but 0 and the broadcast channel. */
  const CHANNELS: nat := 0xffff_fffe

  /** `count` modulo the number of channels. */
  function Around(count: nat): (r: nat)
    ensures r < CHANNELS
    decreases count
  {
    if count == 0 then 0 else if Around(count - 1) == CHANNELS - 1 then 0 else Around(count - 1) + 1
  }

  lemma {:induction false} AroundOnce(count: nat, more: nat)
    requires 0 < more < CHANNELS
    ensures Around(count + more) == if Around(count) + more < CHANNELS then Around(count) + more
                                    else Around(count) + more - CHANNELS
    decreases more
  {
    if more > 1 {
      AroundOnce(count, more - 1);
    }
  }

  /** Channels are handed out in order, and after the last one from the first again. */
  lemma {:induction false} ChannelIs(count: nat)
    ensures AllocateChannel(NextAfter(count)) == (Around(count) + 1, Around(count) + 2)
    decreases count
  {
    if count > 0 {
      ChannelIs(count - 1);
    }
  }

  /** No two of 2^32 - 2 allocations in a row, on any interfaces, hand out the same channel. */
  lemma ChannelsDiffer(first: nat, second: nat)
    requires first < second < first + CHANNELS
    ensures AllocateChannel(NextAfter(first)).0 != AllocateChannel(NextAfter(second)).0
  {
    ChannelIs(first);
    ChannelIs(second);
    AroundOnce(first, second - first);
  }

  class HidInterface {
    const channels: Channels
    var requestInProgress: bool
    var requestCid: u32
    var requestCmd: byte
    var requestTotal: nat
    var requestReceived: nat
    var requestNextSeq: byte
    const requestBuffer: array<byte>

    var responseInProgress: bool
    var responseCid: u32
    var responseCmd: byte
    var responseLength: nat
    var responseSent: nat
    var responseNextSeq: byte
    const responseBuffer: array<byte>

    ghost predicate Shaped()
      reads this
    {
      && requestBuffer.Length == responseBuffer.Length == MAX_MESSAGE && requestBuffer != responseBuffer
      && requestReceived <= MAX_MESSAGE && responseSent <= responseLength <= MAX_MESSAGE
    }

    ghost predicate Valid()
      reads this, requestBuffer
    {
      Shaped() && RequestValid(RequestState())
    }

    ghost function RequestState(): Request
      requires requestBuffer.Length == MAX_MESSAGE && requestReceived <= MAX_MESSAGE
      reads this, requestBuffer
    {
      if requestInProgress
      then Receiving(requestCid, requestCmd, requestTotal, requestBuffer[..requestReceived], requestNextSeq)
      else Idle
    }

    ghost function ResponseState(): Response
      requires responseBuffer.Length == MAX_MESSAGE && responseLength <= MAX_MESSAGE
      reads this, responseBuffer
    {
      if responseInProgress
      then Sending(Message(responseCid, responseCmd, responseBuffer[..responseLength]), responseSent, responseNextSeq)
      else NoResponse
    }

    constructor (channels: Channels)
      ensures Valid() && fresh(requestBuffer) && fresh(responseBuffer) && this.channels == channels
      ensures RequestState() == Idle && ResponseState() == NoResponse
    {
      this.channels := channels;
      requestBuffer, responseBuffer := new byte[MAX_MESSAGE], new byte[MAX_MESSAGE];
      requestInProgress, requestCid, requestCmd, requestTotal, requestReceived, requestNextSeq := false, 0, 0, 0, 0, 0;
      responseInProgress, responseCid, responseCmd, responseLength, responseSent, responseNextSeq :=
        false, 0, 0, 0, 0, 0;
    }

    method ClearRequest()
      requires Shaped()
      modifies this
      ensures Shaped() && RequestState() == Idle && requestReceived == 0 && requestNextSeq == 0
      ensures ResponseState() == old(ResponseState())
    {
      requestInProgress, requestCid, requestCmd, requestTotal, requestReceived, requestNextSeq := false, 0, 0, 0, 0, 0;
    }

    method ClearResponse()
      requires Shaped()
      modifies this
      ensures Shaped() && ResponseState() == NoResponse && responseSent == 0 && responseNextSeq == 0
      ensures requestInProgress == old(requestInProgress) && requestReceived == old(requestReceived)
      ensures RequestState() == old(RequestState())
    {
      responseInProgress, responseCid, responseCmd, responseLength, responseSent, responseNextSeq :=
        false, 0, 0, 0, 0, 0;
    }

    /** queue_response */
    method QueueResponse(cid: u32, cmd: byte, payload: seq<byte>)
      requires Shaped()
      modifies this, responseBuffer
      ensures Shaped() && ResponseState() == Queue(Message(cid, cmd, payload))
      ensures RequestState() == old(RequestState())
    {
      var length := if |payload| > MAX_MESSAGE then MAX_MESSAGE else |payload|;
      ClearResponse();
      responseCid, responseCmd, responseLength := cid, cmd, length;
      forall i | 0 <= i < length {
        responseBuffer[i] := payload[i];
      }
      responseInProgress := true;
      assert responseBuffer[..length] == payload[..length];
    }

    method QueueError(cid: u32, code: byte)
      requires Shaped()
      modifies this, responseBuffer
      ensures Shaped() && ResponseState() == Queue(ErrorMessage(cid, code))
      ensures RequestState() == old(RequestState())
    {
      QueueResponse(cid, CMD_ERROR, [code]);
    }

    /** dispatch_request */
    method DispatchRequest(h: Handlers, m: Message)
      requires Shaped()
      modifies this, channels, responseBuffer
      ensures Shaped() && RequestState() == old(RequestState())
      ensures (ResponseState(), channels.next)
           == Respond(h, Dispatch(m), old(ResponseState()), old(channels.next))
    {
      if m.cmd == CMD_INIT {
        var channel := m.cid;
        if m.cid == BROADCAST_CID {
          channel := channels.Allocate();
        }
        if |m.payload| != 8 {
          QueueError(m.cid, ERR_INVALID_LEN);
          return;
        }
        QueueResponse(m.cid, CMD_INIT, m.payload + Be32(channel) + [2, 1, 0, 1, 12]);
      } else if m.cmd == CMD_PING {
        QueueResponse(m.cid, CMD_PING, m.payload);
      } else if m.cmd == CMD_CBOR {
        var response := h.cbor(m.payload);
        if response.None? {
          QueueError(m.cid, ERR_INVALID_CMD);
        } else if |response.value| > MAX_MESSAGE {
          QueueError(m.cid, ERR_INVALID_LEN);
        } else {
          QueueResponse(m.cid, CMD_CBOR, response.value);
        }
      } else if m.cmd == CMD_CANCEL {
        return;
      } else if m.cmd == CMD_DIAG && h.diagnostics.Some? {
        QueueResponse(m.cid, CMD_DIAG, h.diagnostics.value(m.payload));
      } else {
        QueueError(m.cid, ERR_INVALID_CMD);
      }
    }

    /** The memcpy of a packet's payload into the request buffer. */
    method TakeBytes(bytes: seq<byte>)
      requires Shaped() && requestInProgress && requestReceived + |bytes| <= MAX_MESSAGE
      modifies this`requestReceived, requestBuffer
      ensures Shaped() && ResponseState() == old(ResponseState()) && requestReceived == old(requestReceived) + |bytes|
      ensures RequestState() == Receiving(requestCid, requestCmd, requestTotal,
                                          old(requestBuffer[..requestReceived]) + bytes, requestNextSeq)
    {
      forall i | 0 <= i < |bytes| {
        requestBuffer[requestReceived + i] := bytes[i];
      }
      assert requestBuffer[..requestReceived + |bytes|] == old(requestBuffer[..requestReceived]) + bytes;
      requestReceived := requestReceived + |bytes|;
    }

    /** A request received in full is dispatched from the buffer and cleared. */
    method FinishIfComplete(h: Handlers)
      requires Shaped() && requestInProgress && requestReceived <= requestTotal
      modifies this, channels, responseBuffer
      ensures Shaped() && RequestState() == Advance(old(RequestState())).request
      ensures (ResponseState(), channels.next)
           == Respond(h, Advance(old(RequestState())).reaction, old(ResponseState()), old(channels.next))
    {
      hide Serve;
      RespondNothing(h, ResponseState(), channels.next);
      if requestReceived >= requestTotal {
        DispatchRequest(h, Message(requestCid, requestCmd, requestBuffer[..requestTotal]));
        ClearRequest();
      }
    }

    method HandleContinuation(h: Handlers, report: Packet)
      requires Valid() && !IsInit(report)
      modifies this, channels, requestBuffer, responseBuffer
      ensures Shaped()
      ensures var step := Receive(old(RequestState()), report);
        && RequestState() == step.request
        && (ResponseState(), channels.next) == Respond(h, step.reaction, old(ResponseState()), old(channels.next))
    {
      hide Respond, Cid, Cmd, Total, Body, Advance, Accepts;
      var cid := Cid(report);
      RespondNothing(h, ResponseState(), channels.next);
      RespondError(h, ResponseState(), channels.next, cid);
      if !requestInProgress || cid != requestCid {
        if cid != BROADCAST_CID {
          QueueError(cid, ERR_INVALID_SEQ);
        }
        return;
      }
      if report[4] != requestNextSeq {
        QueueError(cid, ERR_INVALID_SEQ);
        ClearRequest();
        return;
      }
      requestNextSeq := (requestNextSeq + 1) % 256;
      TakeBytes(Body(report)[..Min(requestTotal - requestReceived, CONT_ROOM)]);
      FinishIfComplete(h);
    }

    method HandleInitialization(h: Handlers, report: Packet)
      requires Valid() && IsInit(report)
      modifies this, channels, requestBuffer, responseBuffer
      ensures Shaped()
      ensures var step := Receive(old(RequestState()), report);
        && RequestState() == step.request
        && (ResponseState(), channels.next) == Respond(h, step.reaction, old(ResponseState()), old(channels.next))
    {
      hide Respond, Cid, Cmd, Total, Body, Advance;
      var cid, total := Cid(report), Total(report);
      RespondError(h, ResponseState(), channels.next, cid);
      if total > MAX_MESSAGE {
        QueueError(cid, ERR_INVALID_LEN);
        ClearRequest();
        return;
      }
      if cid == BROADCAST_CID && Cmd(report) != CMD_INIT {
        QueueError(cid, ERR_INVALID_CID);
        ClearRequest();
        return;
      }
      ClearRequest();
      requestInProgress, requestCid, requestCmd, requestTotal := true, cid, Cmd(report), total;
      var first := Body(report)[..Min(total, INIT_ROOM)];
      assert requestBuffer[..0] + first == first;
      TakeBytes(first);
      FinishIfComplete(h);
    }

    /** ctap_hid_handle_report; a report of any other size is ignored. */
    method HandleReport(h: Handlers, report: seq<byte>)
      requires Valid()
      modifies this, channels, requestBuffer, responseBuffer
      ensures Valid()
      ensures |report| != PACKET_SIZE ==>
        && RequestState() == old(RequestState()) && ResponseState() == old(ResponseState())
        && channels.next == old(channels.next)
      ensures |report| == PACKET_SIZE ==>
        var step := Receive(old(RequestState()), report);
        && RequestState() == step.request
        && (ResponseState(), channels.next) == Respond(h, step.reaction, old(ResponseState()), old(channels.next))
    {
      hide Respond, RequestValid, Receive;
      if |report| != PACKET_SIZE {
        return;
      }
      ReceiveKeepsValid(RequestState(), report);
      if !IsInit(report) {
        HandleContinuation(h, report);
      } else {
        HandleInitialization(h, report);
      }
    }

    /** send_next_response_packet, when the endpoint is ready */
    method SendNextResponsePacket() returns (packet: Option<Packet>)
      requires Valid()
      modifies this
      ensures Valid() && RequestState() == old(RequestState())
      ensures old(ResponseState()).NoResponse? ==> packet == None && ResponseState() == NoResponse
      ensures old(ResponseState()).Sending? ==>
        packet == Some(Pump(old(ResponseState())).0) && ResponseState() == Pump(old(ResponseState())).1
    {
      hide InitPacket, ContPacket;
      if !responseInProgress {
        return None;
      }
      var remaining := responseLength - responseSent;
      var chunk;
      if responseSent == 0 {
        chunk := Min(remaining, INIT_ROOM);
        packet := Some(InitPacket(responseCid, responseCmd, responseLength, responseBuffer[..chunk]));
      } else {
        chunk := Min(remaining, CONT_ROOM);
        packet := Some(ContPacket(responseCid, responseNextSeq, responseBuffer[responseSent..responseSent + chunk]));
        responseNextSeq := (responseNextSeq + 1) % 256;
      }
      responseSent := responseSent + chunk;
      assert responseBuffer[..responseLength][..responseSent] == responseBuffer[..responseSent];
      if responseSent >= responseLength {
        ClearResponse();
      }
    }
  }

  lemma RespondNothing(h: Handlers, pending: Response, nextChannel: u32)
    ensures Respond(h, Nothing, pending, nextChannel) == (pending, nextChannel)
  {
  }

  lemma RespondError(h: Handlers, pending: Response, nextChannel: u32, cid: u32)
    ensures forall code ::
      Respond(h, Error(cid, code), pending, nextChannel) == (Queue(ErrorMessage(cid, code)), nextChannel)
  {
  }

  // ---- Whole exchanges ----

  /** The device's part of an exchange, on values: all request packets in, then all response packets out. */
  function Exchange(h: Handlers, s: Request, nextChannel: u32, m: Message): seq<Packet> {
    var r := Run(s, Packets(m));
    PumpAllQueued(Respond(h, r.reactions[|r.reactions| - 1], NoResponse, nextChannel).0)
  }

  function PumpAllQueued(r: Response): seq<Packet> {
    if r.Sending? && r.sent <= |r.message.payload| then PumpAll(r) else []
  }

  /** A whole exchange: whatever the interface was doing before, a request of up to 1024 bytes is served once,
      and the host receives exactly the answer the handlers gave, or the error they answered with. */
  lemma ExchangeAnswers(h: Handlers, s: Request, nextChannel: u32, m: Message)
    requires |m.payload| <= MAX_MESSAGE && m.cmd < 128
    requires m.cid == BROADCAST_CID ==> m.cmd == CMD_INIT
    requires var reply := Serve(h, m, nextChannel).message;
      reply.Some? && |reply.value.payload| <= MAX_MESSAGE
    ensures var reply := Serve(h, m, nextChannel).message.value;
      Concluded(HostRun(Waiting, Exchange(h, s, nextChannel, m)))
        == if reply.cmd == CMD_ERROR then DeviceError(reply.payload[0]) else Success(reply.cmd, reply.payload)
  {
    hide Run, Packets, PumpAll, HostRun;
    var reply := Serve(h, m, nextChannel).message.value;
    RequestArrives(s, m);
    assert reply.payload[..|reply.payload|] == reply.payload;
    ResponseArrives(reply, []);
    assert [] + PumpAll(Queue(reply)) == PumpAll(Queue(reply));
  }

  /** A ping of up to 1024 bytes comes back unchanged. */
  lemma PingEchoes(h: Handlers, s: Request, nextChannel: u32, cid: u32, payload: seq<byte>)
    requires |payload| <= MAX_MESSAGE && cid != BROADCAST_CID
    ensures Concluded(HostRun(Waiting, Exchange(h, s, nextChannel, Message(cid, CMD_PING, payload))))
         == Success(CMD_PING, payload)
  {
    hide Run, HostRun, Exchange;
    ExchangeAnswers(h, s, nextChannel, Message(cid, CMD_PING, payload));
  }

  /** INIT on the broadcast channel: the host gets its nonce back, and a channel that is neither 0 nor the broadcast
      channel, with protocol version 2 and the capabilities WINK off, CBOR and NMSG on. */
  lemma InitGivesChannel(h: Handlers, s: Request, nextChannel: u32, nonce: seq<byte>)
    requires |nonce| == 8
    ensures var m, channel := Message(BROADCAST_CID, CMD_INIT, nonce), AllocateChannel(nextChannel).0;
      && Serve(h, m, nextChannel).nextChannel == AllocateChannel(nextChannel).1
      && Serve(h, m, nextChannel).message.Some? && Serve(h, m, nextChannel).message.value.cid == BROADCAST_CID
      && Concluded(HostRun(Waiting, Exchange(h, s, nextChannel, m)))
           == Success(0x06, nonce + Be32(channel) + [2, 1, 0, 1, 12])
      && channel != 0 && channel != 0xffff_ffff
  {
    hide Run, HostRun, Exchange;
    ExchangeAnswers(h, s, nextChannel, Message(BROADCAST_CID, CMD_INIT, nonce));
  }

  /** INIT on a channel in use keeps it, and takes no new one. */
  lemma InitKeepsChannel(h: Handlers, s: Request, nextChannel: u32, cid: u32, nonce: seq<byte>)
    requires |nonce| == 8 && cid != BROADCAST_CID
    ensures Serve(h, Message(cid, CMD_INIT, nonce), nextChannel).nextChannel == nextChannel
    ensures Concluded(HostRun(Waiting, Exchange(h, s, nextChannel, Message(cid, CMD_INIT, nonce))))
         == Success(0x06, nonce + Be32(cid) + [2, 1, 0, 1, 12])
  {
    hide Run, HostRun, Exchange;
    ExchangeAnswers(h, s, nextChannel, Message(cid, CMD_INIT, nonce));
  }

  /** A CBOR request, whatever it is and whatever the interface was doing: the host gets exactly what the handler
      answered, and the right error if that failed or is too long. */
  lemma CborIsAnswered(h: Handlers, s: Request, nextChannel: u32, cid: u32, request: seq<byte>)
    requires |request| <= MAX_MESSAGE && cid != BROADCAST_CID
    ensures Concluded(HostRun(Waiting, Exchange(h, s, nextChannel, Message(cid, CMD_CBOR, request))))
         == match h.cbor(request)
            case None => DeviceError(0x01)
            case Some(response) => if |response| > 1024 then DeviceError(0x03) else Success(0x10, response)
  {
    hide Run, HostRun, Exchange;
    ExchangeAnswers(h, s, nextChannel, Message(cid, CMD_CBOR, request));
  }

  /** Everything else: an INIT of the wrong length and an unknown command are errors, the diagnostics one unless the
      interface has it, and CANCEL alone is not answered. */
  lemma OthersAreErrors(h: Handlers, s: Request, nextChannel: u32, cid: u32, cmd: byte, payload: seq<byte>)
    requires |payload| <= MAX_MESSAGE && cmd < 128 && (cid == BROADCAST_CID ==> cmd == CMD_INIT)
    requires cmd != CMD_PING && cmd != CMD_CBOR && (cmd == CMD_INIT ==> |payload| != 8)
    requires cmd == CMD_DIAG ==> h.diagnostics == None
    ensures var m := Message(cid, cmd, payload);
      if cmd == CMD_CANCEL then Serve(h, m, nextChannel) == Reply(None, nextChannel)
      else
        Concluded(HostRun(Waiting, Exchange(h, s, nextChannel, m)))
          == DeviceError(if cmd == 0x06 then 0x03 else 0x01)
  {
    hide Run, HostRun, Exchange;
    if cmd != CMD_CANCEL {
      ExchangeAnswers(h, s, nextChannel, Message(cid, cmd, payload));
    }
  }

  /** A protocol error replaces whatever was being sent, and the host reads its code; nothing else of the interface is
      touched. A CANCEL, and a packet that calls for no reaction, leave the response as it was. */
  lemma ErrorReachesHost(h: Handlers, pending: Response, nextChannel: u32, cid: u32, code: byte, payload: seq<byte>)
    ensures var r := Respond(h, Error(cid, code), pending, nextChannel);
      && Concluded(HostRun(Waiting, PumpAllQueued(r.0))) == DeviceError(code) && r.1 == nextChannel
      && r.0.Sending? && r.0.message.cid == cid
    ensures Respond(h, Dispatch(Message(cid, CMD_CANCEL, payload)), pending, nextChannel) == (pending, nextChannel)
    ensures Respond(h, Nothing, pending, nextChannel) == (pending, nextChannel)
  {
    hide PumpAll, HostRun;
    var m := ErrorMessage(cid, code);
    assert m.payload[..|m.payload|] == m.payload;
    ResponseArrives(m, []);
    assert [] + PumpAll(Queue(m)) == PumpAll(Queue(m));
  }
}
