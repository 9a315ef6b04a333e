/** CTAPHID framing (section 11.2.4 of CTAP 2.1) on values: packets, the device's reassembly of requests, the
    packets either side cuts a message into, and the host's reassembly of responses. */
module HidFraming {
  import opened Bits
  import opened Words
  import opened StoreFormat

  const BROADCAST_CID: u32 := 0xffff_ffff
  const PACKET_SIZE: nat := 64
  const INIT_ROOM: nat := 57
  const CONT_ROOM: nat := 59
  const MAX_MESSAGE: nat := 1024
  const CMD_PING: byte := 0x01
  const CMD_INIT: byte := 0x06
  const CMD_CBOR: byte := 0x10
  const CMD_CANCEL: byte := 0x11
  const CMD_ERROR: byte := 0x3f
  const CMD_DIAG: byte := 0x40
  const ERR_INVALID_CMD: byte := 0x01
  const ERR_INVALID_LEN: byte := 0x03
  const ERR_INVALID_SEQ: byte := 0x04
  const ERR_INVALID_CID: byte := 0x0b

  type Packet = s: seq<byte> | |s| == 64 witness seq(64, i => 0)

  datatype Message = Message(cid: u32, cmd: byte, payload: seq<byte>)

  function Cid(p: Packet): u32 { ReadBe32(p, 0) }

  predicate IsInit(p: Packet) { p[4] >= 128 }

  function Cmd(p: Packet): byte { p[4] % 128 }

  function Total(p: Packet): u16 { ReadBe16(p, 5) }

  function Body(p: Packet): (r: seq<byte>)
    ensures |r| == if IsInit(p) then INIT_ROOM else CONT_ROOM
  {
    if IsInit(p) then p[7..] else p[5..]
  }

  // ---- The device's request state ----

  datatype Request =
    | Idle
    | Receiving(cid: u32, cmd: byte, total: nat, data: seq<byte>, nextSeq: byte)

  datatype Reaction =
    | Nothing
    | Dispatch(message: Message)
    | Error(cid: u32, code: byte)

  datatype Step = Step(request: Request, reaction: Reaction)

  /** An initialization packet the device takes up. */
  predicate Accepts(p: Packet) {
    IsInit(p) && Total(p) <= MAX_MESSAGE && (Cid(p) == BROADCAST_CID ==> Cmd(p) == CMD_INIT)
  }

  /** ctap_hid_handle_report: what one packet does to the request state. */
  function Receive(s: Request, p: Packet): Step {
    if !IsInit(p) then
      if s.Idle? || Cid(p) != s.cid then
        Step(s, if Cid(p) != BROADCAST_CID then Error(Cid(p), ERR_INVALID_SEQ) else Nothing)
      else if p[4] != s.nextSeq then Step(Idle, Error(Cid(p), ERR_INVALID_SEQ))
      else Advance(s.(data := s.data + Body(p)[..Chunk(s)], nextSeq := (s.nextSeq + 1) % 256))
    else if Total(p) > MAX_MESSAGE then Step(Idle, Error(Cid(p), ERR_INVALID_LEN))
    else if !Accepts(p) then Step(Idle, Error(Cid(p), ERR_INVALID_CID))
    else Advance(Receiving(Cid(p), Cmd(p), Total(p), Body(p)[..Min(Total(p), INIT_ROOM)], 0))
  }

  function Chunk(s: Request): nat
    requires s.Receiving?
  {
    if s.total <= |s.data| then 0 else Min(s.total - |s.data|, CONT_ROOM)
  }

  /** A complete request is dispatched and forgotten. */
  function Advance(s: Request): Step
    requires s.Receiving?
  {
    if |s.data| >= s.total then Step(Idle, Dispatch(Message(s.cid, s.cmd, s.data))) else Step(s, Nothing)
  }

  /** request_received <= request_total_length <= 1024, and the next number fits what has been received. */
  predicate RequestValid(s: Request) {
    s.Receiving? ==>
      |s.data| < s.total <= MAX_MESSAGE && |s.data| == INIT_ROOM + CONT_ROOM * s.nextSeq && s.cmd < 128
  }

  lemma ReceiveKeepsValid(s: Request, p: Packet)
    requires RequestValid(s)
    ensures RequestValid(Receive(s, p).request)
    ensures var r := Receive(s, p).reaction; r.Dispatch? ==> |r.message.payload| <= MAX_MESSAGE && r.message.cmd < 128
  {
  }

  function After(ps: seq<Packet>): Request
    decreases |ps|
  {
    if ps == [] then Idle else Receive(After(ps[..|ps| - 1]), ps[|ps| - 1]).request
  }

  // ---- What is dispatched, without a state machine ----

  datatype Window = NoWindow | Window(first: Packet, rest: seq<Packet>)

  /** The last initialization packet, and the continuations of its channel that came after it. */
  function LastWindow(ps: seq<Packet>): (w: Window)
    ensures w.Window? ==> IsInit(w.first)
    ensures w.Window? ==> forall i :: 0 <= i < |w.rest| ==> !IsInit(w.rest[i]) && Cid(w.rest[i]) == Cid(w.first)
    decreases |ps|
  {
    if ps == [] then NoWindow
    else
      var p := ps[|ps| - 1];
      if IsInit(p) then Window(p, [])
      else
        match LastWindow(ps[..|ps| - 1])
        case NoWindow => NoWindow
        case Window(first, rest) => Window(first, if Cid(p) == Cid(first) then rest + [p] else rest)
  }

  predicate Numbered(rest: seq<Packet>) {
    forall i :: 0 <= i < |rest| ==> rest[i][4] == i
  }

  /** How many continuations a message of this length takes. */
  function Continuations(total: nat): nat {
    if total <= INIT_ROOM then 0 else (total - INIT_ROOM + CONT_ROOM - 1) / CONT_ROOM
  }

  function Bodies(rest: seq<Packet>): seq<byte>
    decreases |rest|
  {
    if rest == [] then [] else Bodies(rest[..|rest| - 1]) + Body(rest[|rest| - 1])
  }

  /** An accepted initialization packet with exactly its continuations, numbered 0, 1, 2, ... */
  predicate Complete(w: Window) {
    w.Window? && Accepts(w.first) && |w.rest| == Continuations(Total(w.first)) && Numbered(w.rest)
  }

  predicate Partial(w: Window) {
    w.Window? && Accepts(w.first) && |w.rest| < Continuations(Total(w.first)) && Numbered(w.rest)
  }

  function Joined(w: Window): seq<byte>
    requires w.Window?
  {
    Body(w.first) + Bodies(w.rest)
  }

  lemma {:induction false} BodiesLength(rest: seq<Packet>)
    requires forall i :: 0 <= i < |rest| ==> !IsInit(rest[i])
    ensures |Bodies(rest)| == CONT_ROOM * |rest|
    decreases |rest|
  {
    if rest != [] {
      BodiesLength(rest[..|rest| - 1]);
    }
  }

  /** The message a complete window carries. */
  function Carried(w: Window): Message
    requires w.Window?
  {
    Message(Cid(w.first), Cmd(w.first), Joined(w)[..Min(Total(w.first), |Joined(w)|)])
  }

  /** The request state is a function of the last window alone. */
  function WindowState(w: Window): Request {
    if Partial(w) then Receiving(Cid(w.first), Cmd(w.first), Total(w.first), Joined(w), |w.rest|) else Idle
  }

  lemma PartialRoom(w: Window)
    requires Partial(w) && forall i :: 0 <= i < |w.rest| ==> !IsInit(w.rest[i])
    ensures |Joined(w)| == INIT_ROOM + CONT_ROOM * |w.rest| < Total(w.first) <= MAX_MESSAGE
  {
    BodiesLength(w.rest);
  }

  /** One packet more: the state machine follows the window, and dispatches exactly when the packet completes
      the window it belongs to. */
  lemma ReceiveFollows(ps: seq<Packet>, p: Packet)
    requires After(ps) == WindowState(LastWindow(ps))
    ensures var w := LastWindow(ps + [p]);
      var step := Receive(After(ps), p);
      && step.request == WindowState(w)
      && (step.reaction.Dispatch? <==> Complete(w) && Cid(p) == Cid(w.first))
      && (step.reaction.Dispatch? ==> step.reaction.message == Carried(w))
  {
    var before, w := LastWindow(ps), LastWindow(ps + [p]);
    assert (ps + [p])[..|ps|] == ps;
    if IsInit(p) {
      assert Joined(w) == Body(p);
    } else if before.Window? && Cid(p) == Cid(before.first) {
      if Partial(before) {
        PartialRoom(before);
        ContinuationFollows(before, p);
      } else {
        NumberedMore(before.rest, p);
      }
    }
  }

  lemma ContinuationFollows(before: Window, p: Packet)
    requires before.Window? && Partial(before) && !IsInit(p) && Cid(p) == Cid(before.first)
    requires |Joined(before)| == INIT_ROOM + CONT_ROOM * |before.rest| < Total(before.first) <= MAX_MESSAGE
    ensures var w := Window(before.first, before.rest + [p]);
      var step := Receive(WindowState(before), p);
      && step.request == WindowState(w)
      && (step.reaction.Dispatch? <==> Complete(w))
      && (step.reaction.Dispatch? ==> step.reaction.message == Carried(w))
  {
    hide Accepts, Bodies, Cid, Total, Joined, Numbered;
    var w := Window(before.first, before.rest + [p]);
    JoinedMore(before, p);
    NumberedMore(before.rest, p);
    if p[4] == |before.rest| {
      var taken := Min(Total(before.first) - |Joined(before)|, CONT_ROOM);
      assert Joined(before) + Body(p)[..taken] == Joined(w)[..|Joined(before)| + taken];
      if taken == CONT_ROOM {
        assert Body(p)[..taken] == Body(p);
      }
    }
  }

  lemma JoinedMore(w: Window, p: Packet)
    requires w.Window?
    ensures Joined(Window(w.first, w.rest + [p])) == Joined(w) + Body(p)
  {
    assert (w.rest + [p])[..|w.rest|] == w.rest;
  }

  lemma NumberedMore(rest: seq<Packet>, p: Packet)
    ensures Numbered(rest + [p]) <==> Numbered(rest) && p[4] == |rest|
  {
    var more := rest + [p];
    assert more[|rest|] == p;
    assert forall i :: 0 <= i < |rest| ==> more[i] == rest[i];
  }

  /** Reassembly soundness and completeness under arbitrary interleaving: after any packets from any channels,
      a packet makes the device dispatch a message if and only if the last initialization packet was accepted,
      this packet is on its channel, and the channel's continuations since then, this one included, are exactly
      as many as its length needs and numbered 0, 1, 2, ...; the message is what they carry. */
  lemma {:induction false} DispatchIff(ps: seq<Packet>, p: Packet)
    ensures var w := LastWindow(ps + [p]);
      var step := Receive(After(ps), p);
      && (step.reaction.Dispatch? <==> Complete(w) && Cid(p) == Cid(w.first))
      && (step.reaction.Dispatch? ==> step.reaction.message == Carried(w))
      && RequestValid(step.request)
    decreases |ps|
  {
    hide Receive, WindowState, Complete, LastWindow;
    AfterFollows(ps);
    ReceiveFollows(ps, p);
    AfterValid(ps);
    ReceiveKeepsValid(After(ps), p);
  }

  lemma {:induction false} AfterFollows(ps: seq<Packet>)
    ensures After(ps) == WindowState(LastWindow(ps))
    decreases |ps|
  {
    hide Receive, WindowState;
    if ps != [] {
      var front := ps[..|ps| - 1];
      AfterFollows(front);
      ReceiveFollows(front, ps[|ps| - 1]);
      assert front + [ps[|ps| - 1]] == ps;
    } else {
      NothingYet();
    }
  }

  lemma NothingYet()
    ensures WindowState(NoWindow) == Idle
  {
  }

  lemma {:induction false} AfterValid(ps: seq<Packet>)
    ensures RequestValid(After(ps))
    decreases |ps|
  {
    if ps != [] {
      AfterValid(ps[..|ps| - 1]);
      ReceiveKeepsValid(After(ps[..|ps| - 1]), ps[|ps| - 1]);
    }
  }

  /** `p` is a continuation on the channel whose message is being received. */
  predicate Continues(w: Window, p: Packet) {
    !IsInit(p) && Partial(w) && Cid(p) == Cid(w.first)
  }

  /** Which error a packet is answered with, after any packets from any channels: an initialization packet for its
      length or its use of the broadcast channel, and a continuation if it is not the next one of the message being
      received on its channel; a stray one on the broadcast channel is ignored. */
  lemma ErrorIff(ps: seq<Packet>, p: Packet, cid: u32, code: byte)
    ensures var w := LastWindow(ps);
      (Receive(After(ps), p).reaction == Error(cid, code)) ==
        (cid == Cid(p)
         && if IsInit(p) then
              if Total(p) > 1024 then code == 0x03
              else Cid(p) == 0xffff_ffff && Cmd(p) != 0x06 && code == 0x0b
            else code == 0x04 && if Continues(w, p) then p[4] as int != |w.rest| else Cid(p) != 0xffff_ffff)
  {
    hide LastWindow, Bodies, Total, Cid, Cmd;
    AfterFollows(ps);
    var w := LastWindow(ps);
    if w.Window? && Partial(w) {
      PartialRoom(w);
    }
  }

  /** A message in reception survives an error exactly if the packet was a continuation of another channel. */
  lemma ErrorResets(ps: seq<Packet>, p: Packet)
    requires Receive(After(ps), p).reaction.Error?
    ensures Receive(After(ps), p).request == if IsInit(p) || Continues(LastWindow(ps), p) then Idle else After(ps)
  {
    hide LastWindow, Accepts, Bodies, Total, Cid, Cmd;
    AfterFollows(ps);
  }
}
