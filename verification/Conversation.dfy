/**
 * Requests and answers through the whole stack: the host's session (client/src/rdp.rs), both directions
 * of the line, reassembly on both sides, and the server (engine-core/src/comms/rdp.rs). Bodies go through
 * an arbitrary codec.
 */
module Conversation {
  import opened Bytes
  import opened Frame
  import opened Defrag
  import opened Receiver
  import opened Delivery
  import opened Session
  import opened HostTelemetry
  import opened DualStack
  import opened LineRecovery
  import Params
  import Demux
  import Server = ConfigServer
  import ConfigRuns

  /** How the device reads the body of an operation and writes the body of an answer. */
  datatype Codec = Codec(decode: (u16, seq<byte>) -> Server.Request, encode: Server.Response -> seq<byte>)

  /** The operations that `decode` is asked about. */
  predicate ConfigOp(op: u16) { 0x0301 <= op <= 0x0309 }

  function RequestMessage(number: u16, op: u16, body: seq<byte>): Message {
    Message(number, WithHeader(Request, op, body))
  }

  function AnswerMessage(number: u16, op: u16, body: seq<byte>): Message {
    Message(number, WithHeader(Response, op, body))
  }

  // ── The device ───────────────────────────────────────────────────────────

  /**
   * State and reply after one request handed to the servers. Messages that are no requests are ignored;
   * other operations and the legacy protocol do not touch the configuration and are left out.
   */
  function Replied(codec: Codec, s: Server.State, defaults: Params.EngineConfig, running: bool, r: Demux.Request)
    : (Server.State, seq<Message>)
    requires Server.ValidState(s)
  {
    match r
    case LegacyRequest(_) => (s, [])
    case RdpRequest(m) =>
      match ReadHeader(m.payload)
      case Some(Content(Request, op, body)) =>
        if !ConfigOp(op) then (s, []) else
        var req := codec.decode(op, body);
        (Server.Next(s, defaults, req, running), [AnswerMessage(m.number, op, codec.encode(Server.Answer(s, req, running)))])
      case _ => (s, [])
  }

  lemma RepliedValid(codec: Codec, s: Server.State, defaults: Params.EngineConfig, running: bool, r: Demux.Request)
    requires Server.ValidState(s) && Params.Valid(defaults)
    ensures Server.ValidState(Replied(codec, s, defaults, running, r).0)
  {
    hide Server.Next, Server.ValidState, Params.Valid, Server.Answer;
    match r
    case LegacyRequest(_) =>
    case RdpRequest(m) =>
      match ReadHeader(m.payload) {
        case Some(Content(Request, op, body)) =>
          ConfigRuns.NextValid(s, defaults, ConfigRuns.Turn(codec.decode(op, body), running));
        case _ =>
      }
  }

  ghost function RepliedAll(codec: Codec, s: Server.State, defaults: Params.EngineConfig, running: bool,
                            requests: seq<Demux.Request>): (r: (Server.State, seq<Message>))
    requires Server.ValidState(s) && Params.Valid(defaults)
    ensures Server.ValidState(r.0)
    decreases |requests|
  {
    if requests == [] then (s, []) else
    var (next, now) := Replied(codec, s, defaults, running, requests[0]);
    RepliedValid(codec, s, defaults, running, requests[0]);
    var (end, later) := RepliedAll(codec, next, defaults, running, requests[1..]);
    (end, now + later)
  }

  lemma RequestReplied(codec: Codec, s: Server.State, defaults: Params.EngineConfig, running: bool,
                       number: u16, op: u16, body: seq<byte>)
    requires Server.ValidState(s) && Params.Valid(defaults) && ConfigOp(op)
    ensures var req := codec.decode(op, body);
      RepliedAll(codec, s, defaults, running, [Demux.RdpRequest(RequestMessage(number, op, body))]) ==
      (Server.Next(s, defaults, req, running), [AnswerMessage(number, op, codec.encode(Server.Answer(s, req, running)))])
  {
    hide Server.Next, Server.Answer, Server.ValidState, Params.Valid, ReadHeader, WithHeader;
    HeaderRoundTrip(Request, op, body);
    var requests := [Demux.RdpRequest(RequestMessage(number, op, body))];
    var (next, now) := Replied(codec, s, defaults, running, requests[0]);
    RepliedValid(codec, s, defaults, running, requests[0]);
    assert requests[1..] == [] && RepliedAll(codec, next, defaults, running, []) == (next, []);
    assert now + [] == now;
  }

  // ── The line to the device ───────────────────────────────────────────────

  /** A request reaches an idle device as it was sent exactly if it is at most 1024 bytes long; idle again either way. */
  lemma RequestReachesDevice(a: Assembly, m: Message, pieces: seq<seq<byte>>)
    requires Idle(a) && Flatten(pieces) == MessageBytes(0, m.number, m.payload)
    ensures var d := ServeReads(a, [], pieces);
      && d.rest == [] && Idle(d.assembly)
      && (d.requests == [Demux.RdpRequest(m)] <==> |m.payload| <= 1024)
  {
    hide ServeReads, NeverDropped, HandledAll, PacketBytes, MessageFrames;
    var frames := MessageFrames(0, m.number, m.payload);
    var packets := AsRdpPackets(frames);
    MessageFramesSendable(0, m.number, m.payload);
    RdpTrafficIsStream(frames);
    assert packets == PacketsFor(Demux.RdpRequest(m));
    assert [] + Flatten(pieces) == Flatten(pieces);
    assert Started([], packets) by {
      PacketLength(packets[0]);
    }
    ReadsServeTraffic(a, [], pieces, packets);
    MessageServed(a, m);
  }

  // ── The line to the host ─────────────────────────────────────────────────

  /** Nothing among the messages ends the wait for `number`: pushes, and answers to other requests. */
  ghost predicate NoneEnds(messages: seq<Message>, number: u16) {
    forall i | 0 <= i < |messages| :: !Ends(messages[i], number)
  }

  lemma {:induction false} AnswerFound(before: seq<Message>, number: u16, op: u16, body: seq<byte>, later: seq<Message>, stop: RecvError)
    requires NoneEnds(before, number)
    ensures var messages := before + [AnswerMessage(number, op, body)] + later;
      Wait(messages, number) == |before| && OutcomeOf(messages, number, op, stop) == Answer(body)
  {
    hide Ends, ReadHeader, WithHeader, Wait, OutcomeOf;
    FirstAnswerDecides(before, number, op, op, body, later, stop);
  }

  lemma MessagesReachHost(h: Assembly, messages: seq<Message>, pieces: seq<seq<byte>>)
    requires Idle(h) && AllFit(messages) && Flatten(pieces) == SentBytes(messages)
    ensures var p := ParsePieces(h, [], pieces);
      p.messages == messages && p.rest == [] && Idle(p.assembly)
  {
    hide SentBytes, Parse, ParsePieces;
    PiecesMakeNoDifference(h, [], pieces);
    assert [] + Flatten(pieces) == Flatten(pieces);
    MessagesArrive(h, messages);
  }

  // ── One request and its answer ───────────────────────────────────────────

  /**
   * A request of at most 1024 bytes, cut anyhow, is handled by the server; its answer comes back through
   * pushes and answers to others, cut anyhow; the session returns the body of exactly that answer,
   * has queued the telemetry in front of it, and leaves what comes later. Both sides are idle again.
   */
  lemma RequestAnswered(codec: Codec, s: Server.State, defaults: Params.EngineConfig, running: bool, a: Assembly, h: Assembly,
                        number: u16, op: u16, body: seq<byte>, up: seq<seq<byte>>,
                        before: seq<Message>, later: seq<Message>, down: seq<seq<byte>>, stop: RecvError,
                        layouts: Layouts, channels: Channels)
    requires Server.ValidState(s) && Params.Valid(defaults) && Idle(a) && Idle(h) && ConfigOp(op)
    requires 3 + |body| <= 1024 && NoneEnds(before, number)
    requires Flatten(up) == MessageBytes(0, number, WithHeader(Request, op, body))
    ensures var d := ServeReads(a, [], up);
      var (next, replies) := RepliedAll(codec, s, defaults, running, d.requests);
      var req := codec.decode(op, body);
      && d.rest == [] && Idle(d.assembly) && next == Server.Next(s, defaults, req, running)
      && (AllFit(before + replies + later) && Flatten(down) == SentBytes(before + replies + later) ==>
            var p := ParsePieces(h, [], down);
            var n := Wait(p.messages, number);
            && OutcomeOf(p.messages, number, op, stop) == Answer(codec.encode(Server.Answer(s, req, running)))
            && p.messages[..n] == before && p.messages[n + 1..] == later && p.rest == [] && Idle(p.assembly)
            && QueuedFrom(layouts, channels, p.messages[..n]) == QueuedFrom(layouts, channels, before))
  {
    hide Server.Next, Server.Answer, Server.ValidState, Params.Valid, ServeReads, RepliedAll, ParsePieces, OutcomeOf, Wait;
    hide QueuedFrom, SentBytes, MessageBytes, WithHeader, AllFit, NoneEnds;
    var m := RequestMessage(number, op, body);
    RequestReachesDevice(a, m, up);
    RequestReplied(codec, s, defaults, running, number, op, body);
    var reply := codec.encode(Server.Answer(s, codec.decode(op, body), running));
    var messages := before + [AnswerMessage(number, op, reply)] + later;
    if AllFit(messages) && Flatten(down) == SentBytes(messages) {
      MessagesReachHost(h, messages, down);
      AnswerFound(before, number, op, reply, later, stop);
      assert messages[..|before|] == before && messages[|before| + 1..] == later;
    }
  }

  // ── A whole conversation ─────────────────────────────────────────────────

  /** One request: what both lines bring, and the messages in front of the answer. */
  datatype Exchange = Exchange(op: u16, body: seq<byte>, running: bool, up: seq<seq<byte>>, before: seq<Message>,
                               down: seq<seq<byte>>)

  /** Both ends of the connection, with the bytes that each has not taken apart yet, and the number of requests sent. */
  datatype World = World(state: Server.State, device: Assembly, deviceRx: seq<byte>, host: Assembly, hostRx: seq<byte>,
                         sent: nat)

  /** The number under which the host sends its request `k`, from 0 on. */
  function NumberOf(k: nat): u16 { 1 + k % 0xFFFF }

  /** No answer, or an answer to one of the last 65534 requests before request `k`. */
  ghost predicate PushOrLate(m: Message, k: nat) {
    || ReadHeader(m.payload).None? || ReadHeader(m.payload).value.kind != Response
    || exists j | 0 <= j < k && k - j < 0xFFFF :: m.number == 1 + j % 0xFFFF
  }

  lemma LateDoesNotEnd(m: Message, k: nat)
    requires PushOrLate(m, k)
    ensures !Ends(m, 1 + k % 0xFFFF)
  {
    hide ReadHeader;
    forall j | 0 <= j < k && k - j < 0xFFFF ensures j % 0xFFFF != k % 0xFFFF {
      SameRemainder(j, k, 0xFFFF);
    }
  }

  lemma LateDoNotEnd(messages: seq<Message>, k: nat)
    requires forall m | m in messages :: PushOrLate(m, k)
    ensures NoneEnds(messages, NumberOf(k))
  {
    hide PushOrLate, Ends;
    forall i | 0 <= i < |messages| ensures !Ends(messages[i], NumberOf(k)) {
      assert messages[i] in messages;
      LateDoesNotEnd(messages[i], k);
    }
  }

  /** The answer to request `j` ends the wait of request `k` exactly if these are a multiple of 65535 apart. */
  lemma AnswerEndsWaitIff(j: nat, k: nat, op: u16, body: seq<byte>)
    requires j <= k
    ensures Ends(AnswerMessage(1 + j % 0xFFFF, op, body), 1 + k % 0xFFFF) <==> (k - j) % 0xFFFF == 0
  {
    hide ReadHeader, WithHeader;
    HeaderRoundTrip(Response, op, body);
    SameRemainder(j, k, 0xFFFF);
  }

  /** Late answers to all earlier requests of a session, whatever they hold, are skipped: the own answer is taken. */
  lemma LateAnswersSkipped(late: seq<Message>, op: u16, body: seq<byte>, later: seq<Message>, stop: RecvError)
    requires |late| < 0xFFFF && forall j | 0 <= j < |late| :: late[j].number == 1 + j % 0xFFFF
    ensures var number := 1 + |late| % 0xFFFF;
      var messages := late + [AnswerMessage(number, op, body)] + later;
      Wait(messages, number) == |late| && OutcomeOf(messages, number, op, stop) == Answer(body)
  {
    hide Ends, ReadHeader, AnswerMessage, Wait, OutcomeOf;
    forall m | m in late ensures PushOrLate(m, |late|) {
      var j :| 0 <= j < |late| && late[j] == m;
      assert late[j].number == 1 + j % 0xFFFF;
    }
    LateDoNotEnd(late, |late|);
    AnswerFound(late, 1 + |late| % 0xFFFF, op, body, later, stop);
  }

  ghost predicate Ready(w: World) {
    Server.ValidState(w.state) && Idle(w.device) && w.deviceRx == [] && Idle(w.host) && w.hostRx == []
  }

  /** The device after the reads of an exchange, and what it sends back. */
  ghost function DeviceSide(codec: Codec, defaults: Params.EngineConfig, w: World, x: Exchange): (World, seq<Message>)
    requires Server.ValidState(w.state) && Params.Valid(defaults)
  {
    var d := ServeReads(w.device, w.deviceRx, x.up);
    var (next, replies) := RepliedAll(codec, w.state, defaults, x.running, d.requests);
    (w.(state := next, device := d.assembly, deviceRx := d.rest), replies)
  }

  /** The host after the reads of an exchange, and how its wait ended. */
  function HostSide(w: World, x: Exchange, stop: RecvError): (World, Outcome) {
    var p := ParsePieces(w.host, w.hostRx, x.down);
    (w.(host := p.assembly, hostRx := p.rest, sent := w.sent + 1),
     OutcomeOf(p.messages, NumberOf(w.sent), x.op, stop))
  }

  /**
   * The lines carry what was sent: to the device the request, to the host other messages and then
   * what the device replied. The others are pushes and late answers, and the sizes are within bounds.
   */
  ghost predicate Carried(codec: Codec, defaults: Params.EngineConfig, w: World, x: Exchange)
    requires Server.ValidState(w.state) && Params.Valid(defaults)
  {
    && ConfigOp(x.op) && 3 + |x.body| <= 1024
    && AllFit(x.before) && (forall m | m in x.before :: PushOrLate(m, w.sent))
    && Flatten(x.up) == MessageBytes(0, NumberOf(w.sent), WithHeader(Request, x.op, x.body))
    && Flatten(x.down) == SentBytes(x.before + DeviceSide(codec, defaults, w, x).1)
  }

  function TurnOf(codec: Codec, x: Exchange): ConfigRuns.Turn { ConfigRuns.Turn(codec.decode(x.op, x.body), x.running) }

  /** Every answer of the codec fits a message of the host. */
  ghost predicate AnswersFit(codec: Codec) {
    forall r :: 3 + |codec.encode(r)| <= 4096
  }

  lemma FitWithReply(before: seq<Message>, reply: Message)
    requires AllFit(before) && |reply.payload| <= 4096
    ensures AllFit(before + [reply])
  {
  }

  lemma OneExchange(codec: Codec, defaults: Params.EngineConfig, w: World, x: Exchange, stop: RecvError)
    requires Ready(w) && Params.Valid(defaults) && AnswersFit(codec) && Carried(codec, defaults, w, x)
    ensures var served := DeviceSide(codec, defaults, w, x).0;
      var (end, outcome) := HostSide(served, x, stop);
      var t := TurnOf(codec, x);
      && Ready(end) && end.state == Server.Next(w.state, defaults, t.req, t.running) && end.sent == w.sent + 1
      && outcome == Answer(codec.encode(Server.Answer(w.state, t.req, t.running)))
  {
    hide Server.Next, Server.Answer, Server.ValidState, Params.Valid, ServeReads, ParsePieces, OutcomeOf, WithHeader;
    hide MessageBytes, SentBytes, AllFit, NoneEnds, RepliedAll, PushOrLate, NumberOf;
    var t := TurnOf(codec, x);
    var answer := codec.encode(Server.Answer(w.state, t.req, t.running));
    var number := NumberOf(w.sent);
    var reply := AnswerMessage(number, x.op, answer);
    RequestReachesDevice(w.device, RequestMessage(number, x.op, x.body), x.up);
    RequestReplied(codec, w.state, defaults, x.running, number, x.op, x.body);
    FitWithReply(x.before, reply);
    MessagesReachHost(w.host, x.before + [reply], x.down);
    LateDoNotEnd(x.before, w.sent);
    AnswerFound(x.before, number, x.op, answer, [], stop);
    assert x.before + [reply] + [] == x.before + [reply];
    ConfigRuns.NextValid(w.state, defaults, t);
  }

  /** The world after a conversation and the outcome of each request. */
  ghost function Held(codec: Codec, defaults: Params.EngineConfig, w: World, xs: seq<Exchange>, stop: RecvError)
    : (World, seq<Outcome>)
    requires Server.ValidState(w.state) && Params.Valid(defaults)
    decreases |xs|
  {
    if xs == [] then (w, []) else
    var (next, now) := HostSide(DeviceSide(codec, defaults, w, xs[0]).0, xs[0], stop);
    var (end, later) := Held(codec, defaults, next, xs[1..], stop);
    (end, [now] + later)
  }

  /** Every exchange of a conversation is carried. */
  ghost predicate AllCarried(codec: Codec, defaults: Params.EngineConfig, w: World, xs: seq<Exchange>, stop: RecvError)
    requires Server.ValidState(w.state) && Params.Valid(defaults)
    decreases |xs|
  {
    xs != [] ==>
      && Carried(codec, defaults, w, xs[0])
      && AllCarried(codec, defaults, HostSide(DeviceSide(codec, defaults, w, xs[0]).0, xs[0], stop).0, xs[1..], stop)
  }

  /** What the server alone, without lines and framing, answers to a list of decoded requests. */
  ghost function ServerAnswers(codec: Codec, s: Server.State, defaults: Params.EngineConfig, turns: seq<ConfigRuns.Turn>)
    : seq<Outcome>
    requires Server.ValidState(s) && Params.Valid(defaults)
    decreases |turns|
  {
    if turns == [] then [] else
    var t := turns[0];
    ConfigRuns.NextValid(s, defaults, t);
    [Answer(codec.encode(Server.Answer(s, t.req, t.running)))] +
    ServerAnswers(codec, Server.Next(s, defaults, t.req, t.running), defaults, turns[1..])
  }

  function TurnsOf(codec: Codec, xs: seq<Exchange>): (turns: seq<ConfigRuns.Turn>)
    ensures |turns| == |xs| && forall i | 0 <= i < |xs| :: turns[i] == TurnOf(codec, xs[i])
  {
    seq(|xs|, i requires 0 <= i < |xs| => TurnOf(codec, xs[i]))
  }

  /**
   * Over a whole conversation the host gets exactly the answers that the server alone would give to the
   * decoded requests, one after the other, and the configuration ends as that run leaves it.
   */
  lemma {:induction false} ConversationFollowsServer(codec: Codec, defaults: Params.EngineConfig, w: World,
                                                     xs: seq<Exchange>, stop: RecvError)
    requires Ready(w) && Params.Valid(defaults) && AnswersFit(codec) && AllCarried(codec, defaults, w, xs, stop)
    ensures var (end, outcomes) := Held(codec, defaults, w, xs, stop);
      && Ready(end) && outcomes == ServerAnswers(codec, w.state, defaults, TurnsOf(codec, xs))
      && end.state == ConfigRuns.Run(w.state, defaults, TurnsOf(codec, xs))
    decreases |xs|
  {
    hide Server.Next, Server.Answer, Server.ValidState, Params.Valid, DeviceSide, HostSide, AnswersFit, Carried, TurnOf;
    if xs == [] {
      assert TurnsOf(codec, xs) == [];
    } else {
      OneExchange(codec, defaults, w, xs[0], stop);
      var next := HostSide(DeviceSide(codec, defaults, w, xs[0]).0, xs[0], stop).0;
      ConversationFollowsServer(codec, defaults, next, xs[1..], stop);
      assert TurnsOf(codec, xs)[0] == TurnOf(codec, xs[0]);
      assert TurnsOf(codec, xs)[1..] == TurnsOf(codec, xs[1..]);
    }
  }
}
