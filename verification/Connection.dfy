/**
 One accepted TCP connection (src/connection.cpp:42-385): reading, answering, writing with
 partial sends, backpressure, half-close, lingering close and timeouts. Every method keeps the
 invariant of module Session, so its theorems hold in every state a run can reach.
 */
module Connections {
  import opened Text
  import opened Messages
  import opened Framing
  import opened RequestParsing
  import opened InputGrowth
  import opened RequestInfo
  import opened Responses
  import opened Exchange
  import opened Session

  datatype RecvResult = Data(bytes: string) | Fin | WouldBlock | RecvError

  datatype SendResult = Accepted(count: nat) | SendBlocked | SendError

  /** What recv may return: at most the bytes asked for, and no error from a healthy socket. */
  predicate MayReturn(r: RecvResult, want: nat, healthy: bool) {
    match r
    case Data(bytes) => 1 <= |bytes| <= want
    case RecvError => !healthy
    case _ => true
  }

  /** The bytes a recv handed over. */
  function Handed(r: RecvResult): string {
    if r.Data? then r.bytes else ""
  }

  /** The kernel's side of the connection. What each call returns is up to the kernel, within its contract. */
  class Socket {
    const healthy: bool         // recv and send never report an error
    const eager: bool           // send takes whatever it is offered
    var plan: seq<RecvResult>   // what recv returns next, as far as that is settled
    var received: string        // bytes handed to the connection
    var discarded: nat          // how many more it has read only to throw away
    var sent: string            // bytes accepted from it
    var writeShut: bool
    var closed: bool
    var recvCalls: nat          // how often the connection has called recv
    var asked: nat              // how many bytes the last of those calls asked for
    var lastRecv: RecvResult    // what it returned
    var sendCalls: nat          // how often it has called send
    var blocked: bool           // whether the last send accepted nothing
    var shutTried: bool         // whether it has called shutdown

    constructor (healthy: bool, eager: bool, plan: seq<RecvResult>)
      ensures received == "" && sent == "" && discarded == 0 && !writeShut && !closed && !blocked
      ensures this.healthy == healthy && this.eager == eager && this.plan == plan
    {
      this.healthy, this.eager, this.plan := healthy, eager, plan;
      received, sent, discarded, writeShut, closed := "", "", 0, false, false;
      recvCalls, asked, lastRecv, sendCalls, blocked, shutTried := 0, 0, WouldBlock, 0, false, false;
    }

    method Recv(want: nat) returns (r: RecvResult)
      requires !closed && want > 0
      modifies `received, `recvCalls, `asked, `lastRecv, `plan
      ensures r.Data? ==> 1 <= |r.bytes| <= want
      ensures received == old(received) + Handed(r)
      ensures recvCalls == old(recvCalls) + 1 && asked == want && lastRecv == r && (healthy ==> !r.RecvError?)
      ensures old(plan != [] && MayReturn(plan[0], want, healthy)) ==> r == old(plan[0]) && plan == old(plan[1..])
    {
      r := Take(want);
      received := received + Handed(r);
    }

    /** recv while draining: the bytes are thrown away. */
    method Discard(want: nat) returns (r: RecvResult)
      requires !closed && want > 0
      modifies `discarded, `recvCalls, `asked, `lastRecv, `plan
      ensures r.Data? ==> 1 <= |r.bytes| <= want
      ensures discarded == old(discarded) + |Handed(r)|
      ensures recvCalls == old(recvCalls) + 1 && asked == want && lastRecv == r && (healthy ==> !r.RecvError?)
    {
      r := Take(want);
      discarded := discarded + |Handed(r)|;
    }

    /** The system call itself. */
    method Take(want: nat) returns (r: RecvResult)
      requires !closed && want > 0
      modifies `recvCalls, `asked, `lastRecv, `plan
      ensures r.Data? ==> 1 <= |r.bytes| <= want
      ensures recvCalls == old(recvCalls) + 1 && asked == want && lastRecv == r && (healthy ==> !r.RecvError?)
      ensures old(plan != [] && MayReturn(plan[0], want, healthy)) ==> r == old(plan[0]) && plan == old(plan[1..])
    {
      if plan != [] && MayReturn(plan[0], want, healthy) {
        r, plan := plan[0], plan[1..];
      } else {
        var bytes: string := *;
        var fin: bool := *;
        var failed: bool := *;
        r := if 1 <= |bytes| <= want then Data(bytes) else if fin then Fin
             else if failed && !healthy then RecvError else WouldBlock;
      }
      recvCalls, asked, lastRecv := recvCalls + 1, want, r;
    }

    /** Only an open write side may be written to. */
    method Send(bytes: string) returns (r: SendResult)
      requires !closed && !writeShut && bytes != ""
      modifies `sent, `blocked, `sendCalls
      ensures r.Accepted? ==> 1 <= r.count <= |bytes| && sent == old(sent) + bytes[..r.count]
      ensures !r.Accepted? ==> sent == old(sent)
      ensures blocked == !r.Accepted? && (healthy ==> !r.SendError?) && sendCalls == old(sendCalls) + 1
      ensures eager ==> r == Accepted(|bytes|)
    {
      var n: int := *;
      n := if eager then |bytes| else n;
      var failed: bool := *;
      blocked, sendCalls := !(1 <= n <= |bytes|), sendCalls + 1;
      if 1 <= n <= |bytes| {
        sent := sent + bytes[..n];
        return Accepted(n);
      }
      r := if failed && !healthy then SendError else SendBlocked;
    }

    method ShutdownWrite() returns (ok: bool)
      requires !closed
      modifies `writeShut, `shutTried
      ensures shutTried && (ok ==> writeShut)
      ensures !ok ==> writeShut == old(writeShut)
    {
      ok := *;
      shutTried := true;
      if ok {
        writeShut := true;
      }
    }

    method Close()
      modifies `closed
      ensures closed
    {
      closed := true;
    }
  }

  /** What poll reported. */
  datatype Ready = Ready(invalid: bool, error: bool, readable: bool, hangup: bool, writable: bool)

  class Connection {
    const config: Config
    const service: Service
    const id: nat
    const socket: Socket
    const parser: RequestParser

    var output: string        // responses as bytes
    var outputSent: nat       // how many of those the kernel has taken
    var phase: Phase
    var peerFinished: bool    // nothing more will be received
    var lastActivity: int
    var lingerDeadline: int
    var lingeredBytes: nat
    var requests: nat         // how many responses there have been

    ghost var responses: seq<Response>
    ghost var timedOut: bool
    ghost var timers: nat
    ghost var cause: Cause
    ghost var outputMoved: nat  // bytes moved when the sent prefix was dropped

    ghost function AsConn(): Conn
      reads this, parser, socket
    {
      Conn(phase, peerFinished, output, outputSent, parser.AsView(), socket.sent, socket.writeShut,
           responses, timedOut, timers, cause, outputMoved)
    }

    ghost predicate Valid()
      reads this, parser, socket
    {
      Sane() && socket.received == parser.fed
    }

    /** What holds also between a recv and what is done with its bytes. */
    ghost predicate Sane()
      reads this, parser, socket
    {
      Whole(
        && parser.limits == config.limits
        && requests == |responses| && (socket.eager ==> !socket.blocked)
        && (phase == Closed <==> socket.closed)
        && (socket.writeShut ==> socket.shutTried) && (cause == FinalSent ==> peerFinished || socket.shutTried)
        && lingeredBytes == socket.discarded <= config.maxLingerBytes + 16384
        && (phase == Active || phase == Closing ==> socket.discarded == 0)
        && AsConn().Inv(config, service, id))
    }

    /** A draining connection has not thrown away more than it may. */
    ghost predicate Lenient()
      reads this, socket
    {
      phase == Draining ==> socket.discarded <= config.maxLingerBytes
    }

    function PendingOutput(): int
      reads this
    {
      |output| - outputSent
    }

    constructor (socket: Socket, config: Config, service: Service, id: nat, now: int)
      requires socket.received == "" && socket.sent == "" && socket.discarded == 0
      requires !socket.writeShut && !socket.closed && !socket.blocked
      ensures Valid() && AsConn().AtRest(config) && fresh(parser)
      ensures this.socket == socket && this.config == config && this.service == service && this.id == id
      ensures AsConn() == Fresh() && lastActivity == now
    {
      hide Conn.Inv, Conn.AtRest, View.Inv, View.Starved;
      this.socket, this.config, this.service, this.id := socket, config, service, id;
      var p := new RequestParser(config.limits);
      parser := p;
      output, outputSent := "", 0;
      phase, peerFinished := Active, false;
      lastActivity, lingerDeadline, lingeredBytes, requests := now, now, 0, 0;
      responses, timedOut, timers, cause, outputMoved := [], false, 0, NotClosed, 0;
      new;
      assert AsConn() == Fresh();
      FreshConn(config, service, id);
    }

    /** Opening the invariant where a method needs its parts. */
    lemma Parts()
      requires Sane()
      ensures outputSent <= |output| && parser.Valid()
      ensures 0 <= parser.Buffered() <= config.limits.MaxRequestBytes()
      ensures phase == Active ==> parser.state != Failed && !timedOut
      ensures (phase == Active || phase == Closing) ==> !socket.writeShut
      ensures phase != Closed ==> cause == NotClosed
      ensures phase == Draining ==> socket.shutTried
    {
      parser.BaseWithin();
    }

    /** Without a high-water mark nothing is ever read. */
    lemma Unread()
      requires Valid() && phase == Active && config.outputHighWater == 0
      ensures parser.Starved() && !parser.HasPartialRequest()
    {
      hide Conn.Inv;
      UnreadStarved(config, service, id, AsConn());
      if parser.HasPartialRequest() {
        PartialMeansReading(config, service, id, AsConn());
      }
    }

    // ---------------------------------------------------------------- closing

    method CloseNow(ghost why: Cause, ghost ticks: nat)
      requires Valid() && (phase != Closed ==> MayClose(config, AsConn(), why) && ticks <= 1)
      requires why == FinalSent ==> peerFinished || socket.shutTried
      modifies `phase, `cause, `timers, socket`closed
      ensures Valid() && Settled() && phase == Closed && (old(phase) != Closed ==> cause == why)
      ensures old(phase) != Closed ==>
                && AsConn() == old(AsConn()).(phase := Closed, cause := why, timers := timers)
                && timers == old(timers) + ticks
      ensures old(phase) == Closed ==> AsConn() == old(AsConn())
    {
      hide Conn.Inv, View.Inv, MayClose, RequestParser.AsView;
      if phase == Closed {
        return;
      }
      Session.Close(config, service, id, AsConn(), why, timers + ticks);
      socket.Close();
      phase := Closed;
      cause, timers := why, timers + ticks;
    }

    method BeginLingeringClose(now: int)
      requires Valid() && phase == Closing && PendingOutput() == 0
      modifies `phase, `cause, `timers, `lingerDeadline, socket`closed, socket`writeShut, socket`shutTried
      ensures Valid() && Lenient() && timers == old(timers) && socket.shutTried
      ensures if socket.writeShut then phase == Draining && lingerDeadline == now + config.lingerTimeout
              else phase == Closed && cause == FinalSent
      ensures phase == Draining ==> cause == old(cause)
    {
      hide Conn.Inv, View.Inv, RequestParser.AsView;
      ghost var c := AsConn();
      Parts();
      var ok := socket.ShutdownWrite();
      if !ok {
        assert AsConn() == c;
        CloseNow(FinalSent, 0);
        return;
      }
      Session.Drain(config, service, id, c);
      phase := Draining;
      lingerDeadline := now + config.lingerTimeout;
    }

    // ---------------------------------------------------------------- writing

    method QueueResponse(response: Response)
      requires requests == |responses|
      modifies `requests, `output, `phase, `responses
      ensures AsConn() == old(AsConn()).Queued(id, response) && requests == |responses|
    {
      hide Serialize;
      requests := requests + 1;
      var text := SerializeLoop(Numbered(id, requests, response));
      output := output + text;
      responses := responses + [response];
      if response.closeConnection {
        phase := Closing;
      }
    }

    /** One send of everything unsent; what the kernel accepts is what moves from the output to the wire. */
    method SendTail(now: int) returns (r: SendResult)
      requires Valid() && (phase == Active || phase == Closing) && PendingOutput() > 0
      modifies `outputSent, `lastActivity, `phase, `cause, `timers
      modifies socket`sent, socket`blocked, socket`sendCalls, socket`closed
      ensures Valid() && socket.sendCalls == old(socket.sendCalls) + 1
      ensures r.Accepted? ==> phase == old(phase) && r.count > 0
      ensures r.Accepted? ==> PendingOutput() == old(PendingOutput()) - r.count >= 0
      ensures r.SendBlocked? ==> phase == old(phase) && outputSent == old(outputSent) && socket.blocked
      ensures r.SendError? ==> phase == Closed && cause == Aborted && !socket.healthy
      ensures !r.SendError? ==> cause == old(cause)
      ensures timers == old(timers)
      ensures lastActivity == if r.Accepted? then now else old(lastActivity)
      ensures old(socket.sent) <= socket.sent && (r.Accepted? <==> socket.sent != old(socket.sent))
    {
      hide Connection.Sane, Connection.AsConn;
      r := CallSend(now);
      if r.SendError? {
        CloseNow(Aborted, 0);
      }
    }

    /** The system call: what it accepts has been sent. */
    method CallSend(now: int) returns (r: SendResult)
      requires Valid() && (phase == Active || phase == Closing) && PendingOutput() > 0
      modifies `outputSent, `lastActivity, socket`sent, socket`blocked, socket`sendCalls
      ensures Valid() && lastActivity == if r.Accepted? then now else old(lastActivity)
      ensures socket.sendCalls == old(socket.sendCalls) + 1 && socket.blocked == !r.Accepted?
      ensures PendingOutput() == old(PendingOutput()) - (if r.Accepted? then r.count else 0) >= 0
      ensures r.Accepted? ==> r.count > 0 && |socket.sent| > old(|socket.sent|)
      ensures old(socket.sent) <= socket.sent && (!r.Accepted? ==> socket.sent == old(socket.sent))
      ensures r.SendError? ==> !socket.healthy
    {
      hide Conn.Inv, View.Inv, RequestParser.AsView;
      Parts();
      ghost var c := AsConn();
      var tail := output[outputSent..];
      r := socket.Send(tail);
      if r.Accepted? {
        Session.Send(config, service, id, c, r.count);
        assert tail[..r.count] == output[outputSent..outputSent + r.count];
        outputSent := outputSent + r.count;
        lastActivity := now;
      } else {
        assert AsConn() == c;
      }
    }

    /** Writes until the kernel takes no more; short writes and the unsent tail lose and repeat nothing. */
    method FlushOutput(now: int) returns (sentAny: bool)
      requires Valid() && (phase == Active || phase == Closing)
      modifies `output, `outputSent, `outputMoved, `lastActivity, `phase, `cause, `timers
      modifies socket`sent, socket`blocked, socket`sendCalls, socket`closed
      ensures Valid() && (phase == old(phase) || phase == Closed)
      ensures old(socket.sendCalls) <= socket.sendCalls
      ensures old(PendingOutput()) > 0 ==> old(socket.sendCalls) < socket.sendCalls
      ensures phase != Closed ==> Tidy() && (PendingOutput() <= 0 || socket.blocked)
      ensures cause == old(cause) || (cause == Aborted && !socket.healthy)
      ensures phase != Closed && sentAny ==> PendingOutput() < old(PendingOutput())
      ensures phase != Closed && !sentAny ==> PendingOutput() == old(PendingOutput())
      ensures lastActivity == if socket.sent != old(socket.sent) then now else old(lastActivity)
      ensures timers == old(timers) && old(socket.sent) <= socket.sent
    {
      hide Conn.Inv, View.Inv, RequestParser.AsView, Connection.AsConn;
      sentAny := false;
      while PendingOutput() > 0
        invariant Valid() && phase == old(phase) && cause == old(cause)
        invariant PendingOutput() <= old(PendingOutput()) && sentAny == (PendingOutput() < old(PendingOutput()))
        invariant lastActivity == if socket.sent != old(socket.sent) then now else old(lastActivity)
        invariant timers == old(timers) && old(socket.sent) <= socket.sent && old(socket.sendCalls) <= socket.sendCalls
        invariant old(socket.sendCalls) < socket.sendCalls || PendingOutput() == old(PendingOutput())
        decreases PendingOutput()
      {
        var r := SendTail(now);
        if r.SendError? {
          return;
        }
        if r.SendBlocked? {
          break;
        }
        sentAny := true;
      }
      ReclaimOutput();
    }

    /** The sent part of the output buffer is smaller than the rest. */
    ghost predicate Tidy()
      reads this
    {
      outputSent == 0 || outputSent < PendingOutput()
    }

    /** Drops the sent prefix, but only when it is at least half the buffer. */
    method ReclaimOutput()
      requires Valid()
      modifies `output, `outputSent, `outputMoved
      ensures Valid() && PendingOutput() == old(PendingOutput()) && Tidy()
      ensures outputMoved <= old(outputMoved) + 2 * (old(outputSent) - outputSent)
    {
      hide Conn.Inv, View.Inv, RequestParser.AsView;
      Parts();
      ghost var cost := if outputSent == 0 then 0 else PendingOutput();
      if outputSent == |output| {
        Session.Reclaim(config, service, id, AsConn(), 0);
        assert output[outputSent..] == "";
        output, outputSent := "", 0;
      } else if outputSent >= |output| / 2 {
        Session.Reclaim(config, service, id, AsConn(), cost);
        output, outputSent, outputMoved := output[outputSent..], 0, outputMoved + cost;
      }
    }

    // ---------------------------------------------------------------- answering

    /** Answers every complete request already received, in order, unless too much output is waiting. */
    method RespondToBufferedRequests() returns (responded: bool)
      requires Valid() && phase == Active
      modifies `requests, `output, `phase, `responses, parser
      ensures Valid() && (phase == Active || phase == Closing)
      ensures phase == Active ==> PendingOutput() >= config.outputHighWater || parser.Starved()
      ensures responded ==> phase == Closing || parser.Buffered() < old(parser.Buffered())
      ensures parser.Buffered() <= old(parser.Buffered()) && old(PendingOutput()) <= PendingOutput()
      ensures !responded ==> phase == Active && PendingOutput() == old(PendingOutput())
      ensures parser.reclaimed == old(parser.reclaimed)
    {
      hide Conn.Inv, View.Inv, View.Starved;
      responded := false;
      while phase == Active && PendingOutput() < config.outputHighWater
        invariant Valid() && (phase == Active || phase == Closing)
        invariant responded ==> phase == Closing || parser.Buffered() < old(parser.Buffered())
        invariant parser.Buffered() <= old(parser.Buffered()) && old(PendingOutput()) <= PendingOutput()
        invariant !responded ==> phase == Active && PendingOutput() == old(PendingOutput())
        invariant parser.reclaimed == old(parser.reclaimed)
        decreases phase == Active, parser.Buffered()
      {
        var more := RespondOnce();
        if !more {
          break;
        }
        responded := true;
      }
    }

    /** Takes one request or error off the parser and queues the answer; false when there is nothing yet. */
    method RespondOnce() returns (responded: bool)
      requires Valid() && phase == Active && PendingOutput() < config.outputHighWater
      modifies `requests, `output, `phase, `responses, parser
      ensures Valid() && (phase == Active || phase == Closing)
      ensures 0 <= parser.Buffered() <= old(parser.Buffered()) && old(PendingOutput()) <= PendingOutput()
      ensures responded ==> phase == Closing || parser.Buffered() < old(parser.Buffered())
      ensures !responded ==> phase == Active && parser.Starved() && PendingOutput() == old(PendingOutput())
      ensures parser.reclaimed == old(parser.reclaimed)
    {
      hide Conn.Inv, View.Inv, View.Starved, Answer, Handled, ParseOne, Persists, Serialize, Numbered;
      Parts();
      ghost var c := AsConn();
      var parsed := parser.Next();
      parser.BaseWithin();
      match parsed
      case Incomplete =>
        Session.StillWaiting(config, service, id, c, parser.AsView());
        return false;
      case Error(e) =>
        Session.AnswerError(config, service, id, c, parser.AsView());
        var reply := ErrorReply(service, e);
        QueueResponse(reply);
        return true;
      case Complete(request) =>
        Session.AnswerRequest(config, service, id, c, parser.AsView(), request);
        var response := RunHandler(request);
        QueueResponse(response);
        return true;
    }

    /** The handler's response, or 500 if it threw; final unless the client keeps the connection alive. */
    method RunHandler(request: Request) returns (response: Response)
      ensures response == Answer(service, request)
    {
      hide Persists;
      response := Handled(service, request);
      var keepAlive := WantsKeepAlive(request);
      if !keepAlive {
        response := response.(closeConnection := true);
      }
      if request.verb == "HEAD" {
        response := response.(omitBody := true);
      }
    }

    // ---------------------------------------------------------------- progress

    /** How far the connection still is from closed; progress never raises it. */
    static function Rank(p: Phase): nat {
      match p case Active => 3 case Closing => 2 case Draining => 1 case Closed => 0
    }

    ghost predicate Settled()
      reads this, parser, socket
    {
      Whole(Valid() && AsConn().AtRest(config) && Lenient())
    }

    /** Answers and writes until neither makes progress, then takes the lifecycle steps that have become due. */
    method Advance(now: int)
      requires Valid() && Lenient() && (phase == Draining ==> Tidy())
      modifies `requests, `output, `phase, `responses, `outputSent, `outputMoved, `lastActivity
      modifies `cause, `timers, `lingerDeadline, parser
      modifies socket`sent, socket`blocked, socket`sendCalls, socket`closed, socket`writeShut, socket`shutTried
      ensures Settled() && Rank(phase) <= Rank(old(phase))
      ensures timers == old(timers) && old(socket.sent) <= socket.sent && parser.reclaimed == old(parser.reclaimed)
      ensures lastActivity == if socket.sent != old(socket.sent) then now else old(lastActivity)
      ensures old((phase == Active || phase == Closing) && PendingOutput() > 0) ==>
                old(socket.sendCalls) < socket.sendCalls
      ensures old(socket.sendCalls) <= socket.sendCalls
      ensures old(phase) == Draining ==> lingerDeadline == old(lingerDeadline)
      ensures phase == Draining && old(phase) != Draining ==> lingerDeadline == now + config.lingerTimeout
      ensures old(phase) == Draining || old(phase) == Closed ==> AsConn() == old(AsConn())
      ensures old(phase) != Active ==> responses == old(responses)
      ensures phase == Active || phase == Closing ==> PendingOutput() <= 0 || socket.blocked
      ensures socket.healthy && cause == Aborted ==> old(cause) == Aborted
      ensures cause == Idle ==> old(cause) == Idle
    {
      hide Conn.Inv, Conn.AtRest, View.Inv, View.Starved, RequestParser.AsView, Connection.AsConn;
      MakeProgress(now);
      Lifecycle(now);
    }

    /** Every pass lowers the phase, or consumes input, or sends output, in that order of importance. */
    method MakeProgress(now: int)
      requires Valid()
      modifies `requests, `output, `phase, `responses, `outputSent, `outputMoved, `lastActivity, `cause, `timers
      modifies parser, socket`sent, socket`blocked, socket`sendCalls, socket`closed
      ensures Valid() && Rank(phase) <= Rank(old(phase)) && (phase == Draining <==> old(phase) == Draining)
      ensures old((phase == Active || phase == Closing) && PendingOutput() > 0) ==>
                old(socket.sendCalls) < socket.sendCalls
      ensures old(socket.sendCalls) <= socket.sendCalls
      ensures if phase == Draining then Tidy() == old(Tidy()) else PassedInVain()
      ensures timers == old(timers) && old(socket.sent) <= socket.sent && parser.reclaimed == old(parser.reclaimed)
      ensures lastActivity == if socket.sent != old(socket.sent) then now else old(lastActivity)
      ensures old(phase) == Draining || old(phase) == Closed ==> AsConn() == old(AsConn())
      ensures old(phase) != Active ==> responses == old(responses)
      ensures cause == old(cause) || (cause == Aborted && !socket.healthy)
    {
      hide Conn.Inv, View.Inv, View.Starved, RequestParser.AsView, Connection.AsConn;
      while phase == Active || phase == Closing
        invariant Valid() && Rank(phase) <= Rank(old(phase)) && (phase == Draining <==> old(phase) == Draining)
        invariant timers == old(timers) && old(socket.sent) <= socket.sent && old(socket.sendCalls) <= socket.sendCalls
        invariant old(PendingOutput()) > 0 && socket.sendCalls == old(socket.sendCalls) ==>
                    phase == old(phase) && PendingOutput() == old(PendingOutput())
        invariant lastActivity == if socket.sent != old(socket.sent) then now else old(lastActivity)
        invariant phase == Draining ==> Tidy() == old(Tidy())
        invariant old(phase) == Draining || old(phase) == Closed ==> AsConn() == old(AsConn())
        invariant old(phase) != Active ==> responses == old(responses)
        invariant cause == old(cause) || (cause == Aborted && !socket.healthy)
        invariant parser.reclaimed == old(parser.reclaimed)
        decreases Rank(phase), parser.Buffered(), PendingOutput()
      {
        Parts();
        var progress := Pass(now);
        if !progress {
          break;
        }
      }
    }

    /** What holds after a pass that could do nothing more. */
    ghost predicate PassedInVain()
      reads this, parser, socket
    {
      && (phase == Active ==> PendingOutput() >= config.outputHighWater || parser.Starved())
      && (phase != Closed ==> Tidy() && (PendingOutput() <= 0 || socket.blocked))
    }

    /** One pass of Advance: answer, then write. */
    method Pass(now: int) returns (progress: bool)
      requires Valid() && (phase == Active || phase == Closing)
      modifies `requests, `output, `phase, `responses, parser
      modifies `outputSent, `outputMoved, `lastActivity, `cause, `timers
      modifies socket`sent, socket`blocked, socket`sendCalls, socket`closed
      ensures old(socket.sendCalls) <= socket.sendCalls
      ensures old(PendingOutput()) > 0 ==> old(socket.sendCalls) < socket.sendCalls
      ensures Valid() && Rank(phase) <= Rank(old(phase)) && phase != Draining
      ensures old(phase) != Active ==> responses == old(responses)
      ensures !progress ==> PassedInVain()
      ensures cause == old(cause) || (cause == Aborted && !socket.healthy)
      ensures timers == old(timers)
      ensures lastActivity == if socket.sent != old(socket.sent) then now else old(lastActivity)
      ensures parser.Buffered() <= old(parser.Buffered()) && old(socket.sent) <= socket.sent
      ensures parser.reclaimed == old(parser.reclaimed)
      ensures progress && phase != Closed ==>
                || Rank(phase) < Rank(old(phase))
                || parser.Buffered() < old(parser.Buffered())
                || PendingOutput() < old(PendingOutput())
    {
      hide Conn.Inv, View.Inv, View.Starved, RequestParser.AsView;
      progress := false;
      if phase == Active {
        progress := RespondToBufferedRequests();
      }
      var sent := FlushOutput(now);
      if sent {
        progress := true;
      }
    }

    /** The steps due when nothing more can be answered or written. */
    method Lifecycle(now: int)
      requires Valid() && Lenient() && (phase != Closed ==> Tidy())
      requires phase == Active ==> PendingOutput() >= config.outputHighWater || parser.Starved()
      modifies `phase, `cause, `timers, `lingerDeadline, socket`closed, socket`writeShut, socket`shutTried
      ensures Settled() && Rank(phase) <= Rank(old(phase)) && timers == old(timers)
      ensures old(phase) == Active ==>
                if peerFinished && PendingOutput() == 0 then phase == Closed && cause == ClientDone else phase == Active
      ensures old(phase) == Closing ==>
                if PendingOutput() > 0 then phase == Closing
                else if peerFinished || !socket.writeShut then phase == Closed && cause == FinalSent
                else phase == Draining
      ensures old(phase) == Closing && PendingOutput() == 0 && !peerFinished ==> socket.shutTried
      ensures old(phase) == Draining ==> lingerDeadline == old(lingerDeadline)
      ensures phase == Draining && old(phase) != Draining ==> lingerDeadline == now + config.lingerTimeout
      ensures old(phase) == Draining || old(phase) == Closed ==> AsConn() == old(AsConn())
      ensures cause == Aborted || cause == Idle ==> cause == old(cause)
    {
      hide Conn.Inv, View.Inv, View.Starved, RequestParser.AsView;
      Parts();
      if phase == Active && peerFinished && PendingOutput() == 0 {
        if config.outputHighWater == 0 {
          Unread();
        }
        CloseNow(ClientDone, 0);
        return;
      }
      if phase == Closing && PendingOutput() == 0 {
        if peerFinished {
          CloseNow(FinalSent, 0);
        } else {
          BeginLingeringClose(now);
        }
      }
    }

    // ---------------------------------------------------------------- events

    predicate WantsToRead()
      reads this, parser
    {
      WantsInput(config, phase, peerFinished, PendingOutput(), parser.Buffered())
    }

    /** Which readiness events to poll for: readable, writable. */
    function PollEvents(): (bool, bool)
      reads this, parser
    {
      Polls(config, phase, peerFinished, PendingOutput(), parser.Buffered())
    }

    /** How many bytes the next recv asks for: what one chunk and the room for one maximal request allow. */
    function Room(): int
      reads this, parser
    {
      Least(16384, config.limits.maxHeaderBytes + config.limits.maxBodyBytes - parser.Buffered())
    }

    method ReadFromSocket(now: int)
      requires Valid() && WantsToRead() && parser.Starved()
      modifies `lastActivity, `peerFinished, `phase, `cause, `timers, parser
      modifies socket`received, socket`recvCalls, socket`asked, socket`lastRecv, socket`plan, socket`closed
      ensures Valid() && timers == old(timers) && socket.recvCalls == old(socket.recvCalls) + 1 && JustRead()
      ensures match socket.lastRecv
              case Data(_) => phase == Active && peerFinished == old(peerFinished)
              case Fin => phase == Active && peerFinished
              case WouldBlock => phase == Active && AsConn() == old(AsConn())
              case RecvError => phase == Closed
      ensures phase == Active ==> lastActivity == if Stirred() then now else old(lastActivity)
      ensures cause == old(cause) || (cause == Aborted && !socket.healthy)
    {
      hide Connection.Sane, Connection.AsConn, RequestParser.Starved, MayReturn;
      Parts();
      WantsActive();
      var room := config.limits.MaxRequestBytes() - parser.Buffered();
      var want := if RECV_CHUNK < room then RECV_CHUNK else room;
      assert want == Room() > 0;
      hide Connection.Valid, Connection.Room, Connection.WantsToRead, RequestParser.Buffered, RequestParser.Due, Handed;
      var r := CallRecv(want);
      Digest(r, now);
    }

    /** What is done with the result of a recv. */
    method Digest(r: RecvResult, now: int)
      requires phase == Active && parser.Starved() && config.outputHighWater >= 1 && (socket.healthy ==> !r.RecvError?)
      requires if r.Data? then Sane() && socket.received == parser.fed + r.bytes && |r.bytes| <= Room() else Valid()
      modifies `lastActivity, `peerFinished, `phase, `cause, `timers, parser, socket`closed
      ensures Valid() && timers == old(timers) && peerFinished == (old(peerFinished) || r == Fin)
      ensures match r
              case Data(_) => phase == Active && lastActivity == now
              case Fin => phase == Active && lastActivity == now
              case WouldBlock => phase == Active && AsConn() == old(AsConn()) && lastActivity == old(lastActivity)
              case RecvError => phase == Closed && cause == Aborted
      ensures !r.RecvError? ==> cause == old(cause)
      ensures parser.reclaimed == old(parser.reclaimed) + if r.Data? && old(parser.Due()) then old(parser.start) else 0
    {
      hide Connection.Sane, Connection.AsConn, RequestParser.Starved, RequestParser.Due, Connection.Room;
      match r
      case Data(bytes) => TakeBytes(bytes, now);
      case Fin => TakeFin(now);
      case WouldBlock =>
      case RecvError => CloseNow(Aborted, 0);
    }

    method CallRecv(want: nat) returns (r: RecvResult)
      requires Valid() && phase != Closed && want > 0
      modifies socket`received, socket`recvCalls, socket`asked, socket`lastRecv, socket`plan
      ensures AsConn() == old(AsConn()) && socket.received == old(socket.received) + Handed(r)
      ensures !r.Data? ==> Valid() && socket.received == old(socket.received)
      ensures r.Data? ==> Sane() && socket.received == parser.fed + r.bytes && 1 <= |r.bytes| <= want
      ensures r.Data? ==> |socket.received| > old(|socket.received|)
      ensures socket.asked == want && socket.lastRecv == r && socket.recvCalls == old(socket.recvCalls) + 1
      ensures socket.healthy ==> !r.RecvError?
      ensures old(socket.plan != [] && MayReturn(socket.plan[0], want, socket.healthy)) ==>
                r == old(socket.plan[0]) && socket.plan == old(socket.plan[1..])
    {
      hide Conn.Inv, View.Inv, RequestParser.AsView;
      ghost var c := AsConn();
      r := socket.Recv(want);
      assert AsConn() == c;
    }

    method TakeBytes(bytes: string, now: int)
      requires Sane() && phase == Active && parser.Starved() && config.outputHighWater >= 1
      requires socket.received == parser.fed + bytes && |bytes| <= Room()
      modifies `lastActivity, parser
      ensures Valid() && lastActivity == now
      ensures parser.reclaimed == old(parser.reclaimed) + if old(parser.Due()) then old(parser.start) else 0
    {
      hide Conn.Inv, View.Inv, View.Starved;
      Parts();
      ghost var c := AsConn();
      lastActivity := now;
      parser.Feed(bytes);
      Session.ReceiveRead(config, service, id, c, parser.AsView(), bytes);
    }

    method TakeFin(now: int)
      requires Valid() && phase == Active
      modifies `lastActivity, `peerFinished
      ensures Valid() && peerFinished && lastActivity == now
    {
      hide Conn.Inv, View.Inv, RequestParser.AsView;
      Session.Finish(config, service, id, AsConn());
      peerFinished := true;
      lastActivity := now;
    }

    /** A drain is over when the client is done too, or has sent more than may be thrown away. */
    ghost predicate GivenUp()
      reads this, socket
    {
      phase == Closed <==>
        socket.lastRecv == Fin || socket.lastRecv == RecvError || socket.discarded > config.maxLingerBytes
    }

    method DiscardLingeringInput()
      requires Settled() && phase == Draining
      modifies `lingeredBytes, `phase, `cause, `timers
      modifies socket`discarded, socket`closed, socket`recvCalls, socket`asked, socket`lastRecv, socket`plan
      ensures Settled() && (phase == Draining || (phase == Closed && cause == FinalSent))
      ensures timers == old(timers) && cause != Aborted && cause != Idle
      ensures socket.recvCalls == old(socket.recvCalls) + 1 && socket.asked == 16384
      ensures socket.discarded == old(socket.discarded) + |Handed(socket.lastRecv)| && GivenUp()
    {
      hide Conn.Inv, Conn.AtRest, View.Inv, RequestParser.AsView, Connection.Sane;
      Parts();
      var r := DiscardChunk();
      match r
      case Data(bytes) =>
        if lingeredBytes > config.maxLingerBytes {
          CloseNow(FinalSent, 0);
        }
      case WouldBlock =>
      case Fin => CloseNow(FinalSent, 0);
      case RecvError => CloseNow(FinalSent, 0);
    }

    /** Reads and throws away, keeping count. */
    method DiscardChunk() returns (r: RecvResult)
      requires Valid() && phase == Draining && Lenient()
      modifies `lingeredBytes, socket`discarded, socket`recvCalls, socket`asked, socket`lastRecv, socket`plan
      ensures Valid() && AsConn() == old(AsConn()) && lingeredBytes == socket.discarded
      ensures socket.lastRecv == r && socket.asked == 16384 && socket.recvCalls == old(socket.recvCalls) + 1
      ensures socket.discarded == old(socket.discarded) + |Handed(r)|
    {
      hide Conn.Inv, View.Inv, RequestParser.AsView;
      ghost var c := AsConn();
      r := socket.Discard(RECV_CHUNK);
      if r.Data? {
        lingeredBytes := lingeredBytes + |r.bytes|;
      }
      assert AsConn() == c;
    }

    /** One recv per readiness event, and only when the connection wants to read or is draining. */
    predicate Reads(ready: Ready)
      reads this, parser
    {
      && !ready.invalid && !ready.error && (ready.readable || ready.hangup)
      && (phase == Draining || WantsToRead())
    }

    /** Unsent output is offered to the kernel at every event that reports no error. */
    predicate Writes(ready: Ready)
      reads this
    {
      !ready.invalid && !ready.error && (phase == Active || phase == Closing) && PendingOutput() > 0
    }

    /** Bytes went over the connection in either direction, or the client finished. */
    twostate predicate Stirred()
      reads this, socket
    {
      || socket.sent != old(socket.sent) || socket.received != old(socket.received)
      || peerFinished != old(peerFinished)
    }

    method OnPollEvents(ready: Ready, now: int)
      requires Settled()
      modifies this, parser, socket
      ensures Settled() && Rank(phase) <= Rank(old(phase)) && timers == old(timers) && timedOut == old(timedOut)
      ensures old(socket.received) <= socket.received && old(socket.sent) <= socket.sent
      ensures old(phase) == Closed ==> AsConn() == old(AsConn())
      ensures old(phase) != Closed && (ready.invalid || ready.error) ==> phase == Closed
      ensures socket.recvCalls == old(socket.recvCalls) + (if old(Reads(ready)) then 1 else 0)
      ensures phase == Active || phase == Closing ==> PendingOutput() <= 0 || socket.blocked
      ensures phase == Draining ==>
                lingerDeadline == if old(phase) == Draining then old(lingerDeadline) else now + config.lingerTimeout
      ensures phase == Active || phase == Closing ==> lastActivity == if Stirred() then now else old(lastActivity)
      ensures old(phase) == Draining ==> !Stirred()
      ensures socket.discarded ==
              old(socket.discarded) + if old(phase == Draining && Reads(ready)) then |Handed(socket.lastRecv)| else 0
      ensures old(phase == Draining && Reads(ready)) ==> GivenUp() && socket.asked == 16384
      ensures old(phase == Draining && !Reads(ready)) && !ready.invalid && !ready.error ==> AsConn() == old(AsConn())
      ensures old(Writes(ready)) ==>
                old(socket.sendCalls) < socket.sendCalls || (old(Reads(ready)) && socket.lastRecv == RecvError)
      ensures socket.healthy && !ready.invalid && !ready.error && cause == Aborted ==> old(cause) == Aborted
      ensures cause == Idle <==> old(cause) == Idle
      ensures old(phase == Active && Reads(ready)) ==> JustRead()
    {
      hide Conn.Inv, Conn.AtRest, View.Inv, View.Starved, RequestParser.AsView, JustRead,
           MayReturn, Connection.Room, RequestParser.Due;
      if phase == Closed {
        return;
      }
      Parts();
      if ready.invalid || ready.error {
        CloseNow(Aborted, 0);
        return;
      }
      if phase == Draining {
        if ready.readable || ready.hangup {
          DiscardLingeringInput();
        }
        return;
      }
      ReadAndAdvance(ready.readable || ready.hangup, now);
    }

    /**
     What one recv does to the connection: it asks for what there is room for, its bytes are received, and it alone can
     bring the FIN. If it brings data, the consumed part of the buffer is reclaimed if that is due.
     */
    twostate predicate JustRead()
      reads this, parser, socket
    {
      Whole(
        && socket.asked == old(Room()) && (peerFinished && !old(peerFinished) ==> socket.lastRecv == Fin)
        && socket.received == old(socket.received) + Handed(socket.lastRecv)
        && parser.reclaimed == old(parser.reclaimed)
                             + (if socket.lastRecv.Data? && old(parser.Due()) then old(parser.start) else 0)
        && (old(socket.plan != [] && MayReturn(socket.plan[0], Room(), socket.healthy)) ==>
              socket.lastRecv == old(socket.plan[0]) && socket.plan == old(socket.plan[1..])))
    }

    lemma WantsActive()
      ensures WantsToRead() ==> phase == Active && !peerFinished && (Valid() ==> config.outputHighWater >= 1)
    {
    }

    /** Reads if there is something to read and the connection wants it, then answers and writes what it can. */
    method ReadAndAdvance(readable: bool, now: int)
      requires Settled() && (phase == Active || phase == Closing)
      modifies this, parser, socket
      ensures Settled() && Rank(phase) <= Rank(old(phase)) && timers == old(timers) && timedOut == old(timedOut)
      ensures old(socket.received) <= socket.received && old(socket.sent) <= socket.sent
      ensures socket.discarded == old(socket.discarded)
      ensures socket.recvCalls == old(socket.recvCalls) + (if readable && old(WantsToRead()) then 1 else 0)
      ensures phase == Active || phase == Closing ==> PendingOutput() <= 0 || socket.blocked
      ensures phase == Draining ==> lingerDeadline == now + config.lingerTimeout
      ensures phase == Active || phase == Closing ==> lastActivity == if Stirred() then now else old(lastActivity)
      ensures old(PendingOutput()) > 0 ==>
                || old(socket.sendCalls) < socket.sendCalls
                || (readable && old(WantsToRead()) && socket.lastRecv == RecvError)
      ensures socket.healthy && cause == Aborted ==> old(cause) == Aborted
      ensures cause == Idle ==> old(cause) == Idle
      ensures readable && old(WantsToRead()) ==> JustRead()
    {
      hide Connection.Valid, Connection.Settled, Connection.AsConn, Connection.WantsToRead, WantsInput, Handed,
           MayReturn, Connection.Room, RequestParser.Due, RequestParser.Starved, Connection.Tidy;
      SettledParts();
      ReadIfWanted(readable, now);
      Advance(now);
    }

    lemma SettledParts()
      requires Settled()
      ensures Valid() && (WantsToRead() ==> parser.Starved())
    {
      hide Conn.Inv, View.Starved;
    }

    method ReadIfWanted(readable: bool, now: int)
      requires Valid() && (phase == Active || phase == Closing) && (WantsToRead() ==> parser.Starved())
      modifies `lastActivity, `peerFinished, `phase, `cause, `timers, parser
      modifies socket`received, socket`recvCalls, socket`asked, socket`lastRecv, socket`plan, socket`closed
      ensures Valid() && timers == old(timers) && old(socket.received) <= socket.received
      ensures phase == old(phase) || (phase == Closed && readable && old(WantsToRead()) && socket.lastRecv == RecvError)
      ensures socket.recvCalls == old(socket.recvCalls) + (if readable && old(WantsToRead()) then 1 else 0)
      ensures phase != Closed ==> lastActivity == if Stirred() then now else old(lastActivity)
      ensures cause == old(cause) || (cause == Aborted && !socket.healthy)
      ensures readable && old(WantsToRead()) ==> JustRead()
    {
      hide Connection.Valid, Connection.AsConn, WantsInput;
      WantsActive();
      if readable && WantsToRead() {
        ReadFromSocket(now);
      }
    }

    // ---------------------------------------------------------------- timers

    /** When this connection next needs attention without I/O; never, once closed. */
    function Deadline(): Option<int>
      reads this
    {
      match phase
      case Active => Some(lastActivity + config.idleTimeout)
      case Closing => Some(lastActivity + config.idleTimeout)
      case Draining => Some(lingerDeadline)
      case Closed => None
    }

    /** Handling a deadline closes the connection or sets a later one, and at most two are ever handled. */
    method OnDeadline(now: int)
      requires Settled()
      modifies this, parser
      modifies socket`sent, socket`blocked, socket`sendCalls, socket`closed, socket`writeShut, socket`shutTried
      ensures Settled() && Rank(phase) <= Rank(old(phase)) && old(socket.sendCalls) <= socket.sendCalls
      ensures config.idleTimeout > 0 && config.lingerTimeout > 0 ==>
                phase == Closed || (Deadline().Some? && Deadline().value > now)
      ensures old(phase) != Closed ==> timers == old(timers) + 1 && Rank(phase) < Rank(old(phase))
      ensures phase == Closing ==> lastActivity == now
      ensures phase == Draining ==> lingerDeadline == now + config.lingerTimeout
      ensures old(phase) == Closed ==> AsConn() == old(AsConn())
      ensures timers <= 2
      ensures var late := old(phase == Active && PendingOutput() <= 0 && Unfinished(config.limits, parser.fed));
              if late then && timedOut && !old(timedOut) && responses == old(responses) + [TimeoutReply()]
                           && old(socket.sendCalls) < socket.sendCalls && (phase == Closing ==> socket.blocked)
              else phase == Closed && timedOut == old(timedOut)
      ensures cause == Idle && old(cause) != Idle <==>
              old(phase == Active && PendingOutput() <= 0 && !Unfinished(config.limits, parser.fed))
    {
      hide Conn.Inv, View.Inv, View.Starved, RequestParser.AsView;
      Parts();
      match phase {
        case Active =>
          if PendingOutput() > 0 {
            CloseNow(Aborted, 1);
          } else {
            PartialIsUnfinished();
            if parser.HasPartialRequest() {
              TimeOutRequest(now);
            } else {
              CloseNow(Idle, 1);
            }
          }
        case Closing => CloseNow(Aborted, 1);
        case Draining => CloseNow(FinalSent, 1);
        case Closed =>
      }
      TimersBounded();
    }

    /** Between events, with nothing to write, the parser holds part of a request exactly when one is unfinished. */
    lemma PartialIsUnfinished()
      requires Settled() && phase == Active && PendingOutput() == 0
      ensures parser.Starved() && (parser.HasPartialRequest() ==> config.outputHighWater >= 1)
      ensures parser.HasPartialRequest() <==> parser.Begun()
      ensures parser.Begun() <==> Unfinished(config.limits, parser.fed)
    {
      hide Conn.Inv, View.Inv, View.Starved, View.Begun, Unfinished;
      if config.outputHighWater == 0 {
        Unread();
      }
      InvOfParser();
      PartialIffBegun(config.limits, parser.AsView());
      StarvedIncomplete(config.limits, parser.AsView());
      BegunIffUnfinished(config.limits, parser.AsView());
    }

    lemma InvOfParser()
      requires Valid()
      ensures parser.AsView().Inv(config.limits)
    {
      hide View.Inv;
    }

    /** Tells the client why its unfinished request is given up, then closes as after any final response. */
    method TimeOutRequest(now: int)
      requires Settled() && phase == Active && PendingOutput() == 0 && config.outputHighWater >= 1 && parser.Begun()
      modifies this, parser
      modifies socket`sent, socket`blocked, socket`sendCalls, socket`closed, socket`writeShut, socket`shutTried
      ensures old(socket.sendCalls) < socket.sendCalls && (phase == Closing ==> socket.blocked)
      ensures Settled() && Rank(phase) < Rank(old(phase)) && timers == old(timers) + 1
      ensures timedOut && responses == old(responses) + [TimeoutReply()]
      ensures phase == Closing ==> lastActivity == now
      ensures phase == Draining ==> lingerDeadline == now + config.lingerTimeout
    {
      hide Conn.Inv, View.Inv, View.Starved, RequestParser.AsView, TimeoutReply;
      QueueTimeout(now);
      Advance(now);
    }

    method QueueTimeout(now: int)
      requires Settled() && phase == Active && PendingOutput() == 0 && config.outputHighWater >= 1 && parser.Begun()
      modifies `requests, `output, `phase, `responses, `timedOut, `timers, `lastActivity
      ensures Valid() && phase == Closing && PendingOutput() > 0 && lastActivity == now
      ensures timedOut && timers == old(timers) + 1 && responses == old(responses) + [TimeoutReply()]
    {
      hide Conn.Inv, View.Inv, View.Starved, RequestParser.AsView, Serialize, Numbered;
      Session.AnswerTimeout(config, service, id, AsConn());
      var reply := TimeoutReply();
      QueueResponse(reply);
      NeverEmpty(Numbered(id, requests, reply));
      timedOut, timers := true, timers + 1;
      lastActivity := now;
    }

    lemma NeverEmpty(r: Response)
      ensures Serialize(r) != ""
    {
      hide Reason, HeaderBlock;
    }

    lemma TimersBounded()
      requires Valid()
      ensures timers <= 2 && (cause == Idle ==> !timedOut)
    {
    }
  }
}
