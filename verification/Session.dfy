/**
 What the fields of a connection mean (include/calc/connection.hpp:41-50, 99-108): the
 invariant of the Active / Closing / Draining / Closed machine, one lemma for each way the
 code changes those fields, and what every reachable state says about the bytes sent.
 */
module Session {
  import opened Text
  import opened Messages
  import opened Framing
  import opened RequestParsing
  import opened InputGrowth
  import opened Responses
  import opened Exchange
  import Chunking

  datatype Phase = Active | Closing | Draining | Closed

  /** Why a connection was closed: the client was done, or idle; the final response was sent; or it was cut short. */
  datatype Cause = NotClosed | ClientDone | Idle | FinalSent | Aborted

  /** Times are in nanoseconds. */
  datatype Config = Config(
    limits: Limits,
    outputHighWater: nat,
    idleTimeout: int,
    lingerTimeout: int,
    maxLingerBytes: nat)
  {
    /** The settings under which the server can always make progress; the defaults are among them. */
    predicate Sound() {
      && limits.maxHeaderBytes >= 1 && limits.maxBodyBytes >= 1 && outputHighWater >= 1
      && idleTimeout > 0 && lingerTimeout > 0
    }
  }

  const DEFAULT_CONFIG := Config(DEFAULT_LIMITS, 64 * 1024, 30_000_000_000, 2_000_000_000, 256 * 1024)

  /**
   The defaults, with times in nanoseconds. They meet every condition that a result of this project asks for, exact
   Content-Length included.
   */
  lemma DefaultsAreSound()
    ensures DEFAULT_CONFIG.Sound()
    ensures 10 * DEFAULT_CONFIG.limits.maxBodyBytes + 9 < HeadGrammar.SIZE_MODULUS
    ensures var limits := DEFAULT_CONFIG.limits;
            limits.maxHeaderBytes == 8192 && limits.maxHeaderCount == 100 && limits.maxBodyBytes == 65536
    ensures DEFAULT_CONFIG.outputHighWater == 65536 && DEFAULT_CONFIG.maxLingerBytes == 262144
    ensures DEFAULT_CONFIG.idleTimeout == 30 * 1_000_000_000 && DEFAULT_CONFIG.lingerTimeout == 2 * 1_000_000_000
  {
  }

  /** Whether to read: not after FIN, not while output piles up, not while a whole request may be buffered. */
  predicate WantsInput(config: Config, phase: Phase, peerFinished: bool, pending: int, buffered: int) {
    && phase == Active && !peerFinished
    && pending < config.outputHighWater && buffered < config.limits.MaxRequestBytes()
  }

  /** Which readiness events the server polls for: readable, writable. */
  function Polls(config: Config, phase: Phase, peerFinished: bool, pending: int, buffered: int): (bool, bool) {
    match phase
    case Active => (WantsInput(config, phase, peerFinished, pending, buffered), pending > 0)
    case Closing => (false, pending > 0)
    case Draining => (true, false)
    case Closed => (false, false)
  }

  /** The fields of a connection as one value; `sent` and below belong to the socket or to the proof. */
  datatype Conn = Conn(
    phase: Phase,
    peerFinished: bool,
    output: string,
    outputSent: nat,
    parser: View,
    sent: string,
    writeShut: bool,
    responses: seq<Response>,
    timedOut: bool,
    timers: nat,
    cause: Cause,
    outputMoved: nat)
  {
    function Pending(): int {
      |output| - outputSent
    }

    /** Closed in an orderly way. */
    predicate Completed() {
      cause == ClientDone || cause == Idle || cause == FinalSent
    }

    /** Exactly-once delivery: what was sent and what is still queued are all the responses, in order. */
    ghost predicate Delivers(id: nat) {
      && outputSent <= |output|
      && sent + output[outputSent..] == Wire(id, responses)
    }

    ghost function Failure(): Option<ParseError> {
      if parser.state == Failed then Some(parser.error) else None
    }

    /** The responses are those the taken requests call for; a 408 may follow when nothing complete is left. */
    ghost predicate Answers(h: Service, limits: Limits) {
      if timedOut then
        && responses == Replies(h, parser.taken, None) + [TimeoutReply()]
        && NoneCloses(Replies(h, parser.taken, None))
        && parser.base <= |parser.fed| && ParseOne(limits, parser.fed, parser.base) == Incomplete
      else
        responses == Replies(h, parser.taken, Failure())
    }

    ghost predicate InPhase(id: nat, limits: Limits) {
      && (timedOut ==> timers >= 1 && parser.Begun())
      && timers <= (match phase case Active => 0 case Closing => 1 case Draining => 1 case Closed => 2)
      && (phase == Active ==> !timedOut && NoneCloses(responses) && parser.state != Failed && !writeShut)
      && (phase == Closing ==> LastCloses(responses) && !writeShut)
      && (phase == Draining ==> writeShut)
      && (writeShut ==> LastCloses(responses) && sent == Wire(id, responses))
      && (phase == Closed <==> cause != NotClosed)
      && (cause == FinalSent ==> LastCloses(responses) && sent == Wire(id, responses))
      && (cause == ClientDone ==> peerFinished) && (cause == Idle ==> !parser.Begun())
      && (cause == ClientDone || cause == Idle ==>
            && !timedOut && parser.state != Failed && sent == Wire(id, responses)
            && parser.base <= |parser.fed| && ParseOne(limits, parser.fed, parser.base) == Incomplete)
    }

    /** Unparsed input never exceeds one maximal request, nor the buffer twice that. */
    ghost predicate Bounded(limits: Limits) {
      && 0 <= parser.Buffered() <= limits.MaxRequestBytes()
      && (parser.buffer == "" || |parser.buffer| < 2 * limits.MaxRequestBytes())
    }

    /** Every response queued so far takes at most `size` bytes. */
    ghost predicate Fits(id: nat, size: nat) {
      forall i | 0 <= i < |responses| :: |Serialize(Numbered(id, i + 1, responses[i]))| <= size
    }

    /** Unsent output stays below the high-water mark plus one response. */
    ghost predicate Backlog(config: Config, id: nat) {
      forall size: nat | Fits(id, size) :: Pending() <= 0 || Pending() < config.outputHighWater + size
    }

    /** Reclaiming the output buffer moves at most two bytes per byte sent. */
    ghost predicate Reclaims() {
      outputSent <= |sent| && outputMoved <= 2 * (|sent| - outputSent)
    }

    ghost predicate Inv(config: Config, h: Service, id: nat) {
      && parser.Inv(config.limits) && (parser.state == AwaitBody ==> parser.bodyLength >= 1)
      && Delivers(id) && Answers(h, config.limits) && InPhase(id, config.limits)
      && Bounded(config.limits) && Backlog(config, id) && Reclaims()
      && (config.outputHighWater == 0 ==> parser.fed == "") && Lean(config.limits, parser)
    }

    /** The sent part of the output buffer is smaller than the rest. */
    predicate Tidy() {
      outputSent == 0 || outputSent < Pending()
    }

    /** Between events: everything that could be answered or written has been. */
    ghost predicate AtRest(config: Config) {
      && (phase == Active ==>
            && (Pending() >= config.outputHighWater || parser.Starved(config.limits))
            && (peerFinished ==> Pending() > 0))
      && (phase == Closing ==> Pending() > 0)
      && (phase != Closed ==> Tidy())
    }

    function PollEvents(config: Config): (bool, bool) {
      Polls(config, phase, peerFinished, Pending(), parser.Buffered())
    }

    /** It polls for something that it will act on: reads when readable, writes when writable. */
    predicate AwaitsSomething(config: Config) {
      || (PollEvents(config).0 && ReadsWhenReadable(config))
      || (PollEvents(config).1 && WritesWhenWritable())
    }

    predicate ReadsWhenReadable(config: Config) {
      || phase == Draining
      || (&& phase == Active && !peerFinished && Pending() < config.outputHighWater
          && parser.Buffered() < config.limits.maxHeaderBytes + config.limits.maxBodyBytes)
    }

    predicate WritesWhenWritable() {
      (phase == Active || phase == Closing) && Pending() > 0
    }

    function Queued(id: nat, r: Response): Conn {
      this.(
        output := output + Serialize(Numbered(id, |responses| + 1, r)),
        responses := responses + [r],
        phase := if r.closeConnection then Closing else phase)
    }
  }

  // ---------------------------------------------------------------- steps

  /** Bytes arrived and were fed to the parser. */
  lemma Receive(config: Config, h: Service, id: nat, c: Conn, p: View, bytes: string)
    requires c.Inv(config, h, id) && c.phase == Active && config.outputHighWater >= 1
    requires p.Inv(config.limits) && p.fed == c.parser.fed + bytes && (p.state == AwaitBody ==> p.bodyLength >= 1)
    requires p.taken == c.parser.taken && p.base == c.parser.base && p.state == c.parser.state
    requires p.Buffered() == c.parser.Buffered() + |bytes| <= config.limits.MaxRequestBytes()
    requires (p.start == 0 || p.start < c.parser.Buffered()) && Lean(config.limits, p)
    ensures c.(parser := p).Inv(config, h, id)
  {
    hide View.Inv, Wire, ParseOne, Replies, Conn.Backlog, Lean;
    BacklogShrinks(config, id, c, c.(parser := p));
  }

  /** So were the bytes of one recv, within the room that was left. */
  lemma ReceiveRead(config: Config, h: Service, id: nat, c: Conn, p: View, bytes: string)
    requires c.Inv(config, h, id) && c.phase == Active && config.outputHighWater >= 1 && c.parser.Starved(config.limits)
    requires p.Inv(config.limits) && p.fed == c.parser.fed + bytes && (p.state == AwaitBody ==> p.bodyLength >= 1)
    requires p.taken == c.parser.taken && p.base == c.parser.base && p.state == c.parser.state
    requires Fed(config.limits, c.parser, p, bytes) && (p.start == 0 || p.start < c.parser.Buffered())
    ensures c.(parser := p).Inv(config, h, id)
  {
    hide View.Inv, View.Starved, Wire, ParseOne, Replies, Conn.Backlog, Conn.Answers, Conn.InPhase, Lean;
    LeanFeed(config.limits, c.parser, p, bytes);
    hide Conn.Inv;
    Receive(config, h, id, c, p, bytes);
  }

  /** The parser looked and found nothing complete. */
  lemma StillWaiting(config: Config, h: Service, id: nat, c: Conn, p: View)
    requires c.Inv(config, h, id) && c.phase == Active
    requires p.Inv(config.limits) && p.fed == c.parser.fed && (p.state == AwaitBody ==> p.bodyLength >= 1)
    requires p.taken == c.parser.taken && p.state != Failed
    requires 0 <= p.Buffered() <= c.parser.Buffered() && |p.buffer| <= |c.parser.buffer|
    requires p.reclaimed == c.parser.reclaimed
    ensures c.(parser := p).Inv(config, h, id)
  {
    hide View.Inv, Wire, ParseOne, Replies, Conn.Backlog, Lean;
    BacklogShrinks(config, id, c, c.(parser := p));
    LeanKept(config.limits, c.parser, p);
  }

  lemma QueueDelivers(id: nat, c: Conn, r: Response)
    requires c.Delivers(id)
    ensures c.Queued(id, r).Delivers(id)
  {
    hide Wire, Serialize, Numbered;
    WireAppend(id, c.responses, r);
    var text := Serialize(Numbered(id, |c.responses| + 1, r));
    assert (c.output + text)[c.outputSent..] == c.output[c.outputSent..] + text;
    assert c.sent + (c.output[c.outputSent..] + text) == c.sent + c.output[c.outputSent..] + text;
  }

  lemma QueueBacklog(config: Config, id: nat, c: Conn, r: Response)
    requires c.Pending() < config.outputHighWater
    ensures c.Queued(id, r).Backlog(config, id)
  {
    hide Serialize, Numbered;
    var d := c.Queued(id, r);
    forall size: nat | d.Fits(id, size) ensures d.Pending() < config.outputHighWater + size {
      assert d.responses[|c.responses|] == r;
    }
  }

  /** A complete request was taken and its answer queued. */
  lemma AnswerRequest(config: Config, h: Service, id: nat, c: Conn, p: View, r: Request)
    requires c.Inv(config, h, id) && c.phase == Active && c.Pending() < config.outputHighWater
    requires p.Inv(config.limits) && p.fed == c.parser.fed && p.state == AwaitHead && p.taken == c.parser.taken + [r]
    requires 0 <= p.Buffered() <= c.parser.Buffered() && |p.buffer| <= |c.parser.buffer|
    requires p.reclaimed == c.parser.reclaimed
    ensures c.(parser := p).Queued(id, Answer(h, r)).Inv(config, h, id)
  {
    hide View.Inv, Wire, Answer, Serialize, Numbered, ParseOne, Replies, Conn.Backlog, Lean;
    LeanKept(config.limits, c.parser, p);
    RepliesExtend(h, c.parser.taken, r);
    QueueDelivers(id, c.(parser := p), Answer(h, r));
    QueueBacklog(config, id, c.(parser := p), Answer(h, r));
  }

  /** The stream broke and the error was queued. */
  lemma AnswerError(config: Config, h: Service, id: nat, c: Conn, p: View)
    requires c.Inv(config, h, id) && c.phase == Active && c.Pending() < config.outputHighWater
    requires p.Inv(config.limits) && p.fed == c.parser.fed && p.state == Failed && p.taken == c.parser.taken
    requires 0 <= p.Buffered() <= c.parser.Buffered() && |p.buffer| <= |c.parser.buffer|
    requires p.reclaimed == c.parser.reclaimed
    ensures c.(parser := p).Queued(id, ErrorReply(h, p.error)).Inv(config, h, id)
  {
    hide View.Inv, Wire, Serialize, Numbered, ParseOne, Replies, Conn.Backlog, Lean;
    LeanKept(config.limits, c.parser, p);
    RepliesFail(h, c.parser.taken, p.error);
    QueueDelivers(id, c.(parser := p), ErrorReply(h, p.error));
    QueueBacklog(config, id, c.(parser := p), ErrorReply(h, p.error));
  }

  /** An unfinished request timed out and the 408 was queued. */
  lemma AnswerTimeout(config: Config, h: Service, id: nat, c: Conn)
    requires c.Inv(config, h, id) && c.phase == Active && c.parser.Starved(config.limits) && c.parser.Begun()
    requires c.Pending() < config.outputHighWater
    ensures c.Queued(id, TimeoutReply()).(timedOut := true, timers := c.timers + 1).Inv(config, h, id)
  {
    hide View.Inv, Lean, Wire, Serialize, Numbered, ParseOne, Replies, Conn.Backlog;
    QueueDelivers(id, c, TimeoutReply());
    QueueBacklog(config, id, c, TimeoutReply());
    var d := c.Queued(id, TimeoutReply());
    BacklogShrinks(config, id, d, d.(timedOut := true, timers := c.timers + 1));
  }

  /** Less unsent output for the same responses keeps the bound. */
  lemma BacklogShrinks(config: Config, id: nat, c: Conn, d: Conn)
    requires c.Backlog(config, id) && d.responses == c.responses && d.Pending() <= c.Pending()
    ensures d.Backlog(config, id)
  {
    hide Serialize, Numbered;
    forall size: nat | d.Fits(id, size) ensures d.Pending() <= 0 || d.Pending() < config.outputHighWater + size {
      assert c.Fits(id, size);
    }
  }

  lemma SendDelivers(id: nat, c: Conn, count: nat)
    requires c.Delivers(id) && count <= c.Pending()
    ensures c.outputSent <= |c.output|
    ensures c.(outputSent := c.outputSent + count,
               sent := c.sent + c.output[c.outputSent..c.outputSent + count]).Delivers(id)
  {
    hide Wire;
    var tail := c.output[c.outputSent..];
    assert tail[..count] == c.output[c.outputSent..c.outputSent + count];
    assert tail[count..] == c.output[c.outputSent + count..];
    assert c.sent + tail == (c.sent + tail[..count]) + tail[count..];
  }

  /** The kernel accepted `count` more bytes. */
  lemma Send(config: Config, h: Service, id: nat, c: Conn, count: nat)
    requires c.Inv(config, h, id) && (c.phase == Active || c.phase == Closing) && count <= c.Pending()
    ensures c.(outputSent := c.outputSent + count,
               sent := c.sent + c.output[c.outputSent..c.outputSent + count]).Inv(config, h, id)
  {
    hide View.Inv, Lean, Wire, ParseOne, Replies, Conn.Backlog, Conn.Delivers;
    SendDelivers(id, c, count);
    BacklogShrinks(config, id, c, c.(outputSent := c.outputSent + count,
                                     sent := c.sent + c.output[c.outputSent..c.outputSent + count]));
  }

  /** The sent prefix of the output was dropped, at the cost of moving `cost` bytes. */
  lemma Reclaim(config: Config, h: Service, id: nat, c: Conn, cost: nat)
    requires c.Inv(config, h, id) && cost <= 2 * c.outputSent
    ensures c.(output := c.output[c.outputSent..], outputSent := 0,
               outputMoved := c.outputMoved + cost).Inv(config, h, id)
  {
    hide View.Inv, Lean, Wire, ParseOne, Replies, Conn.Backlog;
    BacklogShrinks(config, id, c,
                   c.(output := c.output[c.outputSent..], outputSent := 0, outputMoved := c.outputMoved + cost));
    assert c.output[c.outputSent..][0..] == c.output[c.outputSent..];
  }

  lemma Flushed(id: nat, c: Conn)
    requires c.Delivers(id) && c.Pending() == 0
    ensures c.sent == Wire(id, c.responses)
  {
  }

  /** Moving on to a later phase keeps everything else. */
  lemma Drain(config: Config, h: Service, id: nat, c: Conn)
    requires c.Inv(config, h, id) && c.phase == Closing && c.Pending() == 0
    ensures c.(phase := Draining, writeShut := true).Inv(config, h, id)
  {
    hide View.Inv, Lean, Wire, ParseOne, Replies, Conn.Backlog;
    BacklogShrinks(config, id, c, c.(phase := Draining, writeShut := true));
    Flushed(id, c);
  }

  /** The close is allowed its cause. */
  ghost predicate MayClose(config: Config, c: Conn, cause: Cause) {
    match cause
    case NotClosed => false
    case Aborted => true
    case FinalSent => c.phase == Draining || (c.phase == Closing && c.Pending() == 0)
    case ClientDone => c.phase == Active && c.peerFinished && c.Pending() == 0 && c.parser.Starved(config.limits)
    case Idle =>
      c.phase == Active && !c.parser.Begun() && c.Pending() == 0 && c.parser.Starved(config.limits)
  }

  lemma Close(config: Config, h: Service, id: nat, c: Conn, cause: Cause, timers: nat)
    requires c.Inv(config, h, id) && c.phase != Closed && MayClose(config, c, cause)
    requires c.timers <= timers <= c.timers + 1
    ensures c.(phase := Closed, cause := cause, timers := timers).Inv(config, h, id)
  {
    hide View.Inv, Lean, Wire, ParseOne, Replies, Conn.Backlog;
    BacklogShrinks(config, id, c, c.(phase := Closed, cause := cause, timers := timers));
    if c.Pending() == 0 {
      Flushed(id, c);
    }
  }

  lemma Finish(config: Config, h: Service, id: nat, c: Conn)
    requires c.Inv(config, h, id) && c.phase == Active
    ensures c.(peerFinished := true).Inv(config, h, id)
  {
    hide View.Inv, Lean, Wire, ParseOne, Replies, Conn.Backlog;
    BacklogShrinks(config, id, c, c.(peerFinished := true));
  }

  // ---------------------------------------------------------------- what every state says

  /** The responses so far are the first of those the received bytes call for. */
  lemma ResponsesAreExpected(config: Config, h: Service, id: nat, c: Conn)
    requires config.limits.maxHeaderBytes >= 1 && c.Inv(config, h, id)
    ensures var want := ExpectedReplies(h, config.limits, c.parser.fed);
            if c.timedOut then c.responses == want + [TimeoutReply()]
            else
              && c.responses <= want
              && (LastCloses(c.responses) || c.cause == ClientDone || c.cause == Idle ==> c.responses == want)
  {
    hide View.Inv, Lean, Wire, ParseAll, Replies, ParseOne;
    var p := c.parser;
    Chunking.ReportedIsParse(config.limits, p);
    var rest := ParseAll(config.limits, p.fed, p.base);
    ParseEnds(config.limits, p.fed, p.base);
    if c.timedOut {
      assert p.taken + [] == p.taken;
    } else if p.state == Failed {
      assert p.taken + [] == p.taken;
    } else {
      RepliesGrow(h, p.taken, rest.requests, rest.failure);
      if c.cause == ClientDone || c.cause == Idle {
        assert p.taken + [] == p.taken;
      }
    }
  }

  /** What the server has put on the wire is a prefix of what the received bytes call for. The one exception is a
      408, which comes after all of that. */
  lemma SentIsExpected(config: Config, h: Service, id: nat, c: Conn)
    requires config.limits.maxHeaderBytes >= 1 && c.Inv(config, h, id)
    ensures var want := Expected(h, config.limits, id, c.parser.fed);
            var late := Serialize(Numbered(id, |c.responses|, TimeoutReply()));
            if c.timedOut then c.sent <= want + late else c.sent <= want
  {
    hide View.Inv, Lean, Wire, ExpectedReplies, Conn.Answers, Conn.InPhase, Serialize, Numbered, TimeoutReply,
         Conn.Backlog;
    ResponsesAreExpected(config, h, id, c);
    var want := ExpectedReplies(h, config.limits, c.parser.fed);
    if c.timedOut {
      WireAppend(id, want, TimeoutReply());
    } else {
      WireGrows(id, c.responses, want);
    }
  }

  /** A close after the client's FIN, after the final response, or of an idle connection has left nothing unsaid. */
  lemma CloseIsComplete(config: Config, h: Service, id: nat, c: Conn)
    requires config.limits.maxHeaderBytes >= 1 && c.Inv(config, h, id)
    requires c.Completed() || c.phase == Draining
    ensures var want := Expected(h, config.limits, id, c.parser.fed);
            var late := Serialize(Numbered(id, |c.responses|, TimeoutReply()));
            c.sent == if c.timedOut then want + late else want
  {
    hide View.Inv, Lean, Wire, ExpectedReplies, Conn.Answers, Serialize, Numbered, TimeoutReply, Conn.Backlog,
         ParseOne;
    ResponsesAreExpected(config, h, id, c);
    var want := ExpectedReplies(h, config.limits, c.parser.fed);
    if c.timedOut {
      WireAppend(id, want, TimeoutReply());
    }
  }

  /** A 408 is only ever sent for a request that was begun and not finished; a connection closed as idle had none. */
  lemma TimeoutIsDeserved(config: Config, h: Service, id: nat, c: Conn)
    requires c.Inv(config, h, id)
    ensures c.timedOut ==> Unfinished(config.limits, c.parser.fed)
    ensures c.cause == Idle ==> !Unfinished(config.limits, c.parser.fed)
  {
    hide View.Inv, Lean, Wire, Replies, ParseOne, Conn.Backlog, Conn.Delivers, View.Begun, Unfinished;
    if c.timedOut || c.cause == Idle {
      BegunIffUnfinished(config.limits, c.parser);
    }
  }

  /** So has a connection that is open, between events and with nothing left to write: it owes its client nothing. */
  lemma NothingOwed(config: Config, h: Service, id: nat, c: Conn)
    requires config.limits.maxHeaderBytes >= 1 && c.Inv(config, h, id) && c.AtRest(config)
    requires c.phase == Active && c.Pending() == 0
    ensures c.parser.Starved(config.limits) && !c.timedOut
    ensures c.responses == ExpectedReplies(h, config.limits, c.parser.fed)
    ensures c.sent == Expected(h, config.limits, id, c.parser.fed)
  {
    hide Conn.Inv, View.Inv, Lean, View.Starved, Expected, ExpectedReplies;
    if config.outputHighWater == 0 {
      UnreadStarved(config, h, id, c);
    }
    // Were the client to finish now, the connection would close as complete without sending another byte.
    var d := c.(peerFinished := true);
    Finish(config, h, id, c);
    Close(config, h, id, d, ClientDone, c.timers);
    CloseIsComplete(config, h, id, d.(phase := Closed, cause := ClientDone));
    ResponsesAreExpected(config, h, id, d.(phase := Closed, cause := ClientDone));
    ActiveNotLate(config, h, id, c);
  }

  lemma ActiveNotLate(config: Config, h: Service, id: nat, c: Conn)
    requires c.Inv(config, h, id) && c.phase == Active
    ensures !c.timedOut
  {
    hide View.Inv, Lean, Wire, Replies, ParseOne, Conn.Backlog, Conn.Answers;
  }

  /** Two connections that received the same bytes, however scheduled, never disagree on a byte they sent. */
  lemma ScheduleIndependence(config: Config, h: Service, id: nat, a: Conn, b: Conn)
    requires config.limits.maxHeaderBytes >= 1
    requires a.Inv(config, h, id) && b.Inv(config, h, id)
    requires a.parser.fed <= b.parser.fed && !a.timedOut && !b.timedOut
    ensures a.sent <= b.sent || b.sent <= a.sent
    ensures a.parser.fed == b.parser.fed && a.Completed() && b.Completed() ==> a.sent == b.sent
  {
    hide Conn.Inv, Expected;
    SentIsExpected(config, h, id, a);
    SentIsExpected(config, h, id, b);
    var more := b.parser.fed[|a.parser.fed|..];
    assert a.parser.fed + more == b.parser.fed;
    ExpectedGrows(h, config.limits, id, a.parser.fed, more);
    if a.Completed() && b.Completed() {
      CloseIsComplete(config, h, id, a);
      CloseIsComplete(config, h, id, b);
    }
  }

  /** Every response is sent exactly once and in order, and the write side is shut only after the last byte of all. */
  lemma ExactlyOnce(config: Config, h: Service, id: nat, c: Conn)
    requires c.Inv(config, h, id)
    ensures c.sent <= Wire(id, c.responses) && |Wire(id, c.responses)| - |c.sent| == c.Pending()
    ensures c.writeShut ==> c.sent == Wire(id, c.responses) && LastCloses(c.responses)
    ensures c.Pending() == 0 <==> c.sent == Wire(id, c.responses)
  {
    hide View.Inv, Lean, Wire, Replies, ParseOne, Conn.Backlog, Conn.Answers;
    assert c.output[c.outputSent..] == "" <==> c.Pending() == 0;
  }

  /** At most one response says close, and it is the last. */
  lemma CloseIsLast(config: Config, h: Service, id: nat, c: Conn)
    requires c.Inv(config, h, id)
    ensures OnlyLastMayClose(c.responses)
  {
    hide View.Inv, Lean, Wire, Replies, ParseOne, Conn.Backlog;
    OnlyTheLastReplyCloses(h, c.parser.taken, c.Failure());
  }

  /** It polls for readable exactly when it would read, and for writable exactly when it would write. */
  lemma PollsForWhatItDoes(config: Config, c: Conn)
    ensures c.PollEvents(config) == (c.ReadsWhenReadable(config), c.WritesWhenWritable())
  {
  }

  /** A connection that is still open always waits for something, and for the right thing in each phase. */
  lemma NoDeadlock(config: Config, h: Service, id: nat, c: Conn)
    requires config.limits.maxBodyBytes >= 1 && config.outputHighWater >= 1
    requires c.Inv(config, h, id) && c.AtRest(config) && c.phase != Closed
    ensures c.AwaitsSomething(config)
    ensures c.phase == Active && c.Pending() == 0 ==> c.PollEvents(config) == (true, false)
    ensures c.phase == Active && c.peerFinished ==> c.PollEvents(config) == (false, true)
    ensures c.phase == Closing ==> c.PollEvents(config) == (false, true)
    ensures c.phase == Draining ==> c.PollEvents(config) == (true, false)
  {
    hide View.Inv, Lean, Wire, Replies, ParseOne, Conn.Backlog;
  }

  /** A client that has sent part of a request is one the server reads from. */
  lemma PartialMeansReading(config: Config, h: Service, id: nat, c: Conn)
    requires c.Inv(config, h, id) && (c.parser.state == AwaitBody || c.parser.Buffered() > 0)
    ensures config.outputHighWater >= 1
  {
    hide Wire, Replies, Lean, ParseOne, SkipEmptyLines, Taken, Scanned, Conn.Backlog, Conn.Answers, Conn.InPhase;
  }

  /** A connection that is never read from has nothing to answer. */
  lemma UnreadStarved(config: Config, h: Service, id: nat, c: Conn)
    requires c.Inv(config, h, id) && c.phase == Active && config.outputHighWater == 0
    ensures c.parser.Starved(config.limits)
  {
    hide Wire, Replies, Taken, Scanned, Lean, Conn.Backlog, Conn.Answers;
    NothingYet(config.limits);
    hide ParseOne, SkipEmptyLines, HeadAt;
  }

  lemma NothingYet(limits: Limits)
    ensures HeadAt(limits, "", 0) == HeadPending && ParseOne(limits, "", 0) == Incomplete
    ensures SkipEmptyLines("", 0) == 0
  {
  }

  // ---------------------------------------------------------------- the settings this needs

  /** A new connection. */
  function Fresh(): Conn {
    Conn(Active, false, "", 0, FreshView(), "", false, [], false, 0, NotClosed, 0)
  }

  lemma FreshConn(config: Config, h: Service, id: nat)
    ensures Fresh().Inv(config, h, id) && Fresh().AtRest(config)
  {
    FreshInv(config.limits);
    FreshLean(config.limits);
    NothingYet(config.limits);
    hide View.Inv, Lean, ParseOne;
  }

  /** `n` bytes with no line end among them. */
  function Unended(n: nat): string {
    seq(n, i => 'a')
  }

  /** A connection that has read `Unended(n)` and searched it once. */
  function Unterminated(n: nat): Conn {
    var text := Unended(n);
    Fresh().(parser := FreshView().(buffer := text, fed := text, scanFrom := n, searches := 1, examined := n))
  }

  lemma UnendedSkips(n: nat, i: nat)
    requires i <= n
    ensures SkipEmptyLines(Unended(n), i) == i
  {
  }

  lemma UnendedIncomplete(limits: Limits, n: nat)
    requires n <= limits.maxHeaderBytes
    ensures HeadAt(limits, Unended(n), 0) == HeadPending && ParseOne(limits, Unended(n), 0) == Incomplete
  {
  }

  lemma UnterminatedParser(limits: Limits, n: nat)
    requires n <= limits.maxHeaderBytes
    ensures var p := Unterminated(n).parser; p.Inv(limits) && p.Starved(limits)
  {
    UnendedIncomplete(limits, n);
    UnendedSkips(n, 0);
    hide ParseOne, HeadAt, SkipEmptyLines;
    var p := Unterminated(n).parser;
    assert p.buffer == p.fed[0..];
    assert p.AtHead();
  }

  lemma UnterminatedInv(config: Config, h: Service, id: nat, n: nat)
    requires n <= config.limits.maxHeaderBytes && config.outputHighWater >= 1
    ensures Unterminated(n).Inv(config, h, id) && Unterminated(n).AtRest(config)
  {
    UnterminatedParser(config.limits, n);
    FreshConn(config, h, id);
    hide Conn.Inv, View.Inv, Lean, View.Starved;
    Receive(config, h, id, Fresh(), Unterminated(n).parser, Unended(n));
  }

  /** However it was cut into reads, an unended head within the limit gets no answer and stays in the buffer. */
  lemma UnendedQuiet(config: Config, h: Service, id: nat, c: Conn, n: nat)
    requires c.Inv(config, h, id) && !c.timedOut && c.parser.fed == Unended(n) && 1 <= n <= config.limits.maxHeaderBytes
    ensures c.responses == [] && c.Pending() == 0
    ensures c.phase == Active || (c.phase == Closed && (c.cause == Aborted || c.peerFinished))
    ensures c.phase == Active ==> c.parser.Buffered() == n
  {
    hide View.Inv, Lean, Wire, ParseOne, ParseAll, Replies, HeadAt, SkipEmptyLines, Conn.Backlog, Conn.Answers;
    UnendedIncomplete(config.limits, n);
    ParseEnds(config.limits, Unended(n), 0);
    ResponsesAreExpected(config, h, id, c);
    NothingToSay(h, id);
    if c.phase == Active {
      UnendedBuffered(config.limits, c.parser, n);
    } else if c.cause == Idle {
      UnendedBegun(config.limits, c.parser, n);
    }
  }

  lemma UnendedBuffered(limits: Limits, v: View, n: nat)
    requires v.Inv(limits) && v.state != Failed && v.fed == Unended(n) && 1 <= n <= limits.maxHeaderBytes
    ensures v.Buffered() == n
  {
    hide ParseAll, ParseOne, HeadAt, SkipEmptyLines, Scanned;
    UnendedIncomplete(limits, n);
    Chunking.ReportedIsParse(limits, v);
    ParseEnds(limits, v.fed, 0);
    assert v.taken == [];
    UnendedSkips(n, v.base);
    if v.state == AwaitHead {
      UnendedSkips(n, v.streamOffset);
    }
  }

  lemma UnendedBegun(limits: Limits, v: View, n: nat)
    requires v.Inv(limits) && v.state != Failed && v.fed == Unended(n) && 1 <= n <= limits.maxHeaderBytes
    ensures v.Begun()
  {
    hide ParseAll, ParseOne, HeadAt, Scanned;
    UnendedIncomplete(limits, n);
    Chunking.ReportedIsParse(limits, v);
    ParseEnds(limits, v.fed, 0);
    assert v.taken == [];
  }

  /** Exactly the settings under which an open connection never waits for nothing. */
  lemma NoDeadlockIff(config: Config, h: Service, id: nat)
    ensures (forall c: Conn | c.Inv(config, h, id) && c.AtRest(config) && c.phase != Closed ::
              c.AwaitsSomething(config))
        <==> config.limits.maxBodyBytes >= 1 && config.outputHighWater >= 1
  {
    hide Conn.Inv;
    if config.limits.maxBodyBytes >= 1 && config.outputHighWater >= 1 {
      forall c: Conn | c.Inv(config, h, id) && c.AtRest(config) && c.phase != Closed
        ensures c.AwaitsSomething(config)
      {
        NoDeadlock(config, h, id, c);
      }
    } else if config.outputHighWater == 0 {
      FreshConn(config, h, id);
      assert !Fresh().AwaitsSomething(config);
    } else {
      UnterminatedInv(config, h, id, config.limits.maxHeaderBytes);
      assert !Unterminated(config.limits.maxHeaderBytes).AwaitsSomething(config);
    }
  }
}
