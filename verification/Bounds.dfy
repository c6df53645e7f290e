/**
 Memory bounds for the calculator itself: every response it sends fits a fixed number of
 bytes, so the output a connection holds stays below the high-water mark plus that.
 */
module Bounds {
  import opened Text
  import opened Decimal
  import opened Messages
  import opened HeadGrammar
  import opened Framing
  import opened RequestParsing
  import opened Responses
  import opened QueryStrings
  import opened Calculator
  import opened Router
  import opened Exchange
  import opened Session
  import Wording
  import RouterWording

  /** The service the server really runs. */
  function CalculatorService(): Service {
    Service(r => Some(HandleRequest(r, RouterWording.RefusalText)), Wording.Message)
  }

  const MAX_BODY: nat := 128
  const MAX_RESPONSE: nat := 420

  lemma ThreeDigits(n: nat)
    requires n < 1000
    ensures |OfNat(n)| <= 3
  {
    assert Pow10(1) == 10 && Pow10(2) == 100 && Pow10(3) == 1000;
    OfNatLength(n, 3, 1000);
  }

  // ---------------------------------------------------------------- texts

  /** What can be quoted in a framing error without an excerpt is short. */
  predicate SmallError(e: ParseError) {
    match e
    case UnsupportedVersion(version) => |version| <= 8
    case BodyTooLarge(limit) => limit < COUNTER_LIMIT
    case HeadTooLarge(limit) => limit < COUNTER_LIMIT
    case TooManyHeaders(limit) => limit < COUNTER_LIMIT
    case _ => true
  }

  lemma MessageShort(e: ParseError)
    requires SmallError(e)
    ensures |Wording.Message(e)| < MAX_BODY
  {
    hide Wording.RequestLineText, Wording.TargetText, Wording.FieldLineText, Wording.FramingText,
         Wording.LengthText, Wording.LimitText;
    RequestLineTextShort(e);
    TargetTextShort(e);
    FieldLineTextShort(e);
    FramingTextShort(e);
    LengthTextShort(e);
    LimitTextShort(e);
  }

  lemma RequestLineTextShort(e: ParseError)
    ensures |Wording.RequestLineText(e)| < MAX_BODY
  {
    hide Excerpt;
    match e
    case MalformedRequestLine(text) => ExcerptShort(text);
    case InvalidMethod(text) => ExcerptShort(text);
    case TargetNotOriginForm(text) => ExcerptShort(text);
    case _ =>
  }

  lemma TargetTextShort(e: ParseError)
    requires SmallError(e)
    ensures |Wording.TargetText(e)| < MAX_BODY
  {
    hide Excerpt;
    if e.InvalidVersion? {
      ExcerptShort(e.version);
    }
  }

  lemma FieldLineTextShort(e: ParseError)
    ensures |Wording.FieldLineText(e)| < MAX_BODY
  {
    hide Excerpt;
    match e
    case MissingColon(text) => ExcerptShort(text);
    case InvalidHeaderName(text) => ExcerptShort(text);
    case ControlInValue(text) => ExcerptShort(text);
    case _ =>
  }

  lemma FramingTextShort(e: ParseError)
    ensures |Wording.FramingText(e)| < MAX_BODY
  {
  }

  lemma LengthTextShort(e: ParseError)
    ensures |Wording.LengthText(e)| < MAX_BODY
  {
    hide Excerpt;
    if e.InvalidLength? {
      ExcerptShort(e.text);
    }
  }

  lemma LimitTextShort(e: ParseError)
    requires SmallError(e)
    ensures |Wording.LimitText(e)| < MAX_BODY
  {
    hide OfNat;
    match e
    case BodyTooLarge(limit) => CounterDigits(limit);
    case HeadTooLarge(limit) => CounterDigits(limit);
    case TooManyHeaders(limit) => CounterDigits(limit);
    case _ =>
  }

  lemma ExcerptShort(text: string)
    ensures |Excerpt(text)| <= 43
  {
  }

  lemma {:induction false} HeaderErrorsSmall(lines: seq<string>)
    requires NoEmptyLine(lines) && ParseHeaders(lines).Err?
    ensures SmallError(ParseHeaders(lines).error)
    decreases |lines|
  {
    if lines != [] && ParseHeaders(lines[..|lines| - 1]).Err? {
      HeaderErrorsSmall(lines[..|lines| - 1]);
    }
  }

  predicate SmallLimits(limits: Limits) {
    && limits.maxHeaderBytes < COUNTER_LIMIT && limits.maxHeaderCount < COUNTER_LIMIT
    && limits.maxBodyBytes < COUNTER_LIMIT
  }

  lemma LineErrorsSmall(limits: Limits, lines: seq<string>)
    requires SmallLimits(limits) && NoEmptyLine(lines) && ParseLines(limits, lines).Err?
    ensures SmallError(ParseLines(limits, lines).error)
  {
    hide ParseHeaders, ValuesOf, Accumulate, Find;
    if lines != [] && ParseHeaders(lines[1..]).Err? {
      HeaderErrorsSmall(lines[1..]);
    }
  }

  lemma ErrorsSmall(limits: Limits, s: string, i: nat)
    requires SmallLimits(limits) && i <= |s| && ParseOne(limits, s, i).Error?
    ensures SmallError(ParseOne(limits, s, i).error)
  {
    hide ParseLines, SkipEmptyLines, SplitHead;
    var k := SkipEmptyLines(s, i);
    if SplitHead(s, k).Some? && ParseLines(limits, SplitHead(s, k).value.lines).Err? {
      LineErrorsSmall(limits, SplitHead(s, k).value.lines);
    }
  }

  /** Refusals quote at most an excerpt, or one of the two parameter names. */
  predicate SmallRefusal(refusal: Refusal) {
    match refusal
    case BadOperands(DuplicateParameter(name)) => |name| <= 1
    case BadOperands(BadOperand(name, _, _)) => |name| <= 1
    case _ => true
  }

  lemma {:induction false} FillErrorsSmall(slots: Slots, parameters: seq<Parameter>)
    requires Fill(slots, parameters).Err?
    ensures SmallRefusal(BadOperands(Fill(slots, parameters).error))
    decreases |parameters|
  {
    if parameters != [] {
      var p := parameters[0];
      if p.name == "a" && slots.a.None? {
        FillErrorsSmall(slots.(a := Some(p.value)), parameters[1..]);
      } else if p.name == "b" && slots.b.None? {
        FillErrorsSmall(slots.(b := Some(p.value)), parameters[1..]);
      }
    }
  }

  lemma RefusalsSmall(r: Request)
    requires Decide(r).Err?
    ensures SmallRefusal(Decide(r).error)
  {
    hide ParseQuery, Fill, ParseInt64, Calculate, IsValidHost, OperationFromPath, ValuesOf;
    match ParseQuery(RequestInfo.Query(r))
    case Err(_) =>
    case Ok(parameters) =>
      if Fill(Slots(None, None), parameters).Err? {
        FillErrorsSmall(Slots(None, None), parameters);
      }
  }

  lemma QueryTextShort(e: QueryError)
    ensures |RouterWording.QueryText(e)| < MAX_BODY
  {
  }

  lemma IntegerTextShort(why: IntError, text: string)
    ensures |RouterWording.IntegerText(why, text)| <= 65
  {
  }

  lemma OperandTextShort(e: OperandError)
    requires SmallRefusal(BadOperands(e))
    ensures |RouterWording.OperandText(e)| < MAX_BODY
  {
    hide Excerpt, RouterWording.QueryText, RouterWording.IntegerText;
    match e
    case MalformedQuery(q) => QueryTextShort(q);
    case UnknownParameter(name) => ExcerptShort(name);
    case BadOperand(_, why, text) => IntegerTextShort(why, text);
    case _ =>
  }

  lemma RefusalTextShort(refusal: Refusal)
    requires SmallRefusal(refusal)
    ensures |RouterWording.RefusalText(refusal)| < MAX_BODY
  {
    hide Excerpt, RouterWording.OperandText;
    match refusal
    case BadHost(text) => ExcerptShort(text);
    case UnknownPath(text) => ExcerptShort(text);
    case WrongMethod(text) => ExcerptShort(text);
    case BadOperands(e) => OperandTextShort(e);
    case _ =>
  }

  // ---------------------------------------------------------------- responses

  /** What every response of the calculator looks like, before the evidence headers. */
  predicate SmallResponse(r: Response) {
    r.status < 1000 && 1 <= |r.body| <= MAX_BODY && (r.headers == [] || r.headers == [Header("Allow", "GET")])
  }

  predicate AllSmall(rs: seq<Response>) {
    forall i | 0 <= i < |rs| :: SmallResponse(rs[i])
  }

  lemma ResultDigits(v: int)
    requires InRange(v)
    ensures |OfInt(v)| <= 21
  {
    CounterDigits(Magnitude(v));
  }

  lemma DecidedInRange(r: Request)
    ensures Decide(r).Ok? ==> InRange(Decide(r).value)
  {
    hide Decide;
    if Decide(r).Ok? {
      SuccessIff(r, Decide(r).value);
    }
  }

  lemma HandledSmall(r: Request)
    ensures SmallResponse(HandleRequest(r, RouterWording.RefusalText))
  {
    hide Decide, RouterWording.RefusalText, OfInt, SmallRefusal;
    DecidedInRange(r);
    match Decide(r)
    case Ok(v) => ResultDigits(v);
    case Err(refusal) =>
      RefusalsSmall(r);
      RefusalTextShort(refusal);
  }

  lemma {:induction false} RepliesSmall(requests: seq<Request>, failure: Option<ParseError>)
    requires failure.Some? ==> SmallError(failure.value)
    ensures AllSmall(Replies(CalculatorService(), requests, failure))
    decreases |requests|
  {
    hide SmallResponse, SmallError, Answer, ErrorReply, CalculatorService;
    if requests == [] {
      if failure.Some? {
        ErrorReplySmall(failure.value);
      }
    } else {
      AnswerSmall(requests[0]);
      RepliesSmall(requests[1..], failure);
      var first, rest := Answer(CalculatorService(), requests[0]), Replies(CalculatorService(), requests[1..], failure);
      assert forall i | 0 < i < |[first] + rest| :: ([first] + rest)[i] == rest[i - 1];
    }
  }

  lemma AnswerSmall(r: Request)
    ensures SmallResponse(Answer(CalculatorService(), r))
  {
    HandledSmall(r);
    hide HandleRequest;
  }

  lemma ErrorReplySmall(e: ParseError)
    requires SmallError(e)
    ensures SmallResponse(ErrorReply(CalculatorService(), e))
  {
    MessageShort(e);
    hide Wording.Message;
  }

  lemma TimeoutSmall()
    ensures SmallResponse(TimeoutReply())
  {
  }

  // ---------------------------------------------------------------- serialized size

  /** A block of short fields is short. */
  lemma {:induction false} BlockShort(headers: seq<Header>, each: nat)
    requires forall i | 0 <= i < |headers| :: |headers[i].name| + |headers[i].value| <= each
    ensures |HeaderBlock(headers)| <= |headers| * (each + 4)
    decreases |headers|
  {
    if headers != [] {
      BlockShort(headers[1..], each);
      assert |headers| * (each + 4) == (|headers| - 1) * (each + 4) + (each + 4);
    }
  }

  lemma ReasonShort(status: nat)
    ensures |Reason(status)| <= 31
  {
  }

  lemma HeadersShort(id: nat, n: nat, r: Response)
    requires SmallResponse(r) && id < COUNTER_LIMIT && n < COUNTER_LIMIT
    ensures var all := AllHeaders(Numbered(id, n, r));
            |all| <= 6 && forall i | 0 <= i < |all| :: |all[i].name| + |all[i].value| <= 36
  {
    CounterDigits(id);
    CounterDigits(n);
    ThreeDigits(|r.body|);
    hide OfNat;
  }

  lemma StatusLineShort(status: nat)
    requires status < 1000
    ensures |StatusLine(status)| <= 44
  {
    ReasonShort(status);
    ThreeDigits(status);
    hide OfNat, Reason;
  }

  lemma SerializedLength(r: Response)
    ensures |Serialize(r)| <= |StatusLine(r.status)| + |HeaderBlock(AllHeaders(r))| + |r.body| + 4
  {
  }

  lemma SerializedShort(id: nat, n: nat, r: Response)
    requires SmallResponse(r) && id < COUNTER_LIMIT && n < COUNTER_LIMIT
    ensures |Serialize(Numbered(id, n, r))| <= MAX_RESPONSE
  {
    hide StatusLine, HeaderBlock, AllHeaders, Serialize;
    var numbered := Numbered(id, n, r);
    var all := AllHeaders(numbered);
    HeadersShort(id, n, r);
    StatusLineShort(r.status);
    BlockShort(all, 36);
    assert |HeaderBlock(all)| <= 240;
    SerializedLength(numbered);
  }

  /** Every response of every run of the real server is a small one. */
  lemma ResponsesSmall(config: Config, id: nat, c: Conn)
    requires c.Inv(config, CalculatorService(), id) && SmallLimits(config.limits)
    ensures AllSmall(c.responses)
  {
    hide View.Inv, Wire, Replies, ParseOne, SmallResponse, SmallLimits, CalculatorService, Conn.Bounded, Conn.Backlog,
         Conn.InPhase, Conn.Delivers;
    FailureSmall(config, id, c);
    var failure := if c.timedOut then None else c.Failure();
    RepliesSmall(c.parser.taken, failure);
    TimeoutSmall();
    var rs := Replies(CalculatorService(), c.parser.taken, failure);
    assert c.responses == if c.timedOut then rs + [TimeoutReply()] else rs;
  }

  /** The output a connection holds, over every run of the real server. */
  lemma OutputBounded(config: Config, id: nat, c: Conn)
    requires c.Inv(config, CalculatorService(), id) && SmallLimits(config.limits)
    requires id < COUNTER_LIMIT && |c.responses| < COUNTER_LIMIT
    ensures c.Pending() < config.outputHighWater + MAX_RESPONSE
  {
    hide View.Inv, Wire, Replies, ParseOne, Serialize, Numbered, SmallResponse, SmallLimits, CalculatorService,
         Conn.Bounded, Conn.Answers, Conn.InPhase;
    ResponsesSmall(config, id, c);
    forall i | 0 <= i < |c.responses| ensures |Serialize(Numbered(id, i + 1, c.responses[i]))| <= MAX_RESPONSE {
      SerializedShort(id, i + 1, c.responses[i]);
    }
    assert c.Fits(id, MAX_RESPONSE);
  }

  /** Between events the output buffer itself, sent prefix included, is below twice that, and moves in linear work. */
  lemma OutputBufferBounded(config: Config, id: nat, c: Conn)
    requires c.Inv(config, CalculatorService(), id) && c.AtRest(config) && c.phase != Closed
    requires SmallLimits(config.limits)
    requires id < COUNTER_LIMIT && |c.responses| < COUNTER_LIMIT
    ensures |c.output| < 2 * (config.outputHighWater + MAX_RESPONSE)
    ensures c.outputMoved <= 2 * |c.sent|
  {
    hide View.Inv, View.Starved, Wire, Replies, ParseOne, CalculatorService, SmallLimits, Conn.Bounded, Conn.Backlog,
         Conn.Answers, Conn.InPhase;
    OutputBounded(config, id, c);
  }

  lemma FailureSmall(config: Config, id: nat, c: Conn)
    requires c.Inv(config, CalculatorService(), id) && SmallLimits(config.limits)
    ensures c.Failure().Some? ==> SmallError(c.Failure().value)
  {
    hide Wire, Replies, ParseOne, SmallError, Taken, Conn.Answers, Conn.InPhase, Conn.Delivers, Conn.Backlog,
         Conn.Bounded;
    var p := c.parser;
    if p.state == Failed {
      ErrorsSmall(config.limits, p.fed[..p.failedAt], p.base);
    }
  }

  /** The input a connection holds: unparsed bytes within one maximal request, the buffer below two. */
  lemma InputBounded(config: Config, service: Service, id: nat, c: Conn)
    requires c.Inv(config, service, id) && config.limits.MaxRequestBytes() >= 1
    ensures c.parser.Buffered() <= config.limits.maxHeaderBytes + config.limits.maxBodyBytes
    ensures |c.parser.buffer| < 2 * (config.limits.maxHeaderBytes + config.limits.maxBodyBytes)
  {
    hide View.Inv, Wire, Replies, ParseOne, Conn.Answers, Conn.InPhase, Conn.Delivers, Conn.Backlog;
  }
}
