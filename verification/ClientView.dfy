/**
 What a client sees, while a connection is open and after: which readers get back every reply that has
 arrived, in order and numbered from one; and a GET for an operation comes back as the result.
 */
module ClientView {
  import opened Text
  import opened Decimal
  import opened Messages
  import opened HeadGrammar
  import opened Framing
  import opened RequestInfo
  import opened RequestSpelling
  import opened RequestParsing
  import opened Responses
  import opened ResponseReading
  import opened QueryStrings
  import opened Calculator
  import opened Router
  import opened Exchange
  import opened Session
  import opened Bounds

  function NumberedFrom(id: nat, n: nat, rs: seq<Response>): seq<Response> {
    seq(|rs|, i requires 0 <= i < |rs| => Numbered(id, n + i, rs[i]))
  }

  lemma {:induction false} WireBytesAppend(rs: seq<Response>, r: Response)
    ensures WireBytes(rs + [r]) == WireBytes(rs) + Serialize(r)
    decreases |rs|
  {
    hide Serialize;
    if rs == [] {
      assert ([r])[1..] == [] && [] + [r] == [r];
      assert Serialize(r) + "" == "" + Serialize(r);
    } else {
      WireBytesAppend(rs[1..], r);
      assert (rs + [r])[1..] == rs[1..] + [r] && (rs + [r])[0] == rs[0];
      var a, b, c := Serialize(rs[0]), WireBytes(rs[1..]), Serialize(r);
      assert a + (b + c) == (a + b) + c;
    }
  }

  lemma {:induction false} WireIsStream(id: nat, rs: seq<Response>)
    ensures Wire(id, rs) == WireBytes(NumberedFrom(id, 1, rs))
    decreases |rs|
  {
    hide Serialize, Numbered;
    if rs != [] {
      var n := |rs| - 1;
      WireIsStream(id, rs[..n]);
      WireBytesAppend(NumberedFrom(id, 1, rs[..n]), Numbered(id, |rs|, rs[n]));
      assert NumberedFrom(id, 1, rs) == NumberedFrom(id, 1, rs[..n]) + [Numbered(id, |rs|, rs[n])];
    }
  }

  lemma IdReadable(id: nat)
    ensures Readable(Header("X-Connection-Id", OfNat(id)))
  {
    DigitsReadable(id);
    hide OfNat;
  }

  lemma CountReadable(n: nat)
    ensures Readable(Header("X-Request-Number", OfNat(n)))
  {
    DigitsReadable(n);
    hide OfNat;
  }

  lemma AllowReadable()
    ensures Readable(Header("Allow", "GET"))
  {
  }

  /** Every response the calculator sends can be read back. */
  lemma SmallReadable(id: nat, n: nat, r: Response)
    requires SmallResponse(r) && id < COUNTER_LIMIT && n < COUNTER_LIMIT
    ensures ReadableResponse(Numbered(id, n, r))
  {
    hide Readable, OfNat, ResponseHead, Serialize;
    IdReadable(id);
    CountReadable(n);
    AllowReadable();
    WholeLength(Numbered(id, n, r));
    SerializedShort(id, n, r.(omitBody := false));
  }

  lemma WholeLength(r: Response)
    ensures |ResponseHead(r)| + |r.body| == |Serialize(r.(omitBody := false))|
  {
  }

  // ---------------------------------------------------------------- a whole run

  /** Everything the received bytes call for, and the 408 if the run ended with one. */
  ghost function Said(limits: Limits, c: Conn): seq<Response> {
    var want := ExpectedReplies(CalculatorService(), limits, c.parser.fed);
    if c.timedOut then want + [TimeoutReply()] else want
  }

  ghost function Framed(limits: Limits, c: Conn): seq<Request> {
    ParseAll(limits, c.parser.fed, 0).requests
  }

  /** A connection of the real server, at any point, with settings and counters that fit in 64 bits. */
  ghost predicate Run(config: Config, id: nat, c: Conn) {
    Whole(
      && config.limits.maxHeaderBytes >= 1 && SmallLimits(config.limits)
      && id < COUNTER_LIMIT && |c.responses| < COUNTER_LIMIT
      && c.Inv(config, CalculatorService(), id))
  }

  /** All that is called for has been said and sent: closed in an orderly way, draining, or open with nothing to do. */
  ghost predicate CaughtUp(config: Config, c: Conn) {
    c.Completed() || c.phase == Draining || (c.phase == Active && c.AtRest(config) && c.Pending() == 0)
  }

  lemma AllSaid(config: Config, id: nat, c: Conn)
    requires Run(config, id, c)
    ensures c.responses <= Said(config.limits, c)
    ensures CaughtUp(config, c) ==> c.responses == Said(config.limits, c) && c.sent == Wire(id, c.responses)
  {
    hide View.Inv, View.Starved, Wire, ExpectedReplies, TimeoutReply, CalculatorService, SmallLimits, ParseOne,
         Conn.Answers, Conn.Backlog;
    ResponsesAreExpected(config, CalculatorService(), id, c);
    if c.phase == Active && c.AtRest(config) && c.Pending() == 0 {
      NothingOwed(config, CalculatorService(), id, c);
      ExactlyOnce(config, CalculatorService(), id, c);
    }
  }

  lemma CalculatorSendsBodies()
    ensures SendsBodies(CalculatorService())
  {
    hide Decide, RouterWording.RefusalText;
  }

  /** The 408 follows an answer to every framed request. */
  lemma TimeoutIsExtra(config: Config, id: nat, c: Conn)
    requires Run(config, id, c) && c.timedOut
    ensures |ExpectedReplies(CalculatorService(), config.limits, c.parser.fed)| == |Framed(config.limits, c)|
  {
    hide View.Inv, Wire, Replies, ParseOne, ParseAll, CalculatorService, SmallLimits, Conn.Backlog, Conn.InPhase;
    var p := c.parser;
    Chunking.ReportedIsParse(config.limits, p);
    ParseEnds(config.limits, p.fed, p.base);
    assert p.taken + [] == p.taken;
    RepliesAll(CalculatorService(), p.taken);
  }

  lemma TimeoutRight(config: Config, id: nat, c: Conn)
    requires Run(config, id, c) && c.timedOut
    ensures Unfinished(config.limits, c.parser.fed)
  {
    hide Conn.Inv, SmallLimits, CalculatorService, Unfinished;
    TimeoutIsDeserved(config, CalculatorService(), id, c);
  }

  /** In every run a body is withheld from exactly the replies to framed HEAD requests; errors and the 408 have one. */
  lemma SaidOmitsIffHead(config: Config, id: nat, c: Conn, i: nat)
    requires Run(config, id, c) && i < |Said(config.limits, c)|
    ensures i <= |Framed(config.limits, c)|
    ensures Said(config.limits, c)[i].omitBody
       <==> i < |Framed(config.limits, c)| && Framed(config.limits, c)[i].verb == "HEAD"
  {
    hide Run, ParseAll, Replies, CalculatorService, SendsBodies;
    CalculatorSendsBodies();
    var parsed := ParseAll(config.limits, c.parser.fed, 0);
    if c.timedOut {
      TimeoutIsExtra(config, id, c);
    }
    if i < |ExpectedReplies(CalculatorService(), config.limits, c.parser.fed)| {
      ReplyAt(CalculatorService(), parsed.requests, parsed.failure, i);
      OmitsIffHead(CalculatorService(), parsed.requests, parsed.failure, i);
    }
  }

  // ---------------------------------------------------------------- reading a whole run

  lemma SaidReadable(config: Config, id: nat, c: Conn)
    requires Run(config, id, c)
    ensures var rs := NumberedFrom(id, 1, c.responses);
            forall i | 0 <= i < |rs| ::
              ReadableResponse(rs[i]) && rs[i].omitBody == c.responses[i].omitBody && rs[i].body != ""
  {
    hide Conn.Inv, SmallLimits, CalculatorService, ReadableResponse;
    ResponsesSmall(config, id, c);
    forall i | 0 <= i < |c.responses| ensures ReadableResponse(Numbered(id, i + 1, c.responses[i])) {
      SmallReadable(id, i + 1, c.responses[i]);
    }
  }

  /** `s`, what a client has received of a connection, holds the first `n` replies whole, and perhaps more. */
  ghost predicate Arrived(id: nat, c: Conn, n: nat, s: string) {
    n <= |c.responses| && Wire(id, c.responses[..n]) <= s
  }

  /** What follows the first `n` replies in it. */
  ghost function Beyond(id: nat, c: Conn, n: nat, s: string): string
    requires Arrived(id, c, n, s)
  {
    s[|Wire(id, c.responses[..n])|..]
  }

  /** Of the bytes sent in any run, however far it got, enough is all it takes. */
  lemma ArrivedIff(config: Config, id: nat, c: Conn, n: nat, s: string)
    requires Run(config, id, c) && n <= |c.responses| && s <= c.sent
    ensures Arrived(id, c, n, s) <==> |Wire(id, c.responses[..n])| <= |s|
  {
    hide Conn.Inv, SmallLimits, CalculatorService, Wire;
    ExactlyOnce(config, CalculatorService(), id, c);
    WireGrows(id, c.responses[..n], c.responses);
  }

  /** Once a connection has caught up, every reply is among the bytes sent, and nothing else is. */
  lemma AllArrived(config: Config, id: nat, c: Conn)
    requires Run(config, id, c) && CaughtUp(config, c)
    ensures var n := |Said(config.limits, c)|;
            && c.responses == Said(config.limits, c) && c.responses[..n] == c.responses
            && Arrived(id, c, n, c.sent) && Beyond(id, c, n, c.sent) == ""
  {
    hide Run, CaughtUp, Wire, Said;
    AllSaid(config, id, c);
    assert c.responses[..|c.responses|] == c.responses;
  }

  /** Reading with `toHead` gives as many replies, numbered from one, and takes just their bytes. */
  ghost predicate ReadsReplies(id: nat, c: Conn, s: string, toHead: seq<bool>)
    requires Arrived(id, c, |toHead|, s)
  {
    var n := |toHead|;
    ReadFirst(s, toHead) == Some(Reading(AllAsRead(NumberedFrom(id, 1, c.responses[..n])), Beyond(id, c, n, s)))
  }

  /**
   In every run, at every point and however it was scheduled: a client reads the replies that have arrived if and only
   if it takes a body for exactly those that do not answer a framed HEAD request.
   */
  lemma ReadRunIff(config: Config, id: nat, c: Conn, s: string, toHead: seq<bool>)
    requires Run(config, id, c) && Arrived(id, c, |toHead|, s)
    ensures ReadsReplies(id, c, s, toHead) <==> toHead == AnswersHead(Framed(config.limits, c), |toHead|)
  {
    hide Run, ReadFirst, WireBytes, Wire, ReadableResponse, AsRead, Framed, AllAgree, AllAsRead;
    var n := |toHead|;
    var rs := NumberedFrom(id, 1, c.responses[..n]);
    FirstReadable(config, id, c, n);
    WireIsStream(id, c.responses[..n]);
    assert WireBytes(rs) + Beyond(id, c, n, s) == s;
    StreamInStepIff(rs, toHead, Beyond(id, c, n, s));
    AgreesWithHeads(config, id, c, toHead);
  }

  lemma FirstReadable(config: Config, id: nat, c: Conn, n: nat)
    requires Run(config, id, c) && n <= |c.responses|
    ensures var rs := NumberedFrom(id, 1, c.responses[..n]);
            && |rs| == n
            && forall i | 0 <= i < |rs| ::
                 ReadableResponse(rs[i]) && rs[i].omitBody == c.responses[i].omitBody && rs[i].body != ""
  {
    hide Run, ReadableResponse, Numbered;
    SaidReadable(config, id, c);
    var rs, all := NumberedFrom(id, 1, c.responses[..n]), NumberedFrom(id, 1, c.responses);
    assert forall i | 0 <= i < n :: rs[i] == all[i];
  }

  lemma AgreesWithHeads(config: Config, id: nat, c: Conn, toHead: seq<bool>)
    requires Run(config, id, c) && |toHead| <= |c.responses|
    ensures AllAgree(NumberedFrom(id, 1, c.responses[..|toHead|]), toHead) <==>
            toHead == AnswersHead(Framed(config.limits, c), |toHead|)
  {
    hide Run, Said, Framed, ReadableResponse, NumberedFrom;
    AllSaid(config, id, c);
    FirstReadable(config, id, c, |toHead|);
    var rs := NumberedFrom(id, 1, c.responses[..|toHead|]);
    var heads := AnswersHead(Framed(config.limits, c), |toHead|);
    forall i | 0 <= i < |toHead| ensures Agrees(rs[i], toHead[i]) <==> toHead[i] == heads[i] {
      SaidOmitsIffHead(config, id, c, i);
      assert c.responses[i] == Said(config.limits, c)[i];
    }
    if AllAgree(rs, toHead) {
      assert forall i | 0 <= i < |toHead| :: toHead[i] == heads[i];
    }
  }

  /** The verbs of the requests a client sent: those that were framed, and then any others. */
  ghost predicate Sends(limits: Limits, c: Conn, verbs: seq<string>) {
    forall i | 0 <= i < |verbs| && i < |Framed(limits, c)| :: verbs[i] == Framed(limits, c)[i].verb
  }

  function HeadVerbs(verbs: seq<string>, n: nat): seq<bool>
    requires n <= |verbs|
  {
    seq(n, i requires 0 <= i < n => verbs[i] == "HEAD")
  }

  /**
   A client that takes no body after its own HEAD requests, as section 6.3 of RFC 9112 tells it to, reads the replies
   that have arrived if and only if the last of them answers a framed request or was not to a HEAD. Bodies are sent with
   the refusal of a HEAD that could not be framed, and with the 408 for one that was not finished.
   */
  lemma VerbReaderIff(config: Config, id: nat, c: Conn, s: string, verbs: seq<string>, n: nat)
    requires Run(config, id, c) && Sends(config.limits, c, verbs) && n <= |verbs| && Arrived(id, c, n, s)
    ensures ReadsReplies(id, c, s, HeadVerbs(verbs, n)) <==>
            n <= |Framed(config.limits, c)| || verbs[n - 1] != "HEAD"
  {
    hide Run, ReadsReplies, Said, Framed, Wire;
    var mine, right := HeadVerbs(verbs, n), AnswersHead(Framed(config.limits, c), n);
    ReadRunIff(config, id, c, s, mine);
    AllSaid(config, id, c);
    if n > 0 {
      SaidOmitsIffHead(config, id, c, n - 1);
      assert mine[n - 1] == (verbs[n - 1] == "HEAD");
    }
    assert forall i | 0 <= i < n && i < |Framed(config.limits, c)| :: mine[i] == right[i];
  }

  /** None of the first `n` replies answers a HEAD. */
  ghost predicate NoHeadAnswered(limits: Limits, c: Conn, n: nat) {
    forall i | 0 <= i < n && i < |Framed(limits, c)| :: Framed(limits, c)[i].verb != "HEAD"
  }

  lemma TakesAllIff(limits: Limits, c: Conn, n: nat)
    ensures |TakesBodies(n)| == n
    ensures TakesBodies(n) == AnswersHead(Framed(limits, c), n) <==> NoHeadAnswered(limits, c, n)
  {
    hide Framed;
    var framed := Framed(limits, c);
    var mine, right := TakesBodies(n), AnswersHead(framed, n);
    assert forall i | 0 <= i < n :: right[i] == (i < |framed| && framed[i].verb == "HEAD");
    if mine == right {
      assert forall i | 0 <= i < n :: !right[i];
    }
  }

  /** The demo client, which always takes a body, reads what has arrived if and only if none of it answers a HEAD. */
  lemma DemoReaderIff(config: Config, id: nat, c: Conn, s: string, n: nat)
    requires Run(config, id, c) && Arrived(id, c, n, s)
    ensures |TakesBodies(n)| == n
    ensures ReadsReplies(id, c, s, TakesBodies(n)) <==> NoHeadAnswered(config.limits, c, n)
  {
    hide Run, ReadsReplies, Framed, NoHeadAnswered, TakesBodies, Wire;
    TakesAllIff(config.limits, c, n);
    ReadRunIff(config, id, c, s, TakesBodies(n));
  }

  /** The same of its loop, one reading after the other on a socket that delivers the bytes as it likes. */
  method DemoClientReads(reader: ResponseReader, config: Config, id: nat, ghost c: Conn, count: nat)
    returns (got: seq<HttpResponse>)
    requires Run(config, id, c) && Arrived(id, c, count, reader.Stream())
    modifies reader, reader.source
    ensures && got == AllAsRead(NumberedFrom(id, 1, c.responses[..count]))
            && reader.Stream() == Beyond(id, c, count, old(reader.Stream()))
       <==> NoHeadAnswered(config.limits, c, count)
  {
    hide Run, Framed, NoHeadAnswered, AllAsRead, NumberedFrom, AllAgree, WireBytes, Wire, ReadableResponse, TakesBodies;
    ghost var rs, after := NumberedFrom(id, 1, c.responses[..count]), Beyond(id, c, count, reader.Stream());
    FirstReadable(config, id, c, count);
    WireIsStream(id, c.responses[..count]);
    assert WireBytes(rs) + after == reader.Stream();
    TakesAllIff(config.limits, c, count);
    AgreesWithHeads(config, id, c, TakesBodies(count));
    got := ReadAll(reader, rs, after, count);
  }

  // ---------------------------------------------------------------- the fields of each reply

  lemma {:induction false} FirstValueAt(headers: seq<Header>, k: nat, name: string)
    requires k < |headers| && IEquals(headers[k].name, name)
    requires forall j | 0 <= j < k :: !IEquals(headers[j].name, name)
    ensures FirstValue(headers, name) == headers[k].value
    decreases |headers|
  {
    hide IEquals;
    if k > 0 {
      FirstValueAt(headers[1..], k - 1, name);
    }
  }

  lemma {:induction false} NoValue(headers: seq<Header>, name: string)
    requires forall j | 0 <= j < |headers| :: !IEquals(headers[j].name, name)
    ensures FirstValue(headers, name) == ""
    decreases |headers|
  {
    hide IEquals;
    if headers != [] {
      NoValue(headers[1..], name);
    }
  }

  lemma OwnName(name: string)
    ensures IEquals(name, name)
  {
  }

  /**
   The fields a client finds, in order and by name, in a reply that says `close` or not and is number `n` of connection
   `id`. Numbers are in decimal, without a needless zero.
   */
  ghost predicate HasFields(headers: seq<Header>, close: bool, id: nat, n: nat, size: nat, allow: bool) {
    var m := if allow then 1 else 0;
    && |headers| == 5 + m
    && headers[0].name == "Content-Length" && IsNumeral(headers[0].value, size)
    && headers[1] == Header("Content-Type", "text/plain")
    && headers[2] == Header("Connection", if close then "close" else "keep-alive")
    && (allow ==> headers[3] == Header("Allow", "GET"))
    && headers[3 + m].name == "X-Connection-Id" && IsNumeral(headers[3 + m].value, id)
    && headers[4 + m].name == "X-Request-Number" && IsNumeral(headers[4 + m].value, n)
    && FirstValue(headers, "Content-Length") == headers[0].value
    && FirstValue(headers, "Content-Type") == "text/plain"
    && FirstValue(headers, "Connection") == (if close then "close" else "keep-alive")
    && FirstValue(headers, "Allow") == (if allow then "GET" else "")
    && FirstValue(headers, "X-Connection-Id") == headers[3 + m].value
    && FirstValue(headers, "X-Request-Number") == headers[4 + m].value
  }

  lemma SmallFields(id: nat, n: nat, r: Response)
    requires SmallResponse(r)
    ensures HasFields(AllHeaders(Numbered(id, n, r)), r.closeConnection, id, n, |r.body|, r.headers != [])
  {
    hide OfNat, IsNumeral;
    var all := AllHeaders(Numbered(id, n, r));
    var m := |r.headers|;
    NumeralIff(OfNat(|r.body|), |r.body|);
    NumeralIff(OfNat(id), id);
    NumeralIff(OfNat(n), n);
    SmallNames(id, n, r);
    hide IEquals, FirstValue;
    FirstValueAt(all, 0, "Content-Length");
    FirstValueAt(all, 1, "Content-Type");
    FirstValueAt(all, 2, "Connection");
    FirstValueAt(all, 3 + m, "X-Connection-Id");
    FirstValueAt(all, 4 + m, "X-Request-Number");
    if m == 0 {
      NoValue(all, "Allow");
    } else {
      FirstValueAt(all, 3, "Allow");
    }
  }

  /** The names differ in length, so none is taken for another. */
  lemma SmallNames(id: nat, n: nat, r: Response)
    requires SmallResponse(r)
    ensures var all, m := AllHeaders(Numbered(id, n, r)), |r.headers|;
            && |all| == 5 + m && |all[0].name| == 14 && |all[1].name| == 12 && |all[2].name| == 10
            && (m == 1 ==> all[3] == Header("Allow", "GET")) && |all[3 + m].name| == 15 && |all[4 + m].name| == 16
            && all[0] == Header("Content-Length", OfNat(|r.body|)) && all[1] == Header("Content-Type", "text/plain")
            && all[2] == Header("Connection", if r.closeConnection then "close" else "keep-alive")
            && all[3 + m] == Header("X-Connection-Id", OfNat(id)) && all[4 + m] == Header("X-Request-Number", OfNat(n))
            && IEquals("Content-Length", "Content-Length") && IEquals("Content-Type", "Content-Type")
            && IEquals("Connection", "Connection") && IEquals("Allow", "Allow")
            && IEquals("X-Connection-Id", "X-Connection-Id") && IEquals("X-Request-Number", "X-Request-Number")
            && forall a: string, b: string | |a| != |b| :: !IEquals(a, b)
  {
    hide OfNat;
    OwnName("Content-Length");
    OwnName("Content-Type");
    OwnName("Connection");
    OwnName("Allow");
    OwnName("X-Connection-Id");
    OwnName("X-Request-Number");
  }

  /** The reply after the last framed request: a refusal of what could not be framed, or the 408. */
  ghost predicate IsLastWord(limits: Limits, c: Conn, status: int, body: string) {
    if c.timedOut then
      Unfinished(limits, c.parser.fed) && status == 408 && body == "timed out waiting for the rest of the request\n"
    else
      var failure := ParseAll(limits, c.parser.fed, 0).failure;
      failure.Some? && status == failure.value.Status() && body == Wording.Message(failure.value) + "\n"
  }

  /** What the calculator answers to a framed request, and the words for it. */
  ghost predicate IsAnswer(r: Request, status: int, body: string) {
    var h := HandleRequest(r, RouterWording.RefusalText);
    status == h.status && body == h.body
  }

  /** What each reply of a run is: whether it closes, what it says, and which field it adds. */
  lemma SaidIs(config: Config, id: nat, c: Conn, i: nat)
    requires Run(config, id, c) && i < |Said(config.limits, c)|
    ensures var a, framed := Said(config.limits, c)[i], Framed(config.limits, c);
            && i <= |framed| && a.headers == (if a.status == 405 then [Header("Allow", "GET")] else [])
            && (a.closeConnection <==> i == |framed| || !Persists(framed[i]))
            && if i == |framed| then IsLastWord(config.limits, c, a.status, a.body)
               else IsAnswer(framed[i], a.status, a.body)
  {
    hide Run, ParseAll, Replies, Wording.Message, HandleRequest, Persists, Unfinished;
    var parsed := ParseAll(config.limits, c.parser.fed, 0);
    if c.timedOut {
      TimeoutIsExtra(config, id, c);
      TimeoutRight(config, id, c);
    }
    if i < |ExpectedReplies(CalculatorService(), config.limits, c.parser.fed)| {
      ReplyAt(CalculatorService(), parsed.requests, parsed.failure, i);
      if i < |parsed.requests| {
        StatusIff(parsed.requests[i], RouterWording.RefusalText);
      }
    }
  }

  /** What a client reads off `n` replies when it knows which of its requests were framed HEAD requests. */
  ghost function ReadBack(limits: Limits, c: Conn, n: nat, s: string): Option<Reading> {
    ReadFirst(s, AnswersHead(Framed(limits, c), n))
  }

  /** It reads all of them, refusals included, each with its number, and leaves what follows. */
  lemma RepliesReadBack(config: Config, id: nat, c: Conn, n: nat, s: string)
    requires Run(config, id, c) && Arrived(id, c, n, s)
    ensures ReadBack(config.limits, c, n, s)
         == Some(Reading(AllAsRead(NumberedFrom(id, 1, c.responses[..n])), Beyond(id, c, n, s)))
  {
    hide Run, ReadFirst, Framed, AllAsRead, NumberedFrom, Wire;
    ReadRunIff(config, id, c, s, AnswersHead(Framed(config.limits, c), n));
  }

  /** From a connection that has caught up, open or closed, it reads everything the received bytes call for. */
  lemma RunReadBack(config: Config, id: nat, c: Conn)
    requires Run(config, id, c) && CaughtUp(config, c)
    ensures var said := Said(config.limits, c);
            ReadBack(config.limits, c, |said|, c.sent) == Some(Reading(AllAsRead(NumberedFrom(id, 1, said)), ""))
  {
    hide Run, CaughtUp, ReadBack, Said, AllAsRead, NumberedFrom, Wire;
    AllArrived(config, id, c);
    RepliesReadBack(config, id, c, |Said(config.limits, c)|, c.sent);
  }

  /**
   What a client reads in every reply that has arrived, in every run. Connection says `close` exactly on the reply to a
   request that does not persist and on the refusal or 408 that ends the stream, each of which is the last; the replies
   are numbered from one and name their connection; Content-Length denotes the body, withheld or not; Allow comes with
   405 alone; and status and body are those of the calculator, of the framing error or of the 408.
   */
  lemma ReplyRead(config: Config, id: nat, c: Conn, n: nat, s: string, i: nat)
    requires Run(config, id, c) && Arrived(id, c, n, s) && i < n
    ensures var got, framed := ReadBack(config.limits, c, n, s), Framed(config.limits, c);
            && got.Some? && |got.value.responses| == n && i <= |framed|
            && var reply, closes := got.value.responses[i], i == |framed| || !Persists(framed[i]);
               var head := i < |framed| && framed[i].verb == "HEAD";
               && (closes ==> i == |c.responses| - 1)
               && exists text: string ::
                    && HasFields(reply.headers, closes, id, i + 1, |text|, reply.status == 405)
                    && reply.body == (if head then "" else text)
                    && (if i == |framed| then IsLastWord(config.limits, c, reply.status, text)
                        else IsAnswer(framed[i], reply.status, text))
  {
    hide Run, Said, Framed, ReadBack, HasFields, IsLastWord, IsAnswer, Persists, SmallResponse, AllHeaders, Reason,
         Serialize, Wire;
    var r := c.responses[i];
    RepliesReadBack(config, id, c, n, s);
    ResponseIs(config, id, c, i);
    SmallFields(id, i + 1, r);
    var reply := ReadBack(config.limits, c, n, s).value.responses[i];
    assert c.responses[..n][i] == r && reply == AsRead(Numbered(id, i + 1, r));
    assert HasFields(reply.headers, r.closeConnection, id, i + 1, |r.body|, r.status == 405);
  }

  /** What each response of a run is, said of the responses themselves. */
  lemma ResponseIs(config: Config, id: nat, c: Conn, i: nat)
    requires Run(config, id, c) && i < |c.responses|
    ensures var r, framed := c.responses[i], Framed(config.limits, c);
            && SmallResponse(r) && i <= |framed|
            && r.headers == (if r.status == 405 then [Header("Allow", "GET")] else [])
            && (r.closeConnection <==> i == |framed| || !Persists(framed[i]))
            && (r.closeConnection ==> i == |c.responses| - 1)
            && (r.omitBody <==> i < |framed| && framed[i].verb == "HEAD")
            && if i == |framed| then IsLastWord(config.limits, c, r.status, r.body)
               else IsAnswer(framed[i], r.status, r.body)
  {
    hide Conn.Inv, SmallLimits, CalculatorService, SmallResponse, Said, Framed, IsLastWord, IsAnswer, Persists;
    AllSaid(config, id, c);
    assert c.responses[i] == Said(config.limits, c)[i];
    SaidIs(config, id, c, i);
    SaidOmitsIffHead(config, id, c, i);
    ResponsesSmall(config, id, c);
    CloseIsLast(config, CalculatorService(), id, c);
  }

  /**
   What makes a reply say close, in the client's own terms: a Connection field that lists it, however many there are, or
   an HTTP/1.0 request without one that lists keep-alive.
   */
  lemma CloseOnTheWire(config: Config, id: nat, c: Conn, n: nat, s: string, i: nat)
    requires Run(config, id, c) && Arrived(id, c, n, s) && i < n && i < |Framed(config.limits, c)|
    ensures var got, r := ReadBack(config.limits, c, n, s), Framed(config.limits, c)[i];
            && got.Some? && |got.value.responses| == n
            && (FirstValue(got.value.responses[i].headers, "Connection") == "close" <==>
                || FieldLists(r.headers, "Connection", "close")
                || (r.version == Http10 && !FieldLists(r.headers, "Connection", "keep-alive")))
  {
    hide Run, Framed, ReadBack, Wire, Persists, FieldLists, FirstValue, IsAnswer, IsLastWord, IsNumeral;
    ReplyRead(config, id, c, n, s, i);
    PersistsIff(Framed(config.limits, c)[i]);
    assert "close" != "keep-alive";
  }

  /** The refusal of what could not be framed is never a 404 or a 405, and neither is a timeout. */
  lemma LastWordUnrouted(limits: Limits, c: Conn, status: int, body: string)
    requires IsLastWord(limits, c, status, body)
    ensures status != 405 && status != 404
  {
    hide ParseAll, Wording.Message, Unfinished;
  }

  /**
   When the reply to a HEAD is a 405: exactly when the HEAD could be framed, its Host is accepted and its path is that
   of an operation. A framed HEAD gets 404 for another path and 400 for its Host.
   */
  lemma HeadIs405Iff(config: Config, id: nat, c: Conn, n: nat, s: string, verbs: seq<string>, i: nat)
    requires Run(config, id, c) && Arrived(id, c, n, s) && i < n
    requires Sends(config.limits, c, verbs) && i < |verbs| && verbs[i] == "HEAD"
    ensures var got, framed := ReadBack(config.limits, c, n, s), Framed(config.limits, c);
            && got.Some? && |got.value.responses| == n && i <= |framed|
            && var status := got.value.responses[i].status;
               && (status == 405 <==> i < |framed| && HostAccepted(framed[i]) && IsKnownPath(Path(framed[i])))
               && (status == 404 <==> i < |framed| && HostAccepted(framed[i]) && !IsKnownPath(Path(framed[i])))
               && (i < |framed| && !HostAccepted(framed[i]) ==> status == 400)
  {
    hide Run, Framed, ReadBack, HasFields, IsLastWord, HandleRequest, Persists, Wire, HostAccepted, IsKnownPath, Path;
    ReplyRead(config, id, c, n, s, i);
    var reply, framed := ReadBack(config.limits, c, n, s).value.responses[i], Framed(config.limits, c);
    if i < |framed| {
      StatusIff(framed[i], RouterWording.RefusalText);
    } else {
      var text: string :| IsLastWord(config.limits, c, reply.status, text);
      LastWordUnrouted(config.limits, c, reply.status, text);
    }
  }

  // ---------------------------------------------------------------- a HEAD that is refused

  const REFUSED_LINE := "HEAD" + " " + "/add" + " " + "HTTP/2.0"
  const REFUSED_HEAD := REFUSED_LINE + "\r\n\r\n"

  lemma RefusedSplit()
    ensures SkipEmptyLines(REFUSED_HEAD, 0) == 0
    ensures SplitHead(REFUSED_HEAD, 0) == Some(Split([REFUSED_LINE], |REFUSED_HEAD|))
  {
    hide SplitHead, At, StripCR;
    var s, line := REFUSED_HEAD, REFUSED_LINE;
    assert s == (line + "\r\n") + ("" + "\r\n");
    AtWhole(s);
    AtSplit(s, 0, line + "\r\n", "" + "\r\n");
    assert Clean(line) && Clean("");
    SplitOneMore(s, 0, line, CRLF);
    SplitOneMore(s, |line| + 2, "", CRLF);
    assert [line] + [] == [line];
  }

  lemma RefusedLine()
    ensures ParseRequestLine(REFUSED_LINE) == Err(UnsupportedVersion("HTTP/2.0"))
  {
    hide ParseRequestLine;
    VersionRefused("HEAD", "/add", "HTTP/2.0");
  }

  lemma RefusedOutcome(limits: Limits)
    requires limits.maxHeaderBytes >= |REFUSED_HEAD|
    ensures ParseAll(limits, REFUSED_HEAD, 0) == Parsed([], Some(UnsupportedVersion("HTTP/2.0")))
  {
    hide SkipEmptyLines, SplitHead, ParseRequestLine;
    RefusedSplit();
    RefusedLine();
  }

  /**
   The input that takes such a client out of step. These bytes hold no framed request and call for one 505 with a body:
   a reader that takes no body after its HEAD does not read that reply, the demo client does.
   */
  lemma RefusedHead(limits: Limits, id: nat)
    requires limits.maxHeaderBytes >= |REFUSED_HEAD| && id < COUNTER_LIMIT
    ensures ParseAll(limits, REFUSED_HEAD, 0).requests == []
    ensures var replies := ExpectedReplies(CalculatorService(), limits, REFUSED_HEAD);
            var sent := Expected(CalculatorService(), limits, id, REFUSED_HEAD);
            var want := Some(Reading(AllAsRead(NumberedFrom(id, 1, replies)), ""));
            && |replies| == 1 && replies[0].status == 505 && !replies[0].omitBody
            && ReadFirst(sent, [true]) != want && ReadFirst(sent, [false]) == want
  {
    hide ParseAll, CalculatorService, ReadFirst, AllAsRead, ReadableResponse, Wire, SmallError, Serialize;
    RefusedOutcome(limits);
    var e := UnsupportedVersion("HTTP/2.0");
    var reply := ErrorReply(CalculatorService(), e);
    assert Replies(CalculatorService(), [], Some(e)) == [reply];
    assert SmallError(e) by { ShortVersion(); }
    ErrorReplySmall(e);
    OneReplyRead(id, reply);
  }

  lemma ShortVersion()
    ensures SmallError(UnsupportedVersion("HTTP/2.0"))
  {
  }

  // ---------------------------------------------------------------- a HEAD that is answered

  /** A HEAD request with nothing but its request line. */
  function PlainHead(target: string): Spelling {
    Spelling("", "HEAD", target, '0', CRLF, [], CRLF, "")
  }

  lemma PlainHeadSpelled(limits: Limits, target: string)
    requires IsOriginForm(target) && limits.maxHeaderBytes >= |HeadOf(PlainHead(target))|
    ensures GoodPipeline(limits, [PlainHead(target)])
  {
    assert HeadersOf([]) == [];
  }

  lemma PlainHeadFramed(limits: Limits, target: string)
    requires IsOriginForm(target) && limits.maxHeaderBytes >= |HeadOf(PlainHead(target))|
    ensures var parsed := ParseAll(limits, TextOf(PlainHead(target)), 0);
            && |parsed.requests| == 1 && parsed.failure == None
            && var r := parsed.requests[0];
               r.verb == "HEAD" && r.target == target && r.version == Http10 && r.headers == []
  {
    var m := PlainHead(target);
    PlainHeadSpelled(limits, target);
    hide GoodPipeline, ParseAll, TextOf, HeadOf, IsOriginForm;
    assert [m][1..] == [];
    assert PipelineText([m]) == TextOf(m) + "" == TextOf(m);
    PipelineFramed(limits, [m]);
    var at := PipelineAt([m], 0, 0);
    assert HeadersOf([]) == [];
  }

  /** The one reply a plain HEAD calls for. */
  lemma PlainHeadReply(limits: Limits, target: string)
    requires IsOriginForm(target) && limits.maxHeaderBytes >= |HeadOf(PlainHead(target))|
    ensures var requests := ParseAll(limits, TextOf(PlainHead(target)), 0).requests;
            && |requests| == 1
            && ExpectedReplies(CalculatorService(), limits, TextOf(PlainHead(target)))
               == [Answer(CalculatorService(), requests[0])]
            && Answer(CalculatorService(), requests[0]).omitBody
  {
    hide ParseAll, CalculatorService, TextOf, HeadOf, Answer, SendsBodies, IsOriginForm;
    PlainHeadFramed(limits, target);
    var requests := ParseAll(limits, TextOf(PlainHead(target)), 0).requests;
    assert requests == [requests[0]] && requests[1..] == [];
    assert Replies(CalculatorService(), [], None) == [];
    CalculatorSendsBodies();
    OmitsIffHead(CalculatorService(), requests, None, 0);
  }

  /**
   The input that takes the demo client out of step. These bytes hold one framed HEAD and call for one reply without its
   body: the demo client does not read that reply, a reader that takes no body after its HEAD does.
   */
  lemma AnsweredHead(limits: Limits, id: nat)
    requires limits.maxHeaderBytes >= |HeadOf(PlainHead("/add"))| && id < COUNTER_LIMIT
    ensures var replies := ExpectedReplies(CalculatorService(), limits, TextOf(PlainHead("/add")));
            var sent := Expected(CalculatorService(), limits, id, TextOf(PlainHead("/add")));
            var want := Some(Reading(AllAsRead(NumberedFrom(id, 1, replies)), ""));
            && |replies| == 1 && replies[0].omitBody
            && ReadFirst(sent, [false]) != want && ReadFirst(sent, [true]) == want
  {
    hide ParseAll, CalculatorService, ReadFirst, AllAsRead, ReadableResponse, Wire, Serialize, TextOf, HeadOf, Answer,
         ExpectedReplies;
    PlainHeadReply(limits, "/add");
    var requests := ParseAll(limits, TextOf(PlainHead("/add")), 0).requests;
    AnswerSmall(requests[0]);
    OneReplyRead(id, Answer(CalculatorService(), requests[0]));
  }

  /** A HEAD that is not answered with 405, for want of an operation at its path. */
  lemma HeadElsewhere(limits: Limits)
    requires limits.maxHeaderBytes >= |HeadOf(PlainHead("/"))|
    ensures var replies := ExpectedReplies(CalculatorService(), limits, TextOf(PlainHead("/")));
            |replies| == 1 && replies[0].status == 404 && replies[0].omitBody
  {
    hide ParseAll, ExpectedReplies, TextOf, HeadOf, Persists, HandleRequest;
    PlainHeadReply(limits, "/");
    PlainHeadFramed(limits, "/");
    var r := ParseAll(limits, TextOf(PlainHead("/")), 0).requests[0];
    StatusIff(r, RouterWording.RefusalText);
    RootIsUnknown(r);
    hide IsKnownPath, Path, HostAccepted;
  }

  lemma RootIsUnknown(r: Request)
    requires r.target == "/" && r.headers == [] && r.version == Http10
    ensures HostAccepted(r) && !IsKnownPath(Path(r))
  {
    TargetSplits(r);
    assert '?' !in r.target;
  }

  /** A lone reply is read by exactly the readers that agree with it. */
  lemma OneReplyRead(id: nat, reply: Response)
    requires SmallResponse(reply) && id < COUNTER_LIMIT
    ensures forall toHead: bool ::
              ReadFirst(Wire(id, [reply]), [toHead]) == Some(Reading(AllAsRead(NumberedFrom(id, 1, [reply])), "")) <==>
              toHead == reply.omitBody
  {
    hide ReadFirst, AllAsRead, ReadableResponse, Wire, Serialize;
    SmallReadable(id, 1, reply);
    WireIsStream(id, [reply]);
    var rs := NumberedFrom(id, 1, [reply]);
    assert rs == [Numbered(id, 1, reply)];
    assert WireBytes(rs) + "" == Wire(id, [reply]);
    forall toHead: bool
      ensures ReadFirst(Wire(id, [reply]), [toHead]) == Some(Reading(AllAsRead(rs), "")) <==> toHead == reply.omitBody
    {
      StreamInStepIff(rs, [toHead], "");
      assert Agrees(rs[0], [toHead][0]) <==> toHead == reply.omitBody;
    }
  }

  // ---------------------------------------------------------------- calculations over the wire

  lemma KthRead(id: nat, rs: seq<Response>, n: nat, k: nat)
    requires k < n <= |rs|
    ensures var got := AllAsRead(NumberedFrom(id, 1, rs[..n]));
            && |got| == n && got[k].status == rs[k].status && got[k].reason == Reason(rs[k].status)
            && (!rs[k].omitBody ==> got[k].body == rs[k].body)
  {
    hide Reason, AllHeaders, Serialize;
  }

  /** `m` asks for `op` on `x` and `y`, with any spelling of the request and of its operands. */
  ghost predicate AsksFor(m: Spelling, op: Operation, x: int, y: int, ws: seq<Written>) {
    && m.verb == "GET" && HostAccepted(RequestOf(m, 0))
    && Writes(ws, x, y) && m.target == TargetOf(op, ws)
  }

  lemma {:induction false} PipelineAt(ms: seq<Spelling>, i: nat, k: nat) returns (at: nat)
    requires k < |ms|
    ensures |PipelineRequests(ms, i)| == |ms| && PipelineRequests(ms, i)[k] == RequestOf(ms[k], at)
    decreases |ms|
  {
    hide RequestOf, TextOf;
    at := i;
    var next := i + |TextOf(ms[0])|;
    if k > 0 {
      at := PipelineAt(ms[1..], next, k - 1);
    } else if |ms| > 1 {
      var _ := PipelineAt(ms[1..], next, 0);
    }
  }

  /** The requests of a pipeline are the first that the bytes hold, whatever follows them. */
  lemma PipelineFirst(limits: Limits, ms: seq<Spelling>, s: string)
    requires GoodPipeline(limits, ms) && PipelineText(ms) <= s
    ensures PipelineRequests(ms, 0) <= ParseAll(limits, s, 0).requests
    ensures s == PipelineText(ms) ==> ParseAll(limits, s, 0) == Parsed(PipelineRequests(ms, 0), None)
  {
    hide At, GoodPipeline, PipelineRequests, PipelineText, Taken, ParseAll, ParseOne;
    var end := |PipelineText(ms)|;
    AtFront(s, PipelineText(ms));
    PipelineTaken(limits, s, 0, ms);
    TakenIsParse(limits, s, 0, PipelineRequests(ms, 0), end);
    if s == PipelineText(ms) {
      NothingAfter(limits, s);
      assert PipelineRequests(ms, 0) + [] == PipelineRequests(ms, 0);
    }
  }

  lemma PipelineFramed(limits: Limits, ms: seq<Spelling>)
    requires GoodPipeline(limits, ms)
    ensures ParseAll(limits, PipelineText(ms), 0) == Parsed(PipelineRequests(ms, 0), None)
  {
    PipelineFirst(limits, ms, PipelineText(ms));
  }

  lemma NothingAfter(limits: Limits, s: string)
    ensures ParseAll(limits, s, |s|) == Parsed([], None)
  {
  }

  /** The calculator never closes a connection by itself. */
  lemma CalculatorCloses(m: Spelling, at: nat)
    ensures Answer(CalculatorService(), RequestOf(m, at)).closeConnection <==> !Persists(RequestOf(m, 0))
  {
    hide Decide, RouterWording.RefusalText, Lists, TextOf, HeadOf;
  }

  lemma CalculatorAnswer(r: Request)
    requires r.verb == "GET"
    ensures var a := Answer(CalculatorService(), r); var h := HandleRequest(r, RouterWording.RefusalText);
            a.status == h.status && a.body == h.body && a.omitBody == h.omitBody
  {
    hide HandleRequest, Persists;
  }

  /** The reply a calculation calls for: 200 with its result, or 400 if there is none or it does not fit. */
  ghost predicate ResultOrRefusal(status: int, body: string, op: Operation, x: int, y: int, v: int) {
    && (status == 200 && IsResult(body, v) <==> Means(op, x, y, v) && InRange(v))
    && (status == 200 || status == 400)
    && (status == 200 <==> exists w :: Means(op, x, y, w) && InRange(w))
  }

  lemma HandledAs(r: Request, op: Operation, ws: seq<Written>, x: int, y: int, v: int)
    requires HostAccepted(r) && r.verb == "GET" && Writes(ws, x, y) && r.target == TargetOf(op, ws)
    ensures var h := HandleRequest(r, RouterWording.RefusalText);
            ResultOrRefusal(h.status, h.body, op, x, y, v) && !h.omitBody
  {
    hide Means, Writes, IsResult, TargetOf, HostAccepted, Decide, InRange, RouterWording.RefusalText;
    var h := HandleRequest(r, RouterWording.RefusalText);
    EndToEnd(r, op, ws, x, y, v, RouterWording.RefusalText);
    if h.status == 200 {
      var w :| Means(op, x, y, w) && InRange(w);
      EndToEnd(r, op, ws, x, y, w, RouterWording.RefusalText);
    }
  }

  lemma AnswersWith(m: Spelling, at: nat, op: Operation, x: int, y: int, ws: seq<Written>, v: int)
    requires AsksFor(m, op, x, y, ws)
    ensures var a := Answer(CalculatorService(), RequestOf(m, at));
            ResultOrRefusal(a.status, a.body, op, x, y, v) && !a.omitBody
  {
    hide Answer, Writes, TargetOf, IsValidHost, HandleRequest, Persists, ResultOrRefusal;
    HandledAs(RequestOf(m, at), op, ws, x, y, v);
    CalculatorAnswer(RequestOf(m, at));
  }

  /**
   From bytes to bytes, in every run at every point: if the received bytes begin with a pipeline of well-spelled
   requests, the k-th of them a GET for an operation, and its reply has arrived, then the k-th reply a client reads is
   200 with the exact result in decimal if and only if that result exists and fits, and 400 otherwise.
   */
  lemma CalculationOverTheWire(config: Config, id: nat, c: Conn, ms: seq<Spelling>, k: nat, n: nat, s: string,
                               op: Operation, x: int, y: int, ws: seq<Written>, v: int)
    requires Run(config, id, c) && PipelineText(ms) <= c.parser.fed && GoodPipeline(config.limits, ms)
    requires k < |ms| && AsksFor(ms[k], op, x, y, ws) && k < n && Arrived(id, c, n, s)
    ensures var got := ReadBack(config.limits, c, n, s);
            && got.Some? && k < |got.value.responses|
            && var reply := got.value.responses[k];
               && ResultOrRefusal(reply.status, reply.body, op, x, y, v)
               && reply.reason == if reply.status == 200 then "OK" else "Bad Request"
  {
    hide Run, GoodPipeline, AsksFor, PipelineText, PipelineRequests, ReadBack, Said, Persists, Answer, AllAsRead,
         NumberedFrom, Reason, RequestOf, Wire;
    AllSaid(config, id, c);
    assert c.responses[k] == Said(config.limits, c)[k];
    if c.timedOut {
      TimeoutIsExtra(config, id, c);
    }
    var at := KthSaid(config.limits, c, ms, k);
    AnswersWith(ms[k], at, op, x, y, ws, v);
    RepliesReadBack(config, id, c, n, s);
    KthRead(id, c.responses, n, k);
    ReasonTexts();
  }

  /** Once the connection has caught up, that reply has arrived unless an earlier request asked for a close. */
  lemma CalculationArrives(config: Config, id: nat, c: Conn, ms: seq<Spelling>, k: nat)
    requires Run(config, id, c) && CaughtUp(config, c)
    requires PipelineText(ms) <= c.parser.fed && GoodPipeline(config.limits, ms)
    requires k < |ms| && forall j | 0 <= j < k :: Persists(RequestOf(ms[j], 0))
    ensures var n := |Said(config.limits, c)|; k < n && Arrived(id, c, n, c.sent)
  {
    hide Run, CaughtUp, GoodPipeline, PipelineText, PipelineRequests, ParseAll, Replies, Persists, Answer,
         CalculatorService, RequestOf, Wire;
    var parsed := ParseAll(config.limits, c.parser.fed, 0);
    AllArrived(config, id, c);
    PipelineFirst(config.limits, ms, c.parser.fed);
    KthKept(ms, parsed.requests, k);
    RepliesReach(CalculatorService(), parsed.requests, parsed.failure, k);
  }

  lemma KthKept(ms: seq<Spelling>, requests: seq<Request>, k: nat)
    requires k < |ms| && PipelineRequests(ms, 0) <= requests
    requires forall j | 0 <= j < k :: Persists(RequestOf(ms[j], 0))
    ensures k < |requests| && forall j | 0 <= j < k :: !Answer(CalculatorService(), requests[j]).closeConnection
  {
    hide CalculatorService, PipelineRequests, Persists, Answer, RequestOf;
    var _ := PipelineAt(ms, 0, k);
    forall j | 0 <= j < k ensures !Answer(CalculatorService(), requests[j]).closeConnection {
      var at := PipelineAt(ms, 0, j);
      CalculatorCloses(ms[j], at);
    }
  }

  /** The k-th reply, if there is one, answers the k-th request of the pipeline. */
  lemma KthSaid(limits: Limits, c: Conn, ms: seq<Spelling>, k: nat) returns (at: nat)
    requires PipelineText(ms) <= c.parser.fed && GoodPipeline(limits, ms)
    requires k < |ms| && k < |Said(limits, c)|
    requires c.timedOut ==> |ExpectedReplies(CalculatorService(), limits, c.parser.fed)| == |Framed(limits, c)|
    ensures Said(limits, c)[k] == Answer(CalculatorService(), RequestOf(ms[k], at))
  {
    hide GoodPipeline, PipelineText, PipelineRequests, ParseAll, Replies, Answer, CalculatorService, RequestOf;
    var parsed := ParseAll(limits, c.parser.fed, 0);
    PipelineFirst(limits, ms, c.parser.fed);
    at := PipelineAt(ms, 0, k);
    ReplyAt(CalculatorService(), parsed.requests, parsed.failure, k);
  }

  /** The phrases of section 15 of RFC 9110 and section 5 of RFC 6585 for every status the server sends. */
  lemma ReasonTexts()
    ensures Reason(200) == "OK" && Reason(400) == "Bad Request" && Reason(404) == "Not Found"
    ensures Reason(405) == "Method Not Allowed" && Reason(408) == "Request Timeout"
    ensures Reason(413) == "Content Too Large" && Reason(431) == "Request Header Fields Too Large"
    ensures Reason(500) == "Internal Server Error" && Reason(501) == "Not Implemented"
    ensures Reason(505) == "HTTP Version Not Supported"
    ensures forall status: nat | status !in {200, 400, 404, 405, 408, 413, 431, 500, 501, 505} ::
              Reason(status) == "Unknown"
  {
  }

  /** Field lines as section 5 of RFC 9112 writes them. */
  function FieldLinesOf(headers: seq<Header>): string {
    if headers == [] then "" else headers[0].name + ": " + headers[0].value + "\r\n" + FieldLinesOf(headers[1..])
  }

  lemma {:induction false} BlockIsLines(headers: seq<Header>)
    ensures HeaderBlock(headers) == FieldLinesOf(headers)
    decreases |headers|
  {
    if headers != [] {
      BlockIsLines(headers[1..]);
    }
  }

  /**
   The bytes of every reply that has arrived, in terms of what was read from them: the version, the status in decimal
   and its phrase; the fields in order, one on a line; an empty line; the body.
   */
  lemma ReplyBytes(config: Config, id: nat, c: Conn, n: nat, s: string, i: nat)
    requires Run(config, id, c) && Arrived(id, c, n, s) && i < n
    ensures var got := ReadBack(config.limits, c, n, s);
            && got.Some? && i < |got.value.responses| && got.value.responses[i].status >= 0
            && var reply := got.value.responses[i];
               exists code: string ::
                 && IsNumeral(code, reply.status)
                 && reply.raw == "HTTP/1.1 " + code + " " + reply.reason + "\r\n" + FieldLinesOf(reply.headers)
                               + "\r\n" + reply.body
  {
    hide Run, ReadBack, Reason, OfNat, HeaderBlock, Wire, IsNumeral, FieldLinesOf, AllHeaders, Numbered;
    RepliesReadBack(config, id, c, n, s);
    var r := Numbered(id, i + 1, c.responses[i]);
    NumeralIff(OfNat(r.status), r.status);
    BlockIsLines(AllHeaders(r));
    BytesOf(r);
  }

  lemma BytesOf(r: Response)
    ensures Serialize(r) == "HTTP/1.1 " + OfNat(r.status) + " " + Reason(r.status) + "\r\n"
                          + HeaderBlock(AllHeaders(r)) + "\r\n" + if r.omitBody then "" else r.body
  {
    hide OfNat, Reason, HeaderBlock, AllHeaders;
    assert "HTTP/1.1" + " " == "HTTP/1.1 ";
  }
}
