/**
 When the input buffer outgrows one maximal request (include/calc/config.hpp:27-29): what the settings
 of module InputGrowth amount to, and a real connection driven there under each of them.
 */
module Growth {
  import opened Text
  import opened Decimal
  import opened Messages
  import opened HeadGrammar
  import opened Framing
  import opened RequestInfo
  import opened RequestSpelling
  import opened RequestParsing
  import opened InputGrowth
  import opened Exchange
  import opened Session
  import opened Connections
  import opened Server
  import opened Bounds
  import opened Router
  import RouterWording

  // ---------------------------------------------------------------- the settings

  /**
   With a head limit that holds any length, and a body limit that is one, the settings under which the input buffer can
   outgrow one maximal request are those with one of the limits below about two reads.
   */
  lemma OutgrowsUsually(limits: Limits)
    requires limits.maxHeaderCount >= 1 && limits.maxHeaderBytes >= 50 && limits.maxBodyBytes < SIZE_MODULUS
    ensures Outgrows(limits) <==>
            limits.maxHeaderBytes < 32764 || limits.maxBodyBytes < 32765
  {
    var head, body := limits.maxHeaderBytes, limits.maxBodyBytes;
    CounterDigits(body);
    hide OfNat;
    if head < 2 * RECV_CHUNK - 4 && !HeadOutgrows(limits) {
      assert BodyOutgrows(limits, body);
    }
  }

  /** With a body limit that fits one read, a head limit of three is enough for that, or of four without bodies. */
  lemma OutgrowsInOneRead(limits: Limits)
    requires limits.maxBodyBytes <= 16384
    ensures Outgrows(limits) <==> limits.maxHeaderBytes >= 3 && limits.MaxRequestBytes() >= 4
  {
    hide OfNat;
  }

  // ---------------------------------------------------------------- the bytes

  function Newlines(n: nat): string {
    seq(n, i => '\n')
  }

  /** A head with a target of `f` letters, and these fields. */
  function Padded(f: nat, fields: seq<Field>): Spelling {
    Spelling("", "A", "/" + Unended(f), '1', LF, fields, LF, "")
  }

  function LengthField(n: nat): Field {
    Field(Header("Content-Length", OfNat(n)), "", "", LF)
  }

  lemma PaddedSpelled(f: nat, fields: seq<Field>)
    requires GoodFields(fields)
    ensures WellSpelled(Padded(f, fields)) && |HeadOf(Padded(f, fields))| == 13 + f + |FieldsText(fields, LF)|
  {
    NameIsToken();
    hide FieldsText;
    var target := "/" + Unended(f);
    assert forall i | 0 <= i < |target| :: IsTargetChar(target[i]);
  }

  lemma LengthFieldGood(n: nat, max: nat)
    requires n <= max && n < SIZE_MODULUS
    ensures GoodFields([LengthField(n)]) && |FieldsText([LengthField(n)], LF)| == 17 + |OfNat(n)|
    ensures Announces(HeadersOf([LengthField(n)]), max, n) && BodyLength(HeadersOf([LengthField(n)]), max) == Ok(n)
  {
    ValueInvertsOfNat(n);
    hide OfNat, Value;
    DigitsAreValue(OfNat(n));
    NameIsToken();
    NotCoded();
    assert [LengthField(n)][1..] == [];
    var headers := HeadersOf([LengthField(n)]);
    assert |headers| == 1 && headers[0].name == "Content-Length";
    assert OnlyField(headers, 0, "Content-Length");
    BodyLengthIff(headers, max, n);
  }

  lemma NoFields()
    ensures GoodFields([]) && |FieldsText([], LF)| == 1 && HeadersOf([]) == []
  {
  }

  // ---------------------------------------------------------------- what the parser makes of them

  /** `m` is a head within the limits that announces `n` bytes. */
  ghost predicate Fits(limits: Limits, m: Spelling, n: nat) {
    && WellSpelled(m) && |HeadOf(m)| <= limits.maxHeaderBytes && |m.fields| <= limits.maxHeaderCount
    && BodyLength(HeadersOf(m.fields), limits.maxBodyBytes) == Ok(n)
  }

  lemma HeadStands(limits: Limits, m: Spelling, n: nat, s: string, i: nat)
    requires Fits(limits, m, n) && At(s, i, m.lead + HeadOf(m))
    ensures i <= |s| && HeadAt(limits, s, i).HeadDone? && HeadAt(limits, s, i).end == i + |m.lead + HeadOf(m)|
    ensures HeadAt(limits, s, i).head.bodyLength == n
  {
    hide At, HeadOf, HeadersOf, BodyLength, ParseLines, SplitHead, SkipEmptyLines, WellSpelled, LinesOf;
    AtWithin(s, i, m.lead + HeadOf(m));
    AtSplit(s, i, m.lead, HeadOf(m));
    HeadSplits(s, i + |m.lead|, m);
    LeadIsEmptyLines(m);
    SkipPrinted(s, i, m.lead);
    LinesDecided(limits, m);
  }

  lemma SkipsNothing(s: string, i: nat)
    requires i <= |s| && StartsLine(s, i).Text?
    ensures SkipEmptyLines(s, i) == i
  {
  }

  /** Without its last byte it is still awaited, and nothing of it is consumed. */
  lemma PartStands(limits: Limits, m: Spelling, n: nat)
    requires Fits(limits, m, n) && m.lead == "" && limits.maxHeaderBytes >= 1 && |HeadOf(m)| >= 3
    ensures var s := HeadOf(m)[..|HeadOf(m)| - 1]; HeadAt(limits, s, 0) == HeadPending && SkipEmptyLines(s, 0) == 0
  {
    hide HeadOf, HeadAt, WellSpelled, BodyLength, HeadersOf, SkipEmptyLines;
    var text := HeadOf(m);
    var s, x := text[..|text| - 1], text[|text| - 1..];
    assert s + x == text;
    assert m.lead + text == text;
    AtWhole(text);
    HeadStands(limits, m, n, text, 0);
    if HeadAt(limits, s, 0).HeadDone? {
      HeadDoneStable(limits, s, x, 0);
    } else if HeadAt(limits, s, 0).HeadBad? {
      HeadBadStable(limits, s, x, 0);
    }
    StartsWithText(m);
    SkipsNothing(s, 0);
  }

  lemma StartsWithText(m: Spelling)
    requires WellSpelled(m) && |HeadOf(m)| >= 3
    ensures StartsLine(HeadOf(m)[..|HeadOf(m)| - 1], 0).Text?
  {
    hide FieldsText;
    assert HeadOf(m)[0] == m.verb[0];
  }

  lemma UnendedStands(limits: Limits, s: string, i: nat)
    requires i < |s| <= i + limits.maxHeaderBytes && forall j | i <= j < |s| :: s[j] == 'a'
    ensures HeadAt(limits, s, i) == HeadPending && SkipEmptyLines(s, i) == i
  {
  }

  lemma {:induction false} OnlyNewlines(n: nat)
    ensures OnlyEmptyLines(Newlines(n))
  {
    if n > 0 {
      OnlyNewlines(n - 1);
      assert Newlines(n)[1..] == Newlines(n - 1);
    }
  }

  // ---------------------------------------------------------------- what a connection makes of them

  /** Replies close a connection only for requests that ask for it. */
  ghost predicate KeepsAlive(service: Service) {
    forall r: Request | Persists(r) :: !Answer(service, r).closeConnection
  }

  lemma CalculatorKeepsAlive()
    ensures KeepsAlive(CalculatorService())
  {
    hide Decide, RouterWording.RefusalText, Persists;
  }

  /** Bytes that leave a connection open and waiting. */
  ghost predicate Quiet(limits: Limits, service: Service, s: string) {
    ParseAll(limits, s, 0).failure == None && NoneCloses(ExpectedReplies(service, limits, s))
  }

  lemma QuietAtOnce(limits: Limits, service: Service, s: string)
    requires ParseOne(limits, s, 0) == Incomplete
    ensures Quiet(limits, service, s)
  {
    hide ParseOne, Answer;
    ParseEnds(limits, s, 0);
  }

  lemma QuietAfter(limits: Limits, service: Service, s: string, r: Request)
    requires ParseOne(limits, s, 0) == Complete(r) && ParseOne(limits, s, r.streamEnd) == Incomplete
    requires KeepsAlive(service) && Persists(r)
    ensures Quiet(limits, service, s) && Consumed(limits, s, 0) == Consumed(limits, s, r.streamEnd)
  {
    hide ParseOne, Answer, Persists;
    ParseEnds(limits, s, r.streamEnd);
    assert ParseAll(limits, s, 0).requests == [r] + [] == [r];
    assert [r][1..] == [] && Replies(service, [], None) == [];
    assert Replies(service, [r], None) == [Answer(service, r)];
  }

  /** Whatever number of letters, within these bounds, follows `text`: they are unread, and just `text` is consumed. */
  ghost predicate Scene(limits: Limits, service: Service, text: string, hi: nat) {
    forall k: nat | 1 <= k <= hi ::
      Quiet(limits, service, text + Unended(k)) && Consumed(limits, text + Unended(k), 0) == |text|
  }

  lemma NewlineScene(limits: Limits, service: Service, t: nat)
    ensures Scene(limits, service, Newlines(t), limits.maxHeaderBytes)
  {
    hide Quiet, HeadAt, SkipEmptyLines;
    forall k: nat | 1 <= k <= limits.maxHeaderBytes
      ensures Quiet(limits, service, Newlines(t) + Unended(k))
      ensures Consumed(limits, Newlines(t) + Unended(k), 0) == |Newlines(t)|
    {
      var s := Newlines(t) + Unended(k);
      OnlyNewlines(t);
      AtFront(s, Newlines(t));
      SkipPrinted(s, 0, Newlines(t));
      UnendedStands(limits, s, t);
      PendingAfterSkip(limits, s, t);
      QuietAtOnce(limits, service, s);
    }
  }

  lemma PendingAfterSkip(limits: Limits, s: string, t: nat)
    requires t <= |s| && SkipEmptyLines(s, 0) == t == SkipEmptyLines(s, t) && HeadAt(limits, s, t) == HeadPending
    ensures HeadAt(limits, s, 0) == HeadPending
  {
    hide SkipEmptyLines, SplitHead, ParseLines;
  }

  /** A head that announces a body. */
  lemma BodyScene(limits: Limits, service: Service, m: Spelling, n: nat)
    requires Fits(limits, m, n) && n >= 1
    ensures Scene(limits, service, m.lead + HeadOf(m), n - 1)
  {
    hide Quiet, HeadAt, Fits, HeadOf;
    var text := m.lead + HeadOf(m);
    forall k: nat | 1 <= k <= n - 1
      ensures Quiet(limits, service, text + Unended(k)) && Consumed(limits, text + Unended(k), 0) == |text|
    {
      var s := text + Unended(k);
      AtFront(s, text);
      HeadStands(limits, m, n, s, 0);
      QuietAtOnce(limits, service, s);
    }
  }

  /** A request that is answered, then such a head. */
  lemma SecondBodyScene(limits: Limits, service: Service, first: Spelling, m: Spelling, n: nat)
    requires Fits(limits, m, n) && n >= 1 && m.lead == ""
    requires WellSpelled(first) && WithinLimits(limits, first) && KeepsAlive(service) && Persists(RequestOf(first, 0))
    ensures Scene(limits, service, TextOf(first) + HeadOf(m), n - 1)
  {
    hide Quiet, HeadAt, Fits, HeadOf, TextOf, WellSpelled, WithinLimits, KeepsAlive, Persists;
    var text := TextOf(first) + HeadOf(m);
    forall k: nat | 1 <= k <= n - 1
      ensures Quiet(limits, service, text + Unended(k)) && Consumed(limits, text + Unended(k), 0) == |text|
    {
      var s := text + Unended(k);
      AtFront(s, text);
      AtSplit(s, 0, TextOf(first), HeadOf(m));
      assert m.lead + HeadOf(m) == HeadOf(m);
      RequestRoundTrip(limits, s, 0, first);
      RequestEnds(first, 0);
      HeadStands(limits, m, n, s, |TextOf(first)|);
      BodyIsAwaited(limits, s, |TextOf(first)|);
      QuietAfter(limits, service, s, RequestOf(first, 0));
    }
  }

  lemma BodyIsAwaited(limits: Limits, s: string, i: nat)
    requires i <= |s| && HeadAt(limits, s, i).HeadDone?
    requires |s| < HeadAt(limits, s, i).end + HeadAt(limits, s, i).head.bodyLength
    ensures ParseOne(limits, s, i) == Incomplete && Consumed(limits, s, i) == HeadAt(limits, s, i).end
  {
    hide HeadAt;
  }

  /** A request without a body, which is answered. */
  lemma HeadScene(limits: Limits, service: Service, m: Spelling)
    requires Fits(limits, m, 0) && KeepsAlive(service) && Persists(RequestOf(m, 0)) && m.lead == "" && m.body == ""
    ensures Scene(limits, service, HeadOf(m), limits.maxHeaderBytes)
  {
    hide Quiet, HeadAt, HeadOf, KeepsAlive, Persists, WellSpelled, BodyLength, HeadersOf;
    forall k: nat | 1 <= k <= limits.maxHeaderBytes
      ensures Quiet(limits, service, HeadOf(m) + Unended(k))
      ensures Consumed(limits, HeadOf(m) + Unended(k), 0) == |HeadOf(m)|
    {
      var s := HeadOf(m) + Unended(k);
      AtFront(s, HeadOf(m));
      assert m.lead + HeadOf(m) == HeadOf(m);
      SpelledDecision(limits, s, 0, m);
      assert m.(body := s[|HeadOf(m)|..|HeadOf(m)|]) == m;
      UnendedStands(limits, s, |HeadOf(m)|);
      hide ParseOne;
      PendingIsIncomplete(limits, s, |HeadOf(m)|);
      QuietAfter(limits, service, s, RequestOf(m, 0));
    }
  }

  lemma PendingIsIncomplete(limits: Limits, s: string, i: nat)
    requires i <= |s| && HeadAt(limits, s, i) == HeadPending
    ensures ParseOne(limits, s, i) == Incomplete && Consumed(limits, s, i) == SkipEmptyLines(s, i)
  {
    hide HeadAt;
  }

  // ---------------------------------------------------------------- driving a connection

  /** A connection that has read `s`, holds all of it, and wants to read on. */
  ghost predicate Holds(c: Connection, s: string)
    reads c, c.parser, c.socket
  {
    && c.Settled() && c.socket.healthy && c.socket.eager && c.phase == Active && !c.peerFinished && !c.timedOut
    && c.cause == NotClosed && c.PendingOutput() == 0 && c.parser.reclaimed == 0 && c.socket.received == s
  }

  lemma StaysOpen(c: Connection, s: string)
    requires c.Settled() && c.config.limits.maxHeaderBytes >= 1 && c.socket.eager && c.socket.received == s
    requires Quiet(c.config.limits, c.service, s) && !c.timedOut && !c.peerFinished
    requires c.cause != Aborted && c.cause != Idle
    requires c.phase == Active || c.phase == Closing ==> c.PendingOutput() <= 0 || c.socket.blocked
    ensures c.phase == Active && c.cause == NotClosed && c.PendingOutput() == 0
  {
    hide View.Inv, View.Starved, Wire, Replies, ParseAll, ParseOne, Lean, Conn.Backlog, Conn.Answers;
    ResponsesAreExpected(c.config, c.service, c.id, c.AsConn());
  }

  /** What a connection that holds `s` would do with more. */
  lemma Ready(c: Connection, s: string)
    requires Holds(c, s) && c.config.outputHighWater >= 1
    ensures var limits := c.config.limits;
            && c.parser.Starved() && c.parser.Buffered() == |s| - Consumed(limits, s, 0)
            && c.parser.start == Consumed(limits, s, 0) && |c.parser.buffer| == |s|
  {
    hide Conn.Inv, View.Inv, View.Starved, Consumed;
    c.SettledParts();
    c.InvOfParser();
    ReceivedIsFed(c);
    StarvedConsumed(c.config.limits, c.parser.AsView());
  }

  /** The next recv will return these bytes. */
  method Settle(c: Connection, bytes: string)
    requires c.Settled()
    modifies c.socket`plan
    ensures c.Settled() && c.AsConn() == old(c.AsConn()) && c.socket.plan == [Data(bytes)]
  {
    hide Conn.Inv, Conn.AtRest, View.Inv, RequestParser.AsView;
    ghost var before := c.AsConn();
    c.socket.plan := [Data(bytes)];
    assert c.AsConn() == before;
  }

  /** No consumed byte is reclaimed before the next read. */
  ghost predicate Keeps(limits: Limits, s: string) {
    Consumed(limits, s, 0) == 0 || 2 * Consumed(limits, s, 0) + 2 <= |s|
  }

  /** There is room for these bytes, and one recv can bring them. */
  ghost predicate HasRoom(limits: Limits, s: string, bytes: string) {
    1 <= |bytes| <= RECV_CHUNK && |s| + |bytes| - Consumed(limits, s, 0) <= limits.MaxRequestBytes()
  }

  /** One read of a run that keeps everything. */
  method Read(c: Connection, s: string, bytes: string, now: int)
    requires Holds(c, s) && c.config.outputHighWater >= 1 && c.config.limits.maxHeaderBytes >= 1
    requires HasRoom(c.config.limits, s, bytes) && Keeps(c.config.limits, s)
    requires Quiet(c.config.limits, c.service, s + bytes)
    modifies c, c.parser, c.socket
    ensures Holds(c, s + bytes)
  {
    hide Connection.Settled, Connection.AsConn, Quiet, Consumed, RequestParser.Starved;
    Ready(c, s);
    Settle(c, bytes);
    c.OnPollEvents(READABLE, now);
    StaysOpen(c, s + bytes);
  }

  /** The read itself, before anything is done with its bytes: this is when the buffer is at its largest. */
  method ReadLast(c: Connection, s: string, bytes: string, now: int)
    requires Holds(c, s) && c.config.outputHighWater >= 1
    requires HasRoom(c.config.limits, s, bytes) && Keeps(c.config.limits, s)
    modifies c, c.parser, c.socket
    ensures c.Valid() && |c.parser.buffer| == |s| + |bytes|
  {
    hide Connection.Sane, Connection.AsConn, Consumed, RequestParser.Starved;
    Ready(c, s);
    Settle(c, bytes);
    c.SettledParts();
    c.ReadFromSocket(now);
    HeldBytes(c);
  }

  lemma HeldBytes(c: Connection)
    requires c.Valid() && c.phase == Active
    ensures |c.parser.buffer| == |c.socket.received| - c.parser.reclaimed
  {
    hide Wire, Replies, ParseOne, Taken, Scanned, SkipEmptyLines, Lean, Conn.Backlog, Conn.Answers, Conn.Delivers;
  }

  lemma MoreLetters(text: string, k: nat, more: nat)
    ensures text + Unended(k) + Unended(more) == text + Unended(k + more)
  {
  }

  /** Letters up to `hi`, then as many as one more recv may bring. */
  method Fill(c: Connection, text: string, lo: nat, hi: nat, now: int)
    requires Holds(c, text + Unended(lo)) && c.config.outputHighWater >= 1 && c.config.limits.maxHeaderBytes >= 1
    requires Scene(c.config.limits, c.service, text, hi) && |text| + 2 <= lo <= hi <= c.config.limits.MaxRequestBytes()
    requires text != "" && |text| + hi + RECV_CHUNK > c.config.limits.MaxRequestBytes()
    modifies c, c.parser, c.socket
    ensures c.Valid() && |c.parser.buffer| > c.config.limits.MaxRequestBytes()
  {
    hide Connection.Settled, Quiet, Consumed;
    var k := lo;
    while k < hi
      invariant lo <= k <= hi && Holds(c, text + Unended(k))
    {
      var more := if hi - k < RECV_CHUNK then hi - k else RECV_CHUNK;
      MoreLetters(text, k, more);
      Read(c, text + Unended(k), Unended(more), now);
      k := k + more;
    }
    var room := c.config.limits.MaxRequestBytes() - hi;
    if room == 0 {
      Ready(c, text + Unended(hi));
      c.SettledParts();
    } else {
      var last := if room < RECV_CHUNK then room else RECV_CHUNK;
      ReadLast(c, text + Unended(hi), Unended(last), now);
    }
  }

  lemma NothingConsumed(limits: Limits)
    ensures Consumed(limits, "", 0) == 0
  {
  }

  /** A new connection on a socket whose calls all succeed. */
  method Accept(config: Config, service: Service, id: nat, now: int) returns (c: Connection)
    ensures fresh(c) && fresh(c.parser) && fresh(c.socket)
    ensures Holds(c, "") && c.config == config && c.service == service && c.id == id
  {
    hide Conn.Inv, Conn.AtRest, View.Inv, View.Starved;
    var socket := new Socket(true, true, []);
    c := new Connection(socket, config, service, id, now);
  }

  /** A head in two reads: all but its last byte, then that and more letters than the head is long. */
  method ReadHead(c: Connection, m: Spelling, ghost n: nat, ghost hi: nat, now: int)
    requires Holds(c, "") && c.config.outputHighWater >= 1 && Fits(c.config.limits, m, n) && m.lead == ""
    requires Scene(c.config.limits, c.service, HeadOf(m), hi)
    requires 3 <= |HeadOf(m)| <= Least(RECV_CHUNK - 3, hi - 2)
    requires |HeadOf(m)| + RECV_CHUNK <= c.config.limits.MaxRequestBytes()
    modifies c, c.parser, c.socket
    ensures Holds(c, HeadOf(m) + Unended(|HeadOf(m)| + 2))
  {
    hide Connection.Settled, Quiet, Consumed, HeadOf, WellSpelled, BodyLength, HeadersOf;
    var text := HeadOf(m);
    var most, last := text[..|text| - 1], text[|text| - 1..];
    NothingConsumed(c.config.limits);
    PartStands(c.config.limits, m, n);
    PendingIsIncomplete(c.config.limits, most, 0);
    QuietAtOnce(c.config.limits, c.service, most);
    assert "" + most == most;
    Read(c, "", most, now);
    var letters := Unended(|text| + 2);
    assert most + (last + letters) == text + letters;
    Read(c, most, last + letters, now);
  }

  /**
   Under each of these settings there is a run in which the input buffer of a connection outgrows one maximal request.
   It keeps consumed bytes, empty lines, a request or a head, in front of more unread ones than they are; these grow to
   a head or a body as large as may be, and one more recv does it.
   */
  method OutgrowsOneRequest(config: Config, service: Service, id: nat, now: int, n: nat) returns (c: Connection)
    requires HeadOutgrows(config.limits) || BodyOutgrows(config.limits, n)
    requires config.limits.maxBodyBytes < SIZE_MODULUS && config.outputHighWater >= 1 && KeepsAlive(service)
    ensures fresh(c) && c.config == config && c.service == service && c.Valid()
    ensures |c.parser.buffer| > config.limits.MaxRequestBytes()
  {
    hide Connection.Settled, Quiet, Consumed, HeadOf, KeepsAlive, OfNat;
    var head, body := config.limits.maxHeaderBytes, config.limits.maxBodyBytes;
    c := Accept(config, service, id, now);
    if HeadOutgrows(config.limits) {
      var size := if body < RECV_CHUNK then 1 else body - RECV_CHUNK + 1;
      if 2 * size + 2 <= RECV_CHUNK {
        FillAfterNewlines(c, size, now);
      } else {
        FillAfterRequest(c, size, now);
      }
    } else if head >= 50 {
      CounterDigits(body);
      FillBody(c, Most(ShortestHead(body), head - RECV_CHUNK + 2), now);
    } else {
      var size := Most(ShortestHead(n), config.limits.MaxRequestBytes() - RECV_CHUNK - n + 2);
      if 2 * size + 2 <= RECV_CHUNK {
        FillBodyAfterNewlines(c, n, size, now);
      } else {
        FillBodyAfterRequest(c, n, size, now);
      }
    }
  }

  function Most(a: int, b: int): int {
    if a < b then b else a
  }

  /** Empty lines, then a head that grows to the limit. */
  method FillAfterNewlines(c: Connection, size: nat, now: int)
    requires Holds(c, "") && c.config.outputHighWater >= 1
    requires 1 <= size <= c.config.limits.maxHeaderBytes - 2 && 2 * size + 2 <= RECV_CHUNK
    requires 2 * size + 2 <= c.config.limits.MaxRequestBytes() && c.config.limits.maxBodyBytes < size + RECV_CHUNK
    modifies c, c.parser, c.socket
    ensures c.Valid() && |c.parser.buffer| > c.config.limits.MaxRequestBytes()
  {
    hide Connection.Settled, Quiet, Consumed;
    var text := Newlines(size);
    NewlineScene(c.config.limits, c.service, size);
    NothingConsumed(c.config.limits);
    assert "" + (text + Unended(size + 2)) == text + Unended(size + 2);
    Read(c, "", text + Unended(size + 2), now);
    Fill(c, text, size + 2, c.config.limits.maxHeaderBytes, now);
  }

  /** A request, which is answered, then a head that grows to the limit. */
  method FillAfterRequest(c: Connection, size: nat, now: int)
    requires Holds(c, "") && c.config.outputHighWater >= 1 && KeepsAlive(c.service)
    requires 14 <= size <= Least(c.config.limits.maxHeaderBytes - 2, RECV_CHUNK - 3)
    requires c.config.limits.maxBodyBytes == size + RECV_CHUNK - 1
    modifies c, c.parser, c.socket
    ensures c.Valid() && |c.parser.buffer| > c.config.limits.MaxRequestBytes()
  {
    hide Connection.Settled, Quiet, Consumed, KeepsAlive;
    var m := Padded(size - 14, []);
    NoFields();
    PaddedSpelled(size - 14, []);
    PlainPersists(m);
    NoLength(c.config.limits.maxBodyBytes);
    hide HeadOf, Padded, WellSpelled, HeadersOf, BodyLength, Persists;
    HeadScene(c.config.limits, c.service, m);
    ReadHead(c, m, 0, c.config.limits.maxHeaderBytes, now);
    Fill(c, HeadOf(m), size + 2, c.config.limits.maxHeaderBytes, now);
  }

  lemma PlainPersists(m: Spelling)
    requires m.fields == [] && m.minor == '1'
    ensures Persists(RequestOf(m, 0))
  {
    hide Lists, HeadOf;
  }

  lemma NoLength(max: nat)
    ensures BodyLength(HeadersOf([]), max) == Ok(0)
  {
  }

  /** A head of this size that announces the largest body, which grows until one byte is missing. */
  method FillBody(c: Connection, size: nat, now: int)
    requires Holds(c, "") && c.config.outputHighWater >= 1
    requires Announceable(c.config.limits, c.config.limits.maxBodyBytes) && c.config.limits.maxBodyBytes > RECV_CHUNK
    requires ShortestHead(c.config.limits.maxBodyBytes) <= size <= Least(c.config.limits.maxHeaderBytes, RECV_CHUNK - 3)
    requires c.config.limits.maxHeaderBytes < size + RECV_CHUNK - 1
    modifies c, c.parser, c.socket
    ensures c.Valid() && |c.parser.buffer| > c.config.limits.MaxRequestBytes()
  {
    hide Connection.Settled, Quiet, Consumed, OfNat, HeadOf, Padded, LengthField, Fits;
    var n := c.config.limits.maxBodyBytes;
    var m := Padded(size - ShortestHead(n), [LengthField(n)]);
    PaddedFits(c.config.limits, n, size - ShortestHead(n));
    assert m.lead + HeadOf(m) == HeadOf(m);
    BodyScene(c.config.limits, c.service, m, n);
    ReadHead(c, m, n, n - 1, now);
    Fill(c, HeadOf(m), size + 2, n - 1, now);
  }

  /** The shortest head that announces a body of `n` bytes, with the last of them missing. */
  ghost predicate Small(c: Connection, n: nat, size: nat)
    reads c
  {
    var limits := c.config.limits;
    && Announceable(limits, n) && limits.maxBodyBytes > RECV_CHUNK
    && ShortestHead(n) <= size <= n - 3 && limits.MaxRequestBytes() < size + n - 1 + RECV_CHUNK
  }

  /** Empty lines and a head in one read. */
  method FillBodyAfterNewlines(c: Connection, n: nat, size: nat, now: int)
    requires Holds(c, "") && c.config.outputHighWater >= 1 && Small(c, n, size) && 2 * size + 2 <= RECV_CHUNK
    modifies c, c.parser, c.socket
    ensures c.Valid() && |c.parser.buffer| > c.config.limits.MaxRequestBytes()
  {
    hide Connection.Settled, Quiet, Consumed, OfNat;
    var m := Padded(0, [LengthField(n)]).(lead := Newlines(size - ShortestHead(n)));
    LengthFieldGood(n, c.config.limits.maxBodyBytes);
    PaddedSpelled(0, [LengthField(n)]);
    OnlyNewlines(size - ShortestHead(n));
    assert m.fields == [LengthField(n)] && WellSpelled(m) && |HeadOf(m)| == ShortestHead(n);
    hide HeadOf, Padded, WellSpelled, HeadersOf, BodyLength, LengthField;
    BodyScene(c.config.limits, c.service, m, n);
    var text := m.lead + HeadOf(m);
    NothingConsumed(c.config.limits);
    assert "" + (text + Unended(size + 2)) == text + Unended(size + 2);
    Read(c, "", text + Unended(size + 2), now);
    Fill(c, text, size + 2, n - 1, now);
  }

  /** A request with a body, which is answered, then a head. */
  method FillBodyAfterRequest(c: Connection, n: nat, size: nat, now: int)
    requires Holds(c, "") && c.config.outputHighWater >= 1 && KeepsAlive(c.service) && Small(c, n, size)
    requires c.config.limits.maxHeaderBytes < 50 && RECV_CHUNK < 2 * size + 2
    requires size + ShortestHead(n) + 3 <= RECV_CHUNK
    requires 2 * size + RECV_CHUNK <= c.config.limits.MaxRequestBytes() + 50
    modifies c, c.parser, c.socket
    ensures c.Valid() && |c.parser.buffer| > c.config.limits.MaxRequestBytes()
  {
    hide Connection.Settled, Quiet, Consumed, KeepsAlive, OfNat, Padded, PaddedRequest, HeadOf, TextOf, Fits, Persists,
         WellSpelled, WithinLimits, LengthField;
    var b := size - 2 * ShortestHead(n);
    DigitsGrow(b, n);
    PaddedFits(c.config.limits, n, 0);
    RequestFits(c.config.limits, |OfNat(n)| - |OfNat(b)|, b);
    var m, first := Padded(0, [LengthField(n)]), PaddedRequest(|OfNat(n)| - |OfNat(b)|, b);
    SecondBodyScene(c.config.limits, c.service, first, m, n);
    FillAfter(c, first, b, HeadOf(m), size, n - 1, now);
  }

  method FillAfter(c: Connection, first: Spelling, ghost b: nat, text: string, size: nat, hi: nat, now: int)
    requires Holds(c, "") && c.config.outputHighWater >= 1 && c.config.limits.maxHeaderBytes >= 1
    requires Fits(c.config.limits, first, b) && first.lead == "" && TextOf(first) == HeadOf(first) + Unended(b)
    requires b >= |HeadOf(first)| + 3 && |TextOf(first)| + |text| == size && |text| + size + 3 <= RECV_CHUNK
    requires b + |text| + size + 2 <= c.config.limits.MaxRequestBytes()
    requires size + 2 <= hi <= c.config.limits.MaxRequestBytes()
    requires Scene(c.config.limits, c.service, TextOf(first) + text, hi)
    requires size + hi + RECV_CHUNK > c.config.limits.MaxRequestBytes()
    modifies c, c.parser, c.socket
    ensures c.Valid() && |c.parser.buffer| > c.config.limits.MaxRequestBytes()
  {
    hide Connection.Settled, Quiet, Consumed, HeadOf, TextOf, Fits;
    var whole, letters := TextOf(first) + text, Unended(size + 2);
    assert TextOf(first) + (text + letters) == whole + letters;
    ReadRequest(c, first, b, text + letters, now);
    Fill(c, whole, size + 2, hi, now);
  }

  lemma PaddedFits(limits: Limits, n: nat, f: nat)
    requires Announceable(limits, n) && ShortestHead(n) + f <= limits.maxHeaderBytes
    ensures var m := Padded(f, [LengthField(n)]);
            Fits(limits, m, n) && m.lead == "" && |HeadOf(m)| == ShortestHead(n) + f
  {
    hide OfNat;
    LengthFieldGood(n, limits.maxBodyBytes);
    PaddedSpelled(f, [LengthField(n)]);
    assert Padded(f, [LengthField(n)]).fields == [LengthField(n)];
    hide HeadOf, WellSpelled, BodyLength, HeadersOf;
  }

  function PaddedRequest(f: nat, b: nat): Spelling {
    Padded(f, [LengthField(b)]).(body := Unended(b))
  }

  lemma DigitsGrow(a: nat, b: nat)
    requires a <= b
    ensures |OfNat(a)| <= |OfNat(b)|
  {
    ValueInvertsOfNat(b);
    OfNatShort(a, OfNat(b));
  }

  lemma RequestFits(limits: Limits, f: nat, b: nat)
    requires 1 <= b <= limits.maxBodyBytes && b < SIZE_MODULUS
    requires limits.maxHeaderCount >= 1 && ShortestHead(b) + f <= limits.maxHeaderBytes
    ensures var first := PaddedRequest(f, b);
            && WellSpelled(first) && WithinLimits(limits, first) && Fits(limits, first, b)
            && Persists(RequestOf(first, 0))
            && first.lead == "" && |HeadOf(first)| == ShortestHead(b) + f
            && TextOf(first) == HeadOf(first) + Unended(b)
  {
    hide OfNat, Announces, Persists;
    LengthFieldGood(b, limits.maxBodyBytes);
    PaddedSpelled(f, [LengthField(b)]);
    var first := PaddedRequest(f, b);
    assert first.fields == [LengthField(b)];
    SameHead(Padded(f, [LengthField(b)]));
    SameSpelling(Padded(f, [LengthField(b)]), Unended(b));
    hide HeadOf, WellSpelled, BodyLength;
    assert first.lead + HeadOf(first) == HeadOf(first);
    LengthPersists(RequestOf(first, 0), b);
  }

  lemma LengthPersists(r: Request, b: nat)
    requires r.headers == HeadersOf([LengthField(b)]) && r.version == Http11
    ensures Persists(r)
  {
    hide OfNat, Persists;
    assert |r.headers| == 1 && |r.headers[0].name| == 14;
    PersistsIff(r);
  }

  /** Without its last byte its body is awaited, and its head consumed. */
  lemma MostAwaited(limits: Limits, service: Service, first: Spelling, b: nat)
    requires Fits(limits, first, b) && first.lead == "" && TextOf(first) == HeadOf(first) + Unended(b) && b >= 1
    ensures var most := TextOf(first)[..|TextOf(first)| - 1];
            Quiet(limits, service, most) && Consumed(limits, most, 0) == |HeadOf(first)|
  {
    hide Quiet, Consumed, HeadOf, TextOf, WellSpelled, BodyLength, HeadersOf, HeadAt;
    var most := TextOf(first)[..|TextOf(first)| - 1];
    AtFront(most, HeadOf(first));
    assert first.lead + HeadOf(first) == HeadOf(first);
    HeadStands(limits, first, b, most, 0);
    BodyIsAwaited(limits, most, 0);
    QuietAtOnce(limits, service, most);
  }

  lemma Rejoined(whole: string, text: string)
    requires whole != ""
    ensures whole[..|whole| - 1] + (whole[|whole| - 1..] + text) == whole + text
  {
  }

  /** A request in two reads: all but its last byte, then that and more. */
  method ReadRequest(c: Connection, first: Spelling, ghost b: nat, text: string, now: int)
    requires Holds(c, "") && c.config.outputHighWater >= 1 && c.config.limits.maxHeaderBytes >= 1
    requires Fits(c.config.limits, first, b) && first.lead == "" && TextOf(first) == HeadOf(first) + Unended(b)
    requires b >= |HeadOf(first)| + 3 && |TextOf(first)| <= RECV_CHUNK && 1 + |text| <= RECV_CHUNK
    requires b + |text| <= c.config.limits.MaxRequestBytes() && |TextOf(first)| <= c.config.limits.MaxRequestBytes()
    requires Quiet(c.config.limits, c.service, TextOf(first) + text)
    modifies c, c.parser, c.socket
    ensures Holds(c, TextOf(first) + text)
  {
    hide Connection.Settled, Quiet, Consumed, HeadOf, TextOf, Fits, Unended;
    MostAwaited(c.config.limits, c.service, first, b);
    assert |Unended(b)| == b by { UnendedLength(b); }
    var whole := TextOf(first);
    var most, last := whole[..|whole| - 1], whole[|whole| - 1..];
    NothingConsumed(c.config.limits);
    assert "" + most == most;
    Read(c, "", most, now);
    Rejoined(whole, text);
    Read(c, most, last + text, now);
  }

  lemma UnendedLength(b: nat)
    ensures |Unended(b)| == b
  {
  }

  // ---------------------------------------------------------------- the exact settings

  /** In every state of every run one maximal request is enough, unless the settings are such and input is read. */
  lemma WithinOneRequest(config: Config, service: Service, id: nat, c: Conn)
    requires c.Inv(config, service, id)
    ensures || |c.parser.buffer| <= config.limits.MaxRequestBytes()
            || (Outgrows(config.limits) && config.outputHighWater >= 1)
  {
    hide Wire, Replies, ParseOne, Taken, Scanned, SkipEmptyLines, Consumed, Outgrows, Conn.Backlog, Conn.Answers,
         Conn.Delivers, Conn.InPhase;
  }

  /** The default settings are such. */
  lemma DefaultsOutgrow()
    ensures Outgrows(DEFAULT_CONFIG.limits) && DEFAULT_CONFIG.outputHighWater >= 1
  {
    hide Outgrows;
    OutgrowsUsually(DEFAULT_CONFIG.limits);
  }
}
