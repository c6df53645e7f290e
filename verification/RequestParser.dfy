/**
 The incremental parser (src/request_parser.cpp:163-320): a growing buffer with a consumed
 prefix, a search that resumes where it stopped, and a half-parsed request waiting for its
 body. Its contract is the pure parse of everything ever fed to it.
 */
module RequestParsing {
  import opened Text
  import opened Messages
  import opened HeadGrammar
  import opened Framing

  datatype State = AwaitHead | AwaitBody | Failed

  lemma {:induction false} HeaderErrorIsFirst(lines: seq<string>, k: nat)
    requires NoEmptyLine(lines) && k <= |lines| && ParseHeaders(lines[..k]).Err?
    ensures ParseHeaders(lines) == ParseHeaders(lines[..k])
    decreases |lines|
  {
    hide ParseHeaderLine;
    if k == |lines| {
      assert lines[..k] == lines;
    } else {
      var n := |lines| - 1;
      assert lines[..n][..k] == lines[..k];
      HeaderErrorIsFirst(lines[..n], k);
    }
  }

  /** Collects the lines of a head; the empty line that stops it is the last thing in the head. */
  method SplitLines(head: string) returns (lines: seq<string>)
    requires SplitHead(head, 0).Some? && SplitHead(head, 0).value.end == |head|
    ensures lines == SplitHead(head, 0).value.lines
  {
    hide StripCR;
    ghost var all := SplitHead(head, 0).value.lines;
    lines := [];
    var pos := 0;
    while pos < |head|
      invariant pos <= |head|
      invariant SplitHead(head, pos).Some? && lines + SplitHead(head, pos).value.lines == all
    {
      var newline := Find(head, '\n', pos);
      var line := StripCR(head[pos..newline]);
      ghost var rest := SplitHead(head, pos).value.lines;
      pos := newline + 1;
      if line == "" {
        assert rest == [];
        break;
      }
      assert rest == [line] + SplitHead(head, pos).value.lines;
      lines := lines + [line];
    }
  }

  method ParseHead(limits: Limits, head: string) returns (r: Result<Head, ParseError>)
    requires SplitHead(head, 0).Some? && SplitHead(head, 0).value.end == |head|
    ensures r == ParseLines(limits, SplitHead(head, 0).value.lines)
  {
    hide ParseRequestLine, BodyLength, ParseHeaderLine;
    var lines := SplitLines(head);
    if lines == [] {
      return Err(MissingRequestLine);
    }
    if |lines| - 1 > limits.maxHeaderCount {
      return Err(TooManyHeaders(limits.maxHeaderCount));
    }
    var requestLine := ParseRequestLine(lines[0]);
    if requestLine.Err? {
      return Err(requestLine.error);
    }
    var fields := lines[1..];
    var headers := [];
    var i := 0;
    while i < |fields|
      invariant i <= |fields| && ParseHeaders(fields[..i]) == Ok(headers)
    {
      var h := ParseHeaderLine(fields[i]);
      assert fields[..i + 1][..i] == fields[..i];
      if h.Err? {
        HeaderErrorIsFirst(fields, i + 1);
        return Err(h.error);
      }
      headers := headers + [h.value];
      i := i + 1;
    }
    assert fields[..i] == fields;
    var length := DetermineBodyLength(headers, limits.maxBodyBytes);
    r := match length
         case Err(e) => Err(e)
         case Ok(n) => Ok(Head(requestLine.value, headers, n));
  }

  // ---------------------------------------------------------------- what the parser's fields mean

  /** The fields of a parser as one value: `fed` and below are what they are measured against. */
  datatype View = View(
    state: State,
    buffer: string,
    start: nat,
    scanFrom: nat,
    streamOffset: nat,
    pending: Request,
    bodyLength: nat,
    error: ParseError,
    fed: string,
    taken: seq<Request>,
    base: nat,
    failedAt: nat,
    reclaimed: nat,
    moved: nat,
    searches: nat,
    examined: nat)
  {
    function Shift(): int {
      streamOffset - start
    }

    function Buffered(): int {
      |buffer| - start
    }

    predicate HasPartialRequest() {
      state == AwaitBody || Buffered() > 0
    }

    /** The buffer is a suffix of the stream, and `start` is position `streamOffset` of it. */
    ghost predicate Window() {
      && start <= scanFrom <= |buffer| && 0 <= Shift()
      && Shift() + |buffer| == |fed|
      && buffer == fed[Shift()..]
    }

    /** Between requests: only empty lines skipped, and no head end overlooked before `scanFrom`. */
    ghost predicate AtHead() {
      && Window() && base <= streamOffset
      && SkipEmptyLines(fed, base) == SkipEmptyLines(fed, streamOffset)
      && Scanned(fed, streamOffset, Shift() + scanFrom)
    }

    /** A head is parsed and `streamOffset` is where its body starts. */
    ghost predicate AtBody(limits: Limits) {
      && Window() && base <= |fed| && scanFrom == start
      && var h := HeadAt(limits, fed, base);
      && h.HeadDone? && h.end == streamOffset && h.head.bodyLength == bodyLength
      && pending == PendingRequest(h.head, h.begin, h.end)
    }

    ghost predicate AtFailure(limits: Limits) {
      && buffer == "" && start == scanFrom == 0
      && base <= failedAt <= |fed|
      && ParseOne(limits, fed[..failedAt], base) == Error(error)
    }

    /** Compaction moves at most two bytes per byte consumed; the search looks at three per byte it moves over. */
    ghost predicate Costs() {
      && moved <= 2 * reclaimed && reclaimed <= streamOffset <= |fed|
      && examined <= 3 * (|fed| + searches)
      && (state != Failed ==> reclaimed + start == streamOffset && examined <= 3 * (Shift() + scanFrom + searches))
    }

    ghost predicate Resting(limits: Limits) {
      match state
      case AwaitHead => AtHead()
      case AwaitBody => AtBody(limits)
      case Failed => AtFailure(limits)
    }

    ghost predicate Inv(limits: Limits) {
      && base <= |fed| && Taken(limits, fed, 0, taken, base)
      && Resting(limits) && Costs()
    }

    /** Nothing to return until more bytes are fed; what is buffered is then bounded. */
    ghost predicate Starved(limits: Limits) {
      && base <= |fed| && ParseOne(limits, fed, base) == Incomplete
      && (state == AwaitHead ==>
            && Buffered() <= limits.maxHeaderBytes
            && streamOffset == SkipEmptyLines(fed, base) && HeadAt(limits, fed, base) == HeadPending)
      && (state == AwaitBody ==> Buffered() < bodyLength <= limits.maxBodyBytes)
      && state != Failed
    }

    /** What follows the requests taken is more than empty lines. */
    ghost predicate Begun() {
      base <= |fed| && !OnlyEmptyLines(fed[base..])
    }

    /** What a failure keeps. */
    ghost predicate Accounted(limits: Limits) {
      && base <= |fed| && Taken(limits, fed, 0, taken, base)
      && moved <= 2 * reclaimed && reclaimed <= streamOffset <= |fed|
      && examined <= 3 * (|fed| + searches)
    }

    /** A head of `size` bytes lies at `streamOffset`, parsed but not consumed. */
    ghost predicate HeadReady(limits: Limits, size: nat, head: Head) {
      && Accounted(limits) && Window()
      && start + size <= |buffer| && scanFrom <= start + size
      && HeadAt(limits, fed, base) == HeadDone(head, streamOffset, streamOffset + size)
      && reclaimed + start == streamOffset && examined <= 3 * (streamOffset + size + searches)
    }

    /** Without its first `d` buffered bytes, at the cost of moving `cost` others. */
    function Erased(d: nat, cost: nat): View
      requires d <= start <= scanFrom <= |buffer|
    {
      this.(buffer := buffer[d..], start := start - d, scanFrom := scanFrom - d,
            reclaimed := reclaimed + d, moved := moved + cost)
    }

    function Consumed(count: nat): View {
      var to := start + count;
      this.(start := to, streamOffset := streamOffset + count, scanFrom := if scanFrom < to then to else scanFrom)
    }
  }

  const NO_REQUEST := Request("", "", Http11, [], "", 0, 0, 0)

  /** A parser that has seen nothing. */
  function FreshView(): View {
    View(AwaitHead, "", 0, 0, 0, NO_REQUEST, 0, MissingRequestLine, "", [], 0, 0, 0, 0, 0, 0)
  }

  lemma FreshInv(limits: Limits)
    ensures FreshView().Inv(limits)
  {
    hide View.AtHead, View.AtBody, View.AtFailure;
    FreshAtHead();
  }

  lemma FreshAtHead()
    ensures FreshView().AtHead()
  {
    hide SkipEmptyLines;
  }

  function PendingRequest(head: Head, begin: nat, end: nat): Request
    requires begin <= end
  {
    Request(head.line.verb, head.line.target, head.line.version, head.headers, "", begin, 0, end - begin)
  }

  // ---------------------------------------------------------------- feeding

  lemma WindowErased(v: View, d: nat, cost: nat)
    requires v.Window() && d <= v.start
    ensures var w := v.Erased(d, cost);
            w.Window() && w.Shift() == v.Shift() + d && w.Shift() + w.scanFrom == v.Shift() + v.scanFrom
  {
    assert v.fed[v.Shift()..][d..] == v.fed[v.Shift() + d..];
  }

  lemma HeadErased(v: View, d: nat, cost: nat)
    requires v.AtHead() && v.base <= |v.fed| && d <= v.start
    ensures v.start <= v.scanFrom <= |v.buffer| && v.Erased(d, cost).AtHead()
  {
    hide View.Window, SkipEmptyLines, Scanned;
    WindowBounds(v);
    WindowErased(v, d, cost);
  }

  lemma BodyErased(limits: Limits, v: View, d: nat, cost: nat)
    requires v.AtBody(limits) && d <= v.start
    ensures v.start <= v.scanFrom <= |v.buffer| && v.Erased(d, cost).AtBody(limits)
  {
    hide View.Window, HeadAt;
    WindowBounds(v);
    WindowErased(v, d, cost);
  }

  lemma WindowBounds(v: View)
    requires v.Window()
    ensures v.start <= v.scanFrom <= |v.buffer|
  {
  }

  /** Erasing `d` consumed bytes changes nothing but where the buffer begins. */
  lemma ErasePrefix(limits: Limits, v: View, d: nat, cost: nat)
    requires v.Inv(limits) && v.state != Failed && d <= v.start && cost <= 2 * d
    ensures v.start <= v.scanFrom <= |v.buffer| && v.Erased(d, cost).Inv(limits)
  {
    hide Taken, View.AtHead, View.AtBody, View.AtFailure;
    if v.state == AwaitHead {
      HeadErased(v, d, cost);
    } else {
      BodyErased(limits, v, d, cost);
    }
  }

  lemma WindowGrows(v: View, bytes: string)
    requires v.Window()
    ensures v.(buffer := v.buffer + bytes, fed := v.fed + bytes).Window()
  {
    assert (v.fed + bytes)[v.Shift()..] == v.fed[v.Shift()..] + bytes;
  }

  lemma HeadGrows(v: View, bytes: string)
    requires v.AtHead() && v.base <= |v.fed|
    ensures v.(buffer := v.buffer + bytes, fed := v.fed + bytes).AtHead()
  {
    WindowGrows(v, bytes);
    hide SkipEmptyLines, Scanned;
    SkipStable(v.fed, bytes, v.base);
    SkipStable(v.fed, bytes, v.streamOffset);
    ScannedStable(v.fed, bytes, v.streamOffset, v.Shift() + v.scanFrom);
  }

  lemma BodyGrows(limits: Limits, v: View, bytes: string)
    requires v.AtBody(limits)
    ensures v.(buffer := v.buffer + bytes, fed := v.fed + bytes).AtBody(limits)
  {
    WindowGrows(v, bytes);
    hide HeadAt, View.Window;
    HeadDoneStable(limits, v.fed, bytes, v.base);
  }

  lemma FailureGrows(limits: Limits, v: View, bytes: string)
    requires v.AtFailure(limits)
    ensures v.(fed := v.fed + bytes).AtFailure(limits)
  {
    hide ParseOne;
    assert (v.fed + bytes)[..v.failedAt] == v.fed[..v.failedAt];
  }

  lemma AppendBytes(limits: Limits, v: View, bytes: string)
    requires v.Inv(limits)
    ensures v.state != Failed ==> v.(buffer := v.buffer + bytes, fed := v.fed + bytes).Inv(limits)
    ensures v.state == Failed ==> v.(fed := v.fed + bytes).Inv(limits)
  {
    hide Taken, View.AtHead, View.AtBody, View.AtFailure;
    TakenStable(limits, v.fed, bytes, 0, v.taken, v.base);
    match v.state
    case AwaitHead => HeadGrows(v, bytes);
    case AwaitBody => BodyGrows(limits, v, bytes);
    case Failed => FailureGrows(limits, v, bytes);
  }

  // ---------------------------------------------------------------- taking a request

  lemma EmptyLineSkipped(v: View, count: nat)
    requires v.AtHead() && v.base <= |v.fed| && v.streamOffset < |v.fed|
    requires StartsLine(v.fed, v.streamOffset) == Empty(v.streamOffset + count)
    ensures v.Consumed(count).AtHead()
  {
    hide SkipEmptyLines, StartsLine;
    SkipOne(v.fed, v.streamOffset, v.streamOffset + count);
  }

  lemma SkipOne(s: string, i: nat, next: nat)
    requires i < |s| && StartsLine(s, i) == Empty(next)
    ensures next <= |s| && SkipEmptyLines(s, i) == SkipEmptyLines(s, next)
  {
  }

  /** Consuming an empty line in front of a request. */
  lemma ConsumeEmptyLine(limits: Limits, v: View, count: nat)
    requires v.Inv(limits) && v.state == AwaitHead && v.streamOffset < |v.fed|
    requires StartsLine(v.fed, v.streamOffset) == Empty(v.streamOffset + count)
    ensures v.Consumed(count).Inv(limits)
  {
    EmptyLineSkipped(v, count);
    hide Taken, StartsLine, View.AtHead, View.AtBody, View.AtFailure;
  }

  /** No head end in the stream yet: too much is an error, otherwise wait. */
  lemma HeadMissing(limits: Limits, v: View)
    requires v.Inv(limits) && v.state == AwaitHead
    requires v.streamOffset == SkipEmptyLines(v.fed, v.base) && HeadEnd(v.fed, v.streamOffset) == None
    ensures HeadAt(limits, v.fed, v.base)
         == if v.Buffered() > limits.maxHeaderBytes then HeadBad(HeadTooLarge(limits.maxHeaderBytes)) else HeadPending
    ensures v.Accounted(limits) && v.start <= |v.buffer|
  {
    hide SkipEmptyLines, SplitHead, ParseLines, Taken;
  }

  /** The head ends `size` bytes on: its own bytes decide everything about it. */
  lemma HeadFound(limits: Limits, v: View, size: nat)
    requires v.Inv(limits) && v.state == AwaitHead
    requires v.streamOffset == SkipEmptyLines(v.fed, v.base)
    requires HeadEnd(v.fed, v.streamOffset) == Some(v.streamOffset + size)
    ensures v.start + size <= |v.buffer|
    ensures var head := v.buffer[v.start..v.start + size];
            && SplitHead(head, 0).Some? && SplitHead(head, 0).value.end == |head|
            && HeadAt(limits, v.fed, v.base) ==
               if size > limits.maxHeaderBytes then HeadBad(HeadTooLarge(limits.maxHeaderBytes)) else
               match ParseLines(limits, SplitHead(head, 0).value.lines)
               case Err(e) => HeadBad(e)
               case Ok(h) => HeadDone(h, v.streamOffset, v.streamOffset + size)
  {
    hide SkipEmptyLines, SplitHead, ParseLines, Taken, Scanned;
    SplitWindow(v.fed, v.streamOffset);
    WindowSlice(v, size);
  }

  /** What the search has cost by the time it finds the head. */
  lemma FoundAccounted(limits: Limits, v: View, size: nat, searches: nat, examined: nat)
    requires v.Inv(limits) && v.state == AwaitHead && v.start + size <= |v.buffer| && v.scanFrom <= v.start + size
    requires v.base <= |v.fed| && examined <= 3 * (v.streamOffset + size + searches)
    ensures var w := v.(searches := searches, examined := examined);
            && w.Accounted(limits)
            && forall head: Head |
                 HeadAt(limits, v.fed, v.base) == HeadDone(head, v.streamOffset, v.streamOffset + size) ::
                 w.HeadReady(limits, size, head)
  {
    hide HeadAt, Taken, SkipEmptyLines, Scanned;
  }

  lemma WindowSlice(v: View, size: nat)
    requires v.Window() && v.streamOffset + size <= |v.fed|
    ensures v.start + size <= |v.buffer|
    ensures v.buffer[v.start..v.start + size] == v.fed[v.streamOffset..v.streamOffset + size]
  {
  }

  lemma WindowByte(v: View, k: nat)
    requires v.Window() && v.start + k < |v.buffer|
    ensures v.streamOffset + k < |v.fed| && v.fed[v.streamOffset + k] == v.buffer[v.start + k]
  {
  }

  lemma FailWith(limits: Limits, v: View, e: ParseError)
    requires v.Accounted(limits) && ParseOne(limits, v.fed, v.base) == Error(e)
    ensures v.(state := Failed, error := e, buffer := "", start := 0, scanFrom := 0, failedAt := |v.fed|).Inv(limits)
  {
    hide Taken, ParseOne;
    assert v.fed[..|v.fed|] == v.fed;
  }

  /** No usable head, no request. */
  lemma HeadDecides(limits: Limits, s: string, i: nat)
    requires i <= |s|
    ensures HeadAt(limits, s, i) == HeadPending ==> ParseOne(limits, s, i) == Incomplete
    ensures forall e | HeadAt(limits, s, i) == HeadBad(e) :: ParseOne(limits, s, i) == Error(e)
  {
    hide HeadAt;
  }

  lemma StarvedAtHead(limits: Limits, v: View)
    requires v.state == AwaitHead && v.Buffered() <= limits.maxHeaderBytes
    requires v.base <= |v.fed| && ParseOne(limits, v.fed, v.base) == Incomplete
    requires v.streamOffset == SkipEmptyLines(v.fed, v.base) && HeadAt(limits, v.fed, v.base) == HeadPending
    ensures v.Starved(limits)
  {
  }

  /** A parser that has nothing to return holds part of a request exactly when one has been begun. */
  lemma PartialIffBegun(limits: Limits, v: View)
    requires v.Inv(limits) && v.Starved(limits)
    ensures v.HasPartialRequest() <==> v.Begun()
  {
    hide Taken, Scanned, ParseOne, SplitHead, ParseLines, OnlyEmptyLines, SkipEmptyLines;
    SkipsAllIff(v.fed, v.base);
  }

  lemma StarvedIncomplete(limits: Limits, v: View)
    requires v.Starved(limits)
    ensures v.base <= |v.fed| && ParseOne(limits, v.fed, v.base) == Incomplete
  {
  }

  /** It has taken every request of the stream. */
  lemma BegunIffUnfinished(limits: Limits, v: View)
    requires v.Inv(limits) && v.base <= |v.fed| && ParseOne(limits, v.fed, v.base) == Incomplete
    ensures v.Begun() <==> Unfinished(limits, v.fed)
  {
    hide Taken, View.Resting, View.Costs, ParseAll, ParseOne, OnlyEmptyLines;
    TakenIsParse(limits, v.fed, 0, v.taken, v.base);
    TakenEnds(limits, v.fed, 0, v.taken, v.base);
    ParseEnds(limits, v.fed, v.base);
    assert v.taken + [] == v.taken;
  }

  /** Moving past a parsed head: what remains of the request is its body. */
  lemma EnterBody(limits: Limits, v: View, size: nat, head: Head)
    requires v.HeadReady(limits, size, head)
    ensures var w := v.Consumed(size).(
              state := AwaitBody, bodyLength := head.bodyLength,
              pending := PendingRequest(head, v.streamOffset, v.streamOffset + size));
            w.Inv(limits)
  {
    hide Taken, HeadAt;
  }

  /** The whole body is buffered: the request is complete and the stream goes on after it. */
  lemma LeaveBody(limits: Limits, v: View)
    requires v.Inv(limits) && v.state == AwaitBody && v.bodyLength <= v.Buffered()
    ensures var body := v.buffer[v.start..v.start + v.bodyLength];
            var request := v.pending.(body := body, streamEnd := v.streamOffset + v.bodyLength);
            && ParseOne(limits, v.fed, v.base) == Complete(request)
            && v.Consumed(v.bodyLength).(state := AwaitHead, pending := NO_REQUEST, taken := v.taken + [request],
                                         base := request.streamEnd).Inv(limits)
  {
    hide Taken, HeadAt, SkipEmptyLines;
    var body := v.buffer[v.start..v.start + v.bodyLength];
    var request := v.pending.(body := body, streamEnd := v.streamOffset + v.bodyLength);
    WindowSlice(v, v.bodyLength);
    assert ParseOne(limits, v.fed, v.base) == Complete(request);
    TakenExtends(limits, v.fed, 0, v.taken, v.base, request);
  }

  /** Part of the body is still to come. */
  lemma BodyMissing(limits: Limits, v: View)
    requires v.Inv(limits) && v.state == AwaitBody && v.bodyLength > v.Buffered()
    ensures ParseOne(limits, v.fed, v.base) == Incomplete && v.bodyLength <= limits.maxBodyBytes
  {
    hide Taken;
    HeadLengthBounded(limits, v.fed, v.base);
    hide HeadAt;
  }

  lemma HeadLengthBounded(limits: Limits, s: string, i: nat)
    requires i <= |s| && HeadAt(limits, s, i).HeadDone?
    ensures HeadAt(limits, s, i).head.bodyLength <= limits.maxBodyBytes
  {
    hide SkipEmptyLines, SplitHead, ParseLines;
    BodyWithinLimit(limits, SplitHead(s, SkipEmptyLines(s, i)).value.lines);
  }

  // ---------------------------------------------------------------- the resumable search

  /** `s[shift..]` has its line ends where `s` has them. */
  lemma StartsSuffix(s: string, shift: nat, i: nat)
    requires shift + i <= |s|
    ensures match StartsLine(s[shift..], i)
            case Empty(next) => StartsLine(s, shift + i) == Empty(shift + next)
            case other => StartsLine(s, shift + i) == other
  {
  }

  lemma ScannedSuffix(s: string, shift: nat, lo: nat, hi: nat)
    requires lo <= hi && shift + hi <= |s|
    ensures Scanned(s[shift..], lo, hi) <==> Scanned(s, shift + lo, shift + hi)
  {
    hide StartsLine;
    var w := s[shift..];
    forall n | lo <= n < hi
      ensures w[n] == s[shift + n] && (StartsLine(w, n + 1).Text? <==> StartsLine(s, shift + n + 1).Text?)
    {
      StartsSuffix(s, shift, n + 1);
    }
    if Scanned(w, lo, hi) {
      forall n | shift + lo <= n < shift + hi && s[n] == '\n' ensures StartsLine(s, n + 1).Text? {
        assert w[n - shift] == s[n];
      }
    }
  }

  /** The tests the search makes on the bytes after a newline. */
  lemma StartsLineCases(s: string, i: nat)
    requires i <= |s|
    ensures StartsLine(s, i)
         == if i < |s| && s[i] == '\n' then Empty(i + 1)
            else if i + 1 < |s| && s[i] == '\r' && s[i + 1] == '\n' then Empty(i + 2)
            else if i == |s| || (i + 1 == |s| && s[i] == '\r') then Undecided
            else Text
  {
  }

  /** One step of the search, resumed at `pos`: what the newline found there says about the whole head. */
  lemma SearchStep(s: string, lo: nat, pos: nat)
    requires lo <= pos <= |s| && !StartsLine(s, lo).Empty? && Scanned(s, lo, pos)
    ensures var newline := Find(s, '\n', pos);
            && Scanned(s, lo, newline)
            && if newline == |s| then HeadEnd(s, lo) == None else
               match StartsLine(s, newline + 1)
               case Empty(next) => HeadEnd(s, lo) == Some(next)
               case Undecided => HeadEnd(s, lo) == None
               case Text => Scanned(s, lo, newline + 1)
  {
    hide HeadEnd, StartsLine, Find;
    ResumeSearch(s, lo, pos);
    var newline := Find(s, '\n', pos);
    if newline < |s| {
      LineStartDecides(s, newline + 1);
    }
  }

  /**
   Looks for the end of the head that starts at `lo`, from `from` on. An unsuccessful search says where the next one
   may start. It looks at every byte it moves over and at most two bytes after each newline.
   */
  method SearchHeadEnd(s: string, from: nat, ghost lo: nat) returns (end: Option<nat>, resume: nat, ghost looked: nat)
    requires lo <= from <= |s| && !StartsLine(s, lo).Empty? && Scanned(s, lo, from)
    ensures end == HeadEnd(s, lo)
    ensures end.Some? ==> from < end.value <= |s| && looked <= 3 * (end.value - from)
    ensures end.None? ==> from <= resume <= |s| && Scanned(s, lo, resume) && looked <= 3 * (resume - from) + 3
  {
    hide HeadEnd, StartsLine, Find, Scanned;
    looked := 0;
    var pos := from;
    while true
      invariant from <= pos <= |s| && Scanned(s, lo, pos) && looked <= 3 * (pos - from)
      decreases |s| - pos
    {
      SearchStep(s, lo, pos);
      var newline := Find(s, '\n', pos);
      if newline == |s| {
        looked := looked + (|s| - pos);
        return None, |s|, looked;
      }
      var nextLine := newline + 1;
      looked := looked + (nextLine - pos) + if nextLine + 2 <= |s| then 2 else |s| - nextLine;
      StartsLineCases(s, nextLine);
      if nextLine < |s| && s[nextLine] == '\n' {
        return Some(nextLine + 1), 0, looked;
      }
      if nextLine + 1 < |s| && s[nextLine] == '\r' && s[nextLine + 1] == '\n' {
        return Some(nextLine + 2), 0, looked;
      }
      var undecided := nextLine == |s| || (nextLine + 1 == |s| && s[nextLine] == '\r');
      if undecided {
        return None, newline, looked;
      }
      pos := nextLine;
    }
  }

  /** The parser's buffer is a suffix of the stream: what a search of it finds is where the stream's head ends. */
  lemma SearchedBuffer(v: View)
    requires v.Window() && !StartsLine(v.fed, v.streamOffset).Empty?
    requires Scanned(v.fed, v.streamOffset, v.Shift() + v.scanFrom)
    ensures !StartsLine(v.buffer, v.start).Empty? && Scanned(v.buffer, v.start, v.scanFrom)
    ensures HeadEnd(v.fed, v.streamOffset)
         == match HeadEnd(v.buffer, v.start) case None => None case Some(end) => Some(v.Shift() + end)
    ensures forall hi: nat | v.start <= hi <= |v.buffer| && Scanned(v.buffer, v.start, hi) ::
              Scanned(v.fed, v.streamOffset, v.Shift() + hi)
  {
    hide HeadEnd, StartsLine, Scanned;
    StartsSuffix(v.fed, v.Shift(), v.start);
    ScannedSuffix(v.fed, v.Shift(), v.start, v.scanFrom);
    HeadEndSuffix(v.fed, v.Shift(), v.start);
    forall hi: nat | v.start <= hi <= |v.buffer| && Scanned(v.buffer, v.start, hi)
      ensures Scanned(v.fed, v.streamOffset, v.Shift() + hi)
    {
      ScannedSuffix(v.fed, v.Shift(), v.start, hi);
    }
  }

  /** Where an unsuccessful search stops is where the next one may start. */
  lemma SearchStopped(limits: Limits, v: View, scan: nat, looked: nat)
    requires v.Inv(limits) && v.state == AwaitHead && v.scanFrom <= scan <= |v.buffer|
    requires Scanned(v.fed, v.streamOffset, v.Shift() + scan)
    requires looked <= 3 * (scan - v.scanFrom) + 3
    ensures v.(scanFrom := scan, examined := v.examined + looked, searches := v.searches + 1).Inv(limits)
  {
    hide Taken, SkipEmptyLines, Scanned;
  }

  // ---------------------------------------------------------------- the parser

  class RequestParser {
    const limits: Limits
    var state: State
    var buffer: string
    var start: nat          // how much of the buffer is consumed
    var scanFrom: nat       // everything before this has been searched
    var streamOffset: nat   // how much of the stream is consumed
    var pending: Request    // what a parsed head says, while its body arrives
    var bodyLength: nat
    var error: ParseError

    ghost var fed: string         // every byte ever fed
    ghost var taken: seq<Request> // every request ever returned
    ghost var base: nat           // stream position where the last of them ended
    ghost var failedAt: nat       // how many bytes had been fed when the parse failed
    ghost var reclaimed: nat      // consumed bytes erased from the buffer
    ghost var moved: nat          // bytes moved by those erasures
    ghost var searches: nat       // calls to the head search
    ghost var examined: nat       // bytes those searches looked through

    function Buffered(): int
      reads this
    {
      |buffer| - start
    }

    predicate HasPartialRequest()
      reads this
    {
      state == AwaitBody || Buffered() > 0
    }

    ghost function AsView(): View
      reads this
    {
      View(state, buffer, start, scanFrom, streamOffset, pending, bodyLength, error,
           fed, taken, base, failedAt, reclaimed, moved, searches, examined)
    }

    ghost predicate Valid()
      reads this
    {
      Whole(AsView().Inv(limits) && (state == AwaitBody ==> bodyLength >= 1))
    }

    /** The invariant while a head has just been taken: its body may be empty. */
    ghost predicate Consistent()
      reads this
    {
      Whole(AsView().Inv(limits))
    }

    ghost predicate Starved()
      reads this
    {
      AsView().Starved(limits)
    }

    ghost predicate Begun()
      reads this
    {
      AsView().Begun()
    }

    constructor (limits: Limits)
      ensures Valid() && this.limits == limits
      ensures AsView() == FreshView()
    {
      this.limits := limits;
      state := AwaitHead;
      buffer, start, scanFrom, streamOffset := "", 0, 0, 0;
      pending := NO_REQUEST;
      bodyLength := 0;
      error := MissingRequestLine;
      fed, taken, base, failedAt := "", [], 0, 0;
      reclaimed, moved, searches, examined := 0, 0, 0, 0;
      new;
      hide View.Inv;
      FreshInv(limits);
    }

    /** Nothing is unread, or at least half of the buffer is consumed. */
    predicate Due()
      reads this
    {
      start == |buffer| || start >= |buffer| / 2
    }

    /** Drops the consumed prefix, but only when it is at least half the buffer. */
    method Compact()
      requires Valid() && state != Failed
      modifies `buffer, `start, `scanFrom, `reclaimed, `moved
      ensures Valid()
      ensures Buffered() == old(Buffered()) && reclaimed == old(reclaimed) + old(start) - start
      ensures start == if old(Due()) then 0 else old(start)
    {
      hide View.Inv, View.Window;
      ghost var v := AsView();
      Bounds();
      if start == |buffer| {
        ErasePrefix(limits, v, start, 0);
        assert buffer[start..] == "";
        reclaimed := reclaimed + start;
        buffer, start, scanFrom := "", 0, 0;
      } else if start > 0 && start >= |buffer| / 2 {
        ErasePrefix(limits, v, start, |buffer| - start);
        reclaimed, moved := reclaimed + start, moved + |buffer| - start;
        buffer, scanFrom, start := buffer[start..], scanFrom - start, 0;
      }
    }

    lemma Bounds()
      requires Valid() && state != Failed
      ensures AsView().Window() && 0 <= AsView().Shift() && start <= scanFrom <= |buffer|
      ensures streamOffset + Buffered() == |fed|
    {
    }

    /** The unconsumed bytes are the stream from `streamOffset` on. */
    lemma Peek(k: nat)
      requires Valid() && state != Failed && start + k < |buffer|
      ensures streamOffset + k < |fed| && fed[streamOffset + k] == buffer[start + k]
    {
      hide View.Inv, View.Window;
      Bounds();
      WindowByte(AsView(), k);
    }

    /** Appends what was received. After a failure the bytes are dropped, which loses nothing: the error is final. */
    method Feed(bytes: string)
      requires Valid()
      modifies this
      ensures Valid()
      ensures fed == old(fed) + bytes
      ensures taken == old(taken) && base == old(base) && state == old(state) && error == old(error)
      ensures searches == old(searches)
      ensures state != Failed ==> Buffered() == old(Buffered()) + |bytes|
      ensures state != Failed ==> start == 0 || start < old(Buffered())
      ensures state != Failed ==> start == if old(Due()) then 0 else old(start)
      ensures state != Failed ==> reclaimed == old(reclaimed) + old(start) - start
      ensures state == Failed ==> buffer == old(buffer)
    {
      hide View.Inv;
      if state == Failed {
        AppendBytes(limits, AsView(), bytes);
        fed := fed + bytes;
        return;
      }
      Compact();
      AppendBytes(limits, AsView(), bytes);
      buffer := buffer + bytes;
      fed := fed + bytes;
    }

    method Consume(count: nat)
      modifies `start, `streamOffset, `scanFrom
      ensures AsView() == old(AsView()).Consumed(count)
    {
      start := start + count;
      streamOffset := streamOffset + count;
      scanFrom := if scanFrom < start then start else scanFrom;
    }

    method SkipEmptyLinesBeforeRequest()
      requires Valid() && state == AwaitHead
      modifies `start, `streamOffset, `scanFrom
      ensures Valid() && Buffered() <= old(Buffered())
      ensures streamOffset == SkipEmptyLines(fed, base)
    {
      hide View.Inv, View.Window, SkipEmptyLines;
      while start < |buffer|
        invariant Valid() && Buffered() <= old(Buffered())
        decreases Buffered()
      {
        Bounds();
        ghost var v := AsView();
        Peek(0);
        if start + 1 < |buffer| {
          Peek(1);
        }
        if buffer[start] == '\n' {
          ConsumeEmptyLine(limits, v, 1);
          Consume(1);
        } else if buffer[start] == '\r' && start + 1 < |buffer| && buffer[start + 1] == '\n' {
          ConsumeEmptyLine(limits, v, 2);
          Consume(2);
        } else {
          SkipDone();
          return;
        }
      }
      Bounds();
      SkipDone();
    }

    lemma SkipDone()
      requires Valid() && state == AwaitHead && !StartsLine(fed, streamOffset).Empty?
      ensures streamOffset == SkipEmptyLines(fed, base)
    {
    }

    /** Where the head ends in the buffer, if its empty line has arrived; otherwise where to resume. */
    method FindEndOfHead() returns (end: Option<nat>)
      requires Valid() && state == AwaitHead && streamOffset == SkipEmptyLines(fed, base)
      modifies `scanFrom, `examined, `searches
      ensures searches == old(searches) + 1
      ensures end.None? ==> Valid() && HeadEnd(fed, streamOffset) == None
      ensures end.Some? ==>
                && AsView() == old(AsView()).(searches := searches, examined := examined)
                && start <= end.value <= |buffer| && scanFrom <= end.value
                && HeadEnd(fed, streamOffset) == Some(streamOffset + end.value - start)
                && examined <= 3 * (streamOffset + end.value - start + searches)
    {
      hide View.Inv, View.Window, SkipEmptyLines, HeadEnd, StartsLine, Scanned;
      ghost var v := AsView();
      Bounds();
      SearchMayResume();
      SearchedBuffer(v);
      var from := if scanFrom < start then start else scanFrom;
      var resume: nat;
      ghost var looked: nat;
      end, resume, looked := SearchHeadEnd(buffer, from, start);
      if end.None? {
        SearchStopped(limits, v, resume, looked);
        scanFrom := resume;
      }
      searches, examined := searches + 1, examined + looked;
    }

    lemma SearchMayResume()
      requires Valid() && state == AwaitHead && streamOffset == SkipEmptyLines(fed, base)
      ensures !StartsLine(fed, streamOffset).Empty? && Scanned(fed, streamOffset, AsView().Shift() + scanFrom)
      ensures examined <= 3 * (AsView().Shift() + scanFrom + searches)
    {
    }

    method Fail(e: ParseError) returns (r: Outcome)
      requires Whole(AsView().Accounted(limits)) && base <= |fed| && ParseOne(limits, fed, base) == Error(e)
      modifies `state, `error, `buffer, `start, `scanFrom, `failedAt
      ensures Valid() && state == Failed && error == e && r == Error(e) && buffer == "" && start == 0
    {
      hide View.Inv, View.Accounted, ParseOne;
      FailWith(limits, AsView(), e);
      state, error := Failed, e;
      buffer, start, scanFrom := "", 0, 0;
      failedAt := |fed|;
      r := Error(e);
    }

    /** The next request of the stream, if it has arrived, or the error that ends the stream. */
    method Next() returns (r: Outcome)
      requires Valid()
      modifies this
      ensures Valid() && fed == old(fed)
      ensures old(state) == Failed ==> AsView() == old(AsView()) && r == Error(error)
      ensures old(state) != Failed ==> r == ParseOne(limits, fed, old(base))
      ensures r.Complete? ==> taken == old(taken) + [r.request] && base == r.request.streamEnd && state == AwaitHead
      ensures r.Complete? ==> Buffered() < old(Buffered())
      ensures !r.Complete? ==> taken == old(taken) && base == old(base)
      ensures r.Incomplete? ==> Starved() && Buffered() <= old(Buffered())
      ensures r.Error? <==> state == Failed
      ensures r.Error? ==> r.error == error && Buffered() <= old(Buffered())
      ensures |buffer| <= old(|buffer|) && searches <= old(searches) + 1 && reclaimed == old(reclaimed)
    {
      hide View.Inv, ParseOne, HeadAt;
      BaseWithin();
      if state == Failed {
        return Error(error);
      }
      if state == AwaitHead {
        var done := TakeHead();
        if done.Some? {
          return done.value;
        }
      }
      r := TakeBody();
    }

    lemma BaseWithin()
      requires Valid()
      ensures base <= |fed| && start <= |buffer|
    {
    }

    /** Looks for the head at the front of the stream and parses it, without consuming it. */
    method ExamineHead() returns (r: HeadOutcome)
      requires Valid() && state == AwaitHead
      modifies `start, `streamOffset, `scanFrom, `examined, `searches
      ensures base <= |fed| && r == HeadAt(limits, fed, base) && Whole(AsView().Accounted(limits))
      ensures 0 <= Buffered() <= old(Buffered()) && searches == old(searches) + 1
      ensures r.HeadPending? ==> Valid() && Buffered() <= limits.maxHeaderBytes
      ensures r.HeadPending? ==> streamOffset == SkipEmptyLines(fed, base)
      ensures r.HeadDone? ==> r.begin == streamOffset && Whole(AsView().HeadReady(limits, r.end - r.begin, r.head))
    {
      hide View.Inv, View.Window, View.Accounted, View.HeadReady, HeadAt, HeadEnd, SkipEmptyLines, SplitHead,
           ParseLines;
      SkipEmptyLinesBeforeRequest();
      ghost var v := AsView();
      BaseWithin();
      var headEnd := FindEndOfHead();
      if headEnd.None? {
        HeadMissing(limits, AsView());
        if Buffered() > limits.maxHeaderBytes {
          return HeadBad(HeadTooLarge(limits.maxHeaderBytes));
        }
        return HeadPending;
      }
      var headSize := headEnd.value - start;
      HeadFound(limits, v, headSize);
      FoundAccounted(limits, v, headSize, searches, examined);
      if headSize > limits.maxHeaderBytes {
        return HeadBad(HeadTooLarge(limits.maxHeaderBytes));
      }
      var head := ParseHead(limits, buffer[start..headEnd.value]);
      r := match head
           case Err(e) => HeadBad(e)
           case Ok(h) => HeadDone(h, streamOffset, streamOffset + headSize);
    }

    /** The first half of Next: the outcome if there is no usable head yet, otherwise the parser now awaits the body. */
    method TakeHead() returns (done: Option<Outcome>)
      requires Valid() && state == AwaitHead
      modifies `start, `streamOffset, `scanFrom, `examined, `searches
      modifies `state, `error, `buffer, `failedAt, `pending, `bodyLength
      ensures Consistent() && base <= |fed|
      ensures |buffer| <= old(|buffer|) && Buffered() <= old(Buffered()) && searches == old(searches) + 1
      ensures done.None? ==> state == AwaitBody && Buffered() < old(Buffered())
      ensures done.Some? ==> done.value == ParseOne(limits, fed, base) && !done.value.Complete? && state != AwaitBody
      ensures done == Some(Incomplete) ==> Starved()
      ensures done.Some? ==> (done.value.Error? <==> state == Failed)
      ensures done.Some? && done.value.Error? ==> done.value.error == error
    {
      hide View.Inv, View.Accounted, View.HeadReady, View.Starved, HeadAt, ParseOne;
      var head := ExamineHead();
      HeadDecides(limits, fed, base);
      match head
      case HeadPending =>
        StarvedAtHead(limits, AsView());
        return Some(Incomplete);
      case HeadBad(e) =>
        var r := Fail(e);
        return Some(r);
      case HeadDone(h, begin, end) =>
        AwaitBodyOf(h, end - begin);
        return None;
    }

    /** Consumes a parsed head; what remains of the request is its body. */
    method AwaitBodyOf(h: Head, headSize: nat)
      requires Whole(AsView().HeadReady(limits, headSize, h))
      modifies `start, `streamOffset, `scanFrom, `pending, `bodyLength, `state
      ensures Consistent() && state == AwaitBody && Buffered() == old(Buffered()) - headSize
    {
      hide View.Inv, View.HeadReady;
      EnterBody(limits, AsView(), headSize, h);
      var request := Request(h.line.verb, h.line.target, h.line.version, h.headers, "", streamOffset, 0, headSize);
      Consume(headSize);
      pending, bodyLength, state := request, h.bodyLength, AwaitBody;
    }

    /** The second half of Next: wait until the whole body is buffered, then take exactly that. */
    method TakeBody() returns (r: Outcome)
      requires Consistent() && state == AwaitBody
      modifies this
      ensures Valid() && fed == old(fed) && buffer == old(buffer) && searches == old(searches)
      ensures reclaimed == old(reclaimed)
      ensures r == ParseOne(limits, fed, old(base)) && !r.Error?
      ensures r.Complete? ==>
                && taken == old(taken) + [r.request] && base == r.request.streamEnd && state == AwaitHead
                && Buffered() == old(Buffered()) - old(bodyLength)
      ensures r.Incomplete? ==> taken == old(taken) && base == old(base) && Starved() && Buffered() == old(Buffered())
    {
      hide View.Inv, ParseOne;
      BodyParts();
      if Buffered() < bodyLength {
        BodyMissing(limits, AsView());
        return Incomplete;
      }
      LeaveBody(limits, AsView());
      var request := pending.(body := buffer[start..start + bodyLength]);
      Consume(bodyLength);
      request := request.(streamEnd := streamOffset);
      state := AwaitHead;
      pending := NO_REQUEST;
      taken, base := taken + [request], request.streamEnd;
      r := Complete(request);
    }

    lemma BodyParts()
      requires Consistent() && state == AwaitBody
      ensures base <= |fed| && start <= |buffer|
    {
    }
  }
}
