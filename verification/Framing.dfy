/**
 What the bytes of a connection mean: a pure function from the whole stream to the
 requests in it, with no notion of reads or buffers. The incremental parser is proved
 to compute this function, and here the function itself is shown to be stable when
 more bytes arrive. Positions are offsets from the first byte of the stream.
 */
module Framing {
  import opened Text
  import opened Messages
  import opened HeadGrammar

  // ---------------------------------------------------------------- lines

  /** What the bytes at a line start say: an empty line, some text, or not decidable yet. */
  datatype LineStart = Empty(next: nat) | Text | Undecided

  function StartsLine(s: string, i: nat): (r: LineStart)
    requires i <= |s|
    ensures r.Empty? ==> i < r.next <= |s|
  {
    if i == |s| then Undecided
    else if s[i] == '\n' then Empty(i + 1)
    else if s[i] != '\r' then Text
    else if i + 1 == |s| then Undecided
    else if s[i + 1] == '\n' then Empty(i + 2)
    else Text
  }

  function SkipEmptyLines(s: string, i: nat): (k: nat)
    requires i <= |s|
    ensures i <= k <= |s| && !StartsLine(s, k).Empty?
    decreases |s| - i
  {
    match StartsLine(s, i)
    case Empty(next) => SkipEmptyLines(s, next)
    case _ => i
  }

  /** A run of nothing but empty lines. */
  predicate OnlyEmptyLines(s: string) {
    || s == ""
    || (s[0] == '\n' && OnlyEmptyLines(s[1..]))
    || (|s| >= 2 && s[0] == '\r' && s[1] == '\n' && OnlyEmptyLines(s[2..]))
  }

  function StripCR(line: string): string {
    if line != "" && line[|line| - 1] == '\r' then line[..|line| - 1] else line
  }

  /** The lines before the first empty line, and the position just past it. */
  datatype Split = Split(lines: seq<string>, end: nat)

  predicate NoEmptyLine(lines: seq<string>) {
    forall i | 0 <= i < |lines| :: lines[i] != ""
  }

  function SplitHead(s: string, i: nat): (r: Option<Split>)
    requires i <= |s|
    ensures r.Some? ==> i < r.value.end <= |s| && NoEmptyLine(r.value.lines)
    decreases |s| - i
  {
    var newline := Find(s, '\n', i);
    if newline == |s| then None
    else
      var line := StripCR(s[i..newline]);
      if line == "" then Some(Split([], newline + 1))
      else
        match SplitHead(s, newline + 1)
        case None => None
        case Some(rest) => Some(Split([line] + rest.lines, rest.end))
  }

  /** One line of the split, for proofs that keep the rest of it closed. */
  lemma SplitStep(s: string, i: nat)
    requires i <= |s|
    ensures var newline := Find(s, '\n', i);
            SplitHead(s, i) ==
              if newline == |s| then None
              else if StripCR(s[i..newline]) == "" then Some(Split([], newline + 1))
              else
                match SplitHead(s, newline + 1)
                case None => None
                case Some(rest) => Some(Split([StripCR(s[i..newline])] + rest.lines, rest.end))
  {
    hide StripCR, Find;
  }

  function HeadEnd(s: string, i: nat): Option<nat>
    requires i <= |s|
  {
    match SplitHead(s, i)
    case None => None
    case Some(split) => Some(split.end)
  }

  /** A line start decides its line: empty lines end the head, text does not. */
  lemma LineStartDecides(s: string, i: nat)
    requires i <= |s|
    ensures match StartsLine(s, i)
            case Empty(next) => HeadEnd(s, i) == Some(next)
            case Undecided => HeadEnd(s, i) == None
            case Text =>
              var newline := Find(s, '\n', i);
              HeadEnd(s, i) == if newline == |s| then None else HeadEnd(s, newline + 1)
  {
  }

  /** A head that does not start with an empty line has at least a request line. */
  lemma HeadHasALine(s: string, i: nat)
    requires i <= |s| && !StartsLine(s, i).Empty? && SplitHead(s, i).Some?
    ensures SplitHead(s, i).value.lines != []
  {
  }

  // ---------------------------------------------------------------- one request

  datatype HeadOutcome =
    | HeadPending
    | HeadBad(error: ParseError)
    | HeadDone(head: Head, begin: nat, end: nat)

  function HeadAt(limits: Limits, s: string, i: nat): (r: HeadOutcome)
    requires i <= |s|
    ensures r.HeadDone? ==> i <= r.begin < r.end <= |s|
  {
    var k := SkipEmptyLines(s, i);
    match SplitHead(s, k)
    case None =>
      if |s| - k > limits.maxHeaderBytes then HeadBad(HeadTooLarge(limits.maxHeaderBytes)) else HeadPending
    case Some(split) =>
      if split.end - k > limits.maxHeaderBytes then HeadBad(HeadTooLarge(limits.maxHeaderBytes))
      else
        match ParseLines(limits, split.lines)
        case Err(e) => HeadBad(e)
        case Ok(head) => HeadDone(head, k, split.end)
  }

  /** So the missing request line the code guards against never happens. */
  lemma RequestLinePresent(limits: Limits, s: string, i: nat)
    requires i <= |s|
    ensures HeadAt(limits, s, i) != HeadBad(MissingRequestLine)
  {
    hide SkipEmptyLines, SplitHead;
    var k := SkipEmptyLines(s, i);
    if SplitHead(s, k).Some? {
      HeadHasALine(s, k);
      NotMissing(limits, SplitHead(s, k).value.lines);
      hide ParseLines;
    }
  }

  lemma {:induction false} HeadersNotMissing(lines: seq<string>)
    requires NoEmptyLine(lines)
    ensures ParseHeaders(lines) != Err(MissingRequestLine)
    decreases |lines|
  {
    if lines != [] {
      HeadersNotMissing(lines[..|lines| - 1]);
    }
  }

  lemma NotMissing(limits: Limits, lines: seq<string>)
    requires NoEmptyLine(lines) && lines != []
    ensures ParseLines(limits, lines) != Err(MissingRequestLine)
  {
    hide ParseHeaders, ValuesOf, Accumulate;
    HeadersNotMissing(lines[1..]);
  }

  datatype Outcome = Incomplete | Complete(request: Request) | Error(error: ParseError)

  function MakeRequest(head: Head, body: string, begin: nat, end: nat): Request
    requires begin <= end
  {
    Request(head.line.verb, head.line.target, head.line.version, head.headers, body,
            begin, end + |body|, end - begin)
  }

  /** The first request at or after position `i`. */
  function ParseOne(limits: Limits, s: string, i: nat): (r: Outcome)
    requires i <= |s|
    ensures r.Complete? ==> i < r.request.streamEnd <= |s|
  {
    match HeadAt(limits, s, i)
    case HeadPending => Incomplete
    case HeadBad(e) => Error(e)
    case HeadDone(head, begin, end) =>
      if |s| - end < head.bodyLength then Incomplete
      else Complete(MakeRequest(head, s[end..end + head.bodyLength], begin, end))
  }

  datatype Parsed = Parsed(requests: seq<Request>, failure: Option<ParseError>)

  /** Every request from position `i` on, and the error that stops the parse, if any. */
  function ParseAll(limits: Limits, s: string, i: nat): Parsed
    requires i <= |s|
    decreases |s| - i
  {
    match ParseOne(limits, s, i)
    case Incomplete => Parsed([], None)
    case Error(e) => Parsed([], Some(e))
    case Complete(r) =>
      var rest := ParseAll(limits, s, r.streamEnd);
      Parsed([r] + rest.requests, rest.failure)
  }

  lemma ParseEnds(limits: Limits, s: string, i: nat)
    requires i <= |s|
    ensures ParseOne(limits, s, i) == Incomplete ==> ParseAll(limits, s, i) == Parsed([], None)
    ensures ParseOne(limits, s, i).Error? ==>
              ParseAll(limits, s, i) == Parsed([], Some(ParseOne(limits, s, i).error))
  {
  }

  // ---------------------------------------------------------------- more bytes arrive

  lemma StartsLineStable(s: string, x: string, i: nat)
    requires i <= |s| && !StartsLine(s, i).Undecided?
    ensures StartsLine(s + x, i) == StartsLine(s, i)
  {
  }

  lemma {:induction false} SkipStable(s: string, x: string, i: nat)
    requires i <= |s|
    ensures SkipEmptyLines(s + x, i) == SkipEmptyLines(s + x, SkipEmptyLines(s, i))
    ensures StartsLine(s, SkipEmptyLines(s, i)).Text? ==> SkipEmptyLines(s + x, i) == SkipEmptyLines(s, i)
    decreases |s| - i
  {
    if StartsLine(s, i).Empty? {
      StartsLineStable(s, x, i);
      SkipStable(s, x, StartsLine(s, i).next);
    }
  }

  lemma FindStable(s: string, x: string, c: char, i: nat)
    requires i <= |s|
    ensures Find(s, c, i) < |s| ==> Find(s + x, c, i) == Find(s, c, i)
    ensures Find(s, c, i) == |s| ==> Find(s + x, c, i) >= |s|
  {
    assert forall j | 0 <= j < |s| :: (s + x)[j] == s[j];
  }

  /** A head that has ended stays where it is; one that has not can only end in the new bytes. */
  lemma {:induction false} SplitStable(s: string, x: string, i: nat)
    requires i <= |s|
    ensures SplitHead(s, i).Some? ==> SplitHead(s + x, i) == SplitHead(s, i)
    ensures SplitHead(s, i).None? && SplitHead(s + x, i).Some? ==> SplitHead(s + x, i).value.end > |s|
    decreases |s| - i
  {
    hide SplitHead, StripCR, Find;
    FindStable(s, x, '\n', i);
    SplitStep(s, i);
    SplitStep(s + x, i);
    var newline := Find(s, '\n', i);
    if newline < |s| {
      assert (s + x)[i..newline] == s[i..newline];
      SplitStable(s, x, newline + 1);
    }
  }

  /** A parsed head is final. */
  lemma HeadDoneStable(limits: Limits, s: string, x: string, i: nat)
    requires i <= |s| && HeadAt(limits, s, i).HeadDone?
    ensures HeadAt(limits, s + x, i) == HeadAt(limits, s, i)
  {
    hide ParseLines, SplitHead, SkipEmptyLines, StartsLine;
    var k := SkipEmptyLines(s, i);
    LineStartDecides(s, k);
    SkipStable(s, x, i);
    SplitStable(s, x, k);
  }

  /** A rejected head is final too, on every path to 431 as well: this is where a limit of zero would break. */
  lemma HeadBadStable(limits: Limits, s: string, x: string, i: nat)
    requires limits.maxHeaderBytes >= 1
    requires i <= |s| && HeadAt(limits, s, i).HeadBad?
    ensures HeadAt(limits, s + x, i) == HeadAt(limits, s, i)
  {
    hide ParseLines, SplitHead, SkipEmptyLines;
    var k := SkipEmptyLines(s, i);
    LineStartDecides(s, k);
    SkipStable(s, x, i);
    SplitStable(s, x, k);
  }

  lemma CompleteStable(limits: Limits, s: string, x: string, i: nat)
    requires i <= |s| && ParseOne(limits, s, i).Complete?
    ensures ParseOne(limits, s + x, i) == ParseOne(limits, s, i)
  {
    hide HeadAt;
    HeadDoneStable(limits, s, x, i);
    var done := HeadAt(limits, s, i);
    assert (s + x)[done.end..done.end + done.head.bodyLength] == s[done.end..done.end + done.head.bodyLength];
  }

  lemma ErrorStable(limits: Limits, s: string, x: string, i: nat)
    requires limits.maxHeaderBytes >= 1
    requires i <= |s| && ParseOne(limits, s, i).Error?
    ensures ParseOne(limits, s + x, i) == ParseOne(limits, s, i)
  {
    hide HeadAt;
    HeadBadStable(limits, s, x, i);
  }

  /** Every decision the parser makes on a prefix is the decision on the whole stream. */
  ghost predicate PrefixStable(limits: Limits) {
    forall s: string, x: string, i: nat | i <= |s| && !ParseOne(limits, s, i).Incomplete? ::
      ParseOne(limits, s + x, i) == ParseOne(limits, s, i)
  }

  /** Exactly the limits under which how the stream is cut into reads cannot matter. */
  lemma PrefixStableIff(limits: Limits)
    ensures PrefixStable(limits) <==> limits.maxHeaderBytes >= 1
  {
    hide ParseOne;
    if limits.maxHeaderBytes >= 1 {
      forall s: string, x: string, i: nat | i <= |s| && !ParseOne(limits, s, i).Incomplete?
        ensures ParseOne(limits, s + x, i) == ParseOne(limits, s, i)
      {
        if ParseOne(limits, s, i).Complete? { CompleteStable(limits, s, x, i); } else { ErrorStable(limits, s, x, i); }
      }
    } else {
      LoneCarriageReturn(limits);
      var s, x := "\r", "\n";
      assert ParseOne(limits, s + x, 0) != ParseOne(limits, s, 0);
    }
  }

  /** A lone CR is already too large a head for a zero limit, yet with its LF it is an ignored empty line. */
  lemma LoneCarriageReturn(limits: Limits)
    requires limits.maxHeaderBytes == 0
    ensures ParseOne(limits, "\r", 0).Error? && ParseOne(limits, "\r" + "\n", 0) == Incomplete
  {
  }

  /** Parsing more of the stream only ever adds requests at the end; an error is final. */
  lemma {:induction false} ParseAllGrows(limits: Limits, s: string, x: string, i: nat)
    requires limits.maxHeaderBytes >= 1 && i <= |s|
    ensures ParseAll(limits, s, i).requests <= ParseAll(limits, s + x, i).requests
    ensures ParseAll(limits, s, i).failure.Some? ==> ParseAll(limits, s + x, i) == ParseAll(limits, s, i)
    decreases |s| - i
  {
    hide ParseOne;
    match ParseOne(limits, s, i)
    case Incomplete =>
    case Error(_) => ErrorStable(limits, s, x, i);
    case Complete(r) =>
      CompleteStable(limits, s, x, i);
      ParseAllGrows(limits, s, x, r.streamEnd);
  }

  // ---------------------------------------------------------------- requests taken so far

  /** `taken` are the first requests of the stream from `i` on, and they end at `base`. */
  ghost predicate Taken(limits: Limits, s: string, i: nat, taken: seq<Request>, base: nat)
    requires i <= |s|
    decreases |taken|
  {
    if taken == [] then i == base
    else
      && ParseOne(limits, s, i) == Complete(taken[0])
      && Taken(limits, s, taken[0].streamEnd, taken[1..], base)
  }

  lemma {:induction false} TakenBounds(limits: Limits, s: string, i: nat, taken: seq<Request>, base: nat)
    requires i <= |s| && Taken(limits, s, i, taken, base)
    ensures i <= base <= |s|
    decreases |taken|
  {
    hide ParseOne;
    if taken != [] { TakenBounds(limits, s, taken[0].streamEnd, taken[1..], base); }
  }

  lemma {:induction false} TakenStable(limits: Limits, s: string, x: string, i: nat, taken: seq<Request>, base: nat)
    requires i <= |s| && Taken(limits, s, i, taken, base)
    ensures Taken(limits, s + x, i, taken, base)
    decreases |taken|
  {
    hide ParseOne;
    if taken != [] {
      CompleteStable(limits, s, x, i);
      TakenStable(limits, s, x, taken[0].streamEnd, taken[1..], base);
    }
  }

  lemma {:induction false} TakenExtends(limits: Limits, s: string, i: nat, taken: seq<Request>, base: nat, r: Request)
    requires i <= |s| && Taken(limits, s, i, taken, base)
    requires base <= |s| && ParseOne(limits, s, base) == Complete(r)
    ensures Taken(limits, s, i, taken + [r], r.streamEnd)
    decreases |taken|
  {
    hide ParseOne;
    if taken == [] {
      assert ([r])[1..] == [];
    } else {
      TakenExtends(limits, s, taken[0].streamEnd, taken[1..], base, r);
      assert (taken + [r])[1..] == taken[1..] + [r];
    }
  }

  /** Taking requests one by one is the whole-stream parse, split at `base`. */
  lemma {:induction false} TakenIsParse(limits: Limits, s: string, i: nat, taken: seq<Request>, base: nat)
    requires i <= |s| && Taken(limits, s, i, taken, base) && base <= |s|
    ensures ParseAll(limits, s, i).requests == taken + ParseAll(limits, s, base).requests
    ensures ParseAll(limits, s, i).failure == ParseAll(limits, s, base).failure
    decreases |taken|
  {
    hide ParseOne;
    if taken != [] {
      TakenIsParse(limits, s, taken[0].streamEnd, taken[1..], base);
      assert taken == [taken[0]] + taken[1..];
    }
  }

  // ---------------------------------------------------------------- what follows the last request

  /** Where these requests end, if they start at `i`. */
  function EndOf(requests: seq<Request>, i: nat): nat {
    if requests == [] then i else requests[|requests| - 1].streamEnd
  }

  lemma {:induction false} TakenEnds(limits: Limits, s: string, i: nat, taken: seq<Request>, base: nat)
    requires i <= |s| && Taken(limits, s, i, taken, base)
    ensures base == EndOf(taken, i) <= |s|
    decreases |taken|
  {
    hide ParseOne;
    if taken != [] {
      TakenEnds(limits, s, taken[0].streamEnd, taken[1..], base);
    }
  }

  /** A request has been begun and not finished: what follows the last one is more than empty lines. */
  ghost predicate Unfinished(limits: Limits, s: string) {
    var end := EndOf(ParseAll(limits, s, 0).requests, 0);
    end <= |s| && !OnlyEmptyLines(s[end..])
  }

  /** Nothing but empty lines is left exactly when skipping them reaches the end. */
  lemma {:induction false} SkipsAllIff(s: string, i: nat)
    requires i <= |s|
    ensures OnlyEmptyLines(s[i..]) <==> SkipEmptyLines(s, i) == |s|
    decreases |s| - i
  {
    if StartsLine(s, i).Empty? {
      var next := StartsLine(s, i).next;
      SkipsAllIff(s, next);
      assert s[i..][next - i..] == s[next..];
    }
  }

  // ---------------------------------------------------------------- accounting

  lemma {:induction false} SkippedAreEmptyLines(s: string, i: nat)
    requires i <= |s|
    ensures OnlyEmptyLines(s[i..SkipEmptyLines(s, i)])
    decreases |s| - i
  {
    if StartsLine(s, i).Empty? {
      var next := StartsLine(s, i).next;
      SkippedAreEmptyLines(s, next);
      var k := SkipEmptyLines(s, i);
      assert s[i..k][next - i..] == s[next..k];
    }
  }

  /** A request's interval: empty lines, its head (the first to end there), then exactly its body. */
  ghost predicate Accounts(s: string, from: nat, r: Request) {
    && from <= r.streamBegin && r.headBytes >= 1
    && r.streamBegin + r.headBytes + |r.body| == r.streamEnd <= |s|
    && OnlyEmptyLines(s[from..r.streamBegin])
    && HeadEnd(s, r.streamBegin) == Some(r.streamBegin + r.headBytes)
    && s[r.streamBegin + r.headBytes..r.streamEnd] == r.body
  }

  /** The intervals are disjoint, increasing, and separated by nothing but empty lines. */
  ghost predicate AllAccounted(s: string, from: nat, requests: seq<Request>)
    decreases |requests|
  {
    requests != [] ==>
      Accounts(s, from, requests[0]) && AllAccounted(s, requests[0].streamEnd, requests[1..])
  }

  lemma CompleteAccounts(limits: Limits, s: string, i: nat)
    requires i <= |s| && ParseOne(limits, s, i).Complete?
    ensures Accounts(s, i, ParseOne(limits, s, i).request)
  {
    hide ParseLines;
    SkippedAreEmptyLines(s, i);
  }

  lemma {:induction false} StreamAccounting(limits: Limits, s: string, i: nat)
    requires i <= |s|
    ensures AllAccounted(s, i, ParseAll(limits, s, i).requests)
    decreases |s| - i
  {
    hide ParseOne, Accounts;
    if ParseOne(limits, s, i).Complete? {
      var r := ParseOne(limits, s, i).request;
      CompleteAccounts(limits, s, i);
      StreamAccounting(limits, s, r.streamEnd);
      assert ParseAll(limits, s, i).requests[1..] == ParseAll(limits, s, r.streamEnd).requests;
    }
  }

  // ---------------------------------------------------------------- searching for the empty line

  /** No newline in `[lo, hi)` ends the head, and no later byte can change that. */
  ghost predicate Scanned(s: string, lo: nat, hi: nat)
    requires hi <= |s|
  {
    forall n | lo <= n < hi :: s[n] == '\n' ==> StartsLine(s, n + 1).Text?
  }

  lemma ScannedStable(s: string, x: string, lo: nat, hi: nat)
    requires hi <= |s| && Scanned(s, lo, hi)
    ensures Scanned(s + x, lo, hi)
  {
  }

  /** The search may skip what was scanned: starting at `pos` finds the same end as starting at `i`. */
  lemma {:induction false} ResumeSearch(s: string, i: nat, pos: nat)
    requires i <= pos <= |s| && !StartsLine(s, i).Empty? && Scanned(s, i, pos)
    ensures var newline := Find(s, '\n', pos);
            HeadEnd(s, i) == if newline == |s| then None else HeadEnd(s, newline + 1)
    decreases |s| - i
  {
    hide HeadEnd, SplitHead;
    LineStartDecides(s, i);
    var first := Find(s, '\n', i);
    if first < pos {
      assert s[first] == '\n';
      ResumeSearch(s, first + 1, pos);
    } else {
      assert first == Find(s, '\n', pos);
    }
  }

  /** A suffix of the stream has its heads where the stream has them. */
  lemma {:induction false} HeadEndSuffix(s: string, shift: nat, i: nat)
    requires shift + i <= |s|
    ensures HeadEnd(s, shift + i)
         == match HeadEnd(s[shift..], i) case None => None case Some(end) => Some(shift + end)
    decreases |s| - i
  {
    hide SplitHead, StripCR, Find;
    var w := s[shift..];
    LineSuffix(s, shift, i);
    SplitStep(s, shift + i);
    SplitStep(w, i);
    var newline := Find(w, '\n', i);
    if newline < |w| {
      HeadEndSuffix(s, shift, newline + 1);
    }
  }

  lemma LineSuffix(s: string, shift: nat, i: nat)
    requires shift + i <= |s|
    ensures var newline := Find(s[shift..], '\n', i);
            Find(s, '\n', shift + i) == shift + newline && s[shift..][i..newline] == s[shift + i..shift + newline]
  {
    var newline := Find(s[shift..], '\n', i);
    assert Find(s, '\n', shift + i) == shift + newline;
    assert s[shift..][i..newline] == s[shift + i..shift + newline];
  }

  /** The head's own bytes split into the same lines, and the split ends exactly at their end. */
  lemma SplitWindow(s: string, i: nat)
    requires i <= |s| && SplitHead(s, i).Some?
    ensures var split := SplitHead(s, i).value;
            SplitHead(s[i..split.end], 0) == Some(Split(split.lines, split.end - i))
  {
    hide SplitHead;
    var split := SplitHead(s, i).value;
    SplitCopy(s, s[i..split.end], i, i, split);
  }

  /** `w` is a copy of the bytes of `s` from `lo` up to the end of the head. */
  lemma {:induction false} SplitCopy(s: string, w: string, lo: nat, i: nat, split: Split)
    requires lo <= i <= |s| && SplitHead(s, i) == Some(split)
    requires |w| == split.end - lo && forall j | 0 <= j < |w| :: w[j] == s[lo + j]
    ensures SplitHead(w, i - lo) == Some(Split(split.lines, split.end - lo))
    decreases |s| - i
  {
    hide SplitHead, StripCR, Find;
    SplitStep(s, i);
    var newline := Find(s, '\n', i);
    LineCopy(s, w, lo, i);
    SplitStep(w, i - lo);
    if StripCR(s[i..newline]) != "" {
      SplitCopy(s, w, lo, newline + 1, SplitHead(s, newline + 1).value);
    }
  }

  lemma LineCopy(s: string, w: string, lo: nat, i: nat)
    requires lo <= i <= |s| && i - lo <= |w| && Find(s, '\n', i) - lo < |w|
    requires lo + |w| <= |s| && forall j | 0 <= j < |w| :: w[j] == s[lo + j]
    ensures var newline := Find(s, '\n', i);
            newline >= i && Find(w, '\n', i - lo) == newline - lo && w[i - lo..newline - lo] == s[i..newline]
  {
    hide Find;
    var newline := Find(s, '\n', i);
    assert w[newline - lo] == '\n';
    assert w[i - lo..newline - lo] == s[i..newline];
  }
}
