/**
 How large the input buffer can get (src/request_parser.cpp:165-180, src/connection.cpp:111-119). What a parser has
 consumed of a stream depends on the stream alone; what it still holds, on how much of that was reclaimed when.
 */
module InputGrowth {
  import opened Text
  import opened Decimal
  import opened Messages
  import opened HeadGrammar
  import opened Framing
  import opened RequestSpelling
  import opened RequestParsing

  const RECV_CHUNK: nat := 16 * 1024

  // ---------------------------------------------------------------- what a parser has consumed

  /** What is consumed, from `i` on, by the time nothing more can be returned; everything, if the stream is refused. */
  ghost function Consumed(limits: Limits, s: string, i: nat): (n: nat)
    requires i <= |s|
    ensures i <= n <= |s|
    decreases |s| - i
  {
    match ParseOne(limits, s, i)
    case Complete(r) => Consumed(limits, s, r.streamEnd)
    case Error(_) => |s|
    case Incomplete =>
      var head := HeadAt(limits, s, i);
      if head.HeadDone? then head.end else SkipEmptyLines(s, i)
  }

  /** The size of the head that is then waiting for its body, if there is one. */
  ghost function HeadKept(limits: Limits, s: string, i: nat): (n: nat)
    requires i <= |s|
    ensures n <= limits.maxHeaderBytes
    decreases |s| - i
  {
    match ParseOne(limits, s, i)
    case Complete(r) => HeadKept(limits, s, r.streamEnd)
    case Error(_) => 0
    case Incomplete =>
      var head := HeadAt(limits, s, i);
      if head.HeadDone? then head.end - head.begin else 0
  }

  lemma {:induction false} ConsumedFrom(limits: Limits, s: string, i: nat, taken: seq<Request>, base: nat)
    requires i <= |s| && Taken(limits, s, i, taken, base) && base <= |s|
    ensures Consumed(limits, s, i) == Consumed(limits, s, base) && HeadKept(limits, s, i) == HeadKept(limits, s, base)
    decreases |taken|
  {
    hide ParseOne;
    if taken != [] {
      ConsumedFrom(limits, s, taken[0].streamEnd, taken[1..], base);
    }
  }

  /** A parser with nothing to return has consumed just that much. */
  lemma StarvedConsumed(limits: Limits, v: View)
    requires v.Inv(limits) && v.Starved(limits)
    ensures v.streamOffset == Consumed(limits, v.fed, 0) && v.start == v.streamOffset - v.reclaimed
    ensures v.Buffered() == |v.fed| - v.streamOffset
    ensures HeadKept(limits, v.fed, 0) == if v.state == AwaitHead then 0 else v.pending.headBytes
  {
    hide Taken, Scanned, SkipEmptyLines, HeadAt, ParseOne;
    ConsumedFrom(limits, v.fed, 0, v.taken, v.base);
  }

  /** Empty lines that can be skipped only now end in the new bytes. */
  lemma SkipsOn(s: string, x: string, i: nat)
    requires i <= |s|
    ensures SkipEmptyLines(s + x, i) == SkipEmptyLines(s, i) || SkipEmptyLines(s + x, i) > |s|
  {
    var k := SkipEmptyLines(s, i);
    SkipStable(s, x, i);
    assert StartsLine(s + x, k).Empty? && StartsLine(s, k).Undecided? ==> StartsLine(s + x, k).next > |s|;
  }

  /** A head that ends only now ends in the new bytes, and starts there too unless it had been begun. */
  lemma HeadEndsOn(limits: Limits, s: string, x: string, i: nat)
    requires i <= |s| && HeadAt(limits, s, i) == HeadPending && HeadAt(limits, s + x, i).HeadDone?
    ensures var done := HeadAt(limits, s + x, i);
            done.end > |s| && (done.begin == SkipEmptyLines(s, i) || done.begin > |s|)
  {
    hide SkipEmptyLines, SplitHead, ParseLines;
    SkipsOn(s, x, i);
    SplitStable(s, x, SkipEmptyLines(s, i));
  }

  lemma {:induction false} KeptWithin(limits: Limits, s: string, i: nat)
    requires i <= |s|
    ensures Consumed(limits, s, i) >= i + HeadKept(limits, s, i)
    decreases |s| - i
  {
    hide HeadAt;
    if ParseOne(limits, s, i).Complete? {
      KeptWithin(limits, s, ParseOne(limits, s, i).request.streamEnd);
    }
  }

  /** What new bytes change: nothing; or a head that had been begun is finished; or what is consumed reaches further. */
  ghost predicate Advances(s: string, from: nat, head: nat, to: nat, newHead: nat) {
    || (to == from && newHead == head)
    || (to > |s| && (newHead == 0 || to > |s| + newHead || (head == 0 && to == from + newHead)))
  }

  lemma {:induction false} ConsumesOn(limits: Limits, s: string, x: string, i: nat)
    requires i <= |s| && ParseAll(limits, s, i).failure == None
    ensures Advances(s, Consumed(limits, s, i), HeadKept(limits, s, i),
                     Consumed(limits, s + x, i), HeadKept(limits, s + x, i))
    decreases |s| - i
  {
    hide HeadAt, SkipEmptyLines;
    assert x == "" ==> s + x == s;
    match ParseOne(limits, s, i)
    case Complete(r) =>
      CompleteStable(limits, s, x, i);
      ConsumesOn(limits, s, x, r.streamEnd);
    case Error(_) =>
    case Incomplete =>
      SkipsOn(s, x, i);
      if HeadAt(limits, s, i).HeadDone? {
        HeadDoneStable(limits, s, x, i);
      } else if HeadAt(limits, s + x, i).HeadDone? {
        HeadEndsOn(limits, s, x, i);
      }
      if ParseOne(limits, s + x, i).Complete? {
        KeptWithin(limits, s + x, ParseOne(limits, s + x, i).request.streamEnd);
      }
  }

  // ---------------------------------------------------------------- which settings bound the buffer

  /** The shortest head that announces `n` bytes. */
  function ShortestHead(n: nat): nat {
    30 + |OfNat(n)|
  }

  /** Some head within the limits announces `n` bytes of body. */
  predicate Announceable(limits: Limits, n: nat) {
    && 1 <= n <= limits.maxBodyBytes && n < SIZE_MODULUS
    && limits.maxHeaderCount >= 1 && ShortestHead(n) <= limits.maxHeaderBytes
  }

  function Least(a: int, b: int): int {
    if a < b then a else b
  }

  /** While a head is pending, enough consumed bytes can be kept that one more read exceeds a maximal request. */
  predicate HeadOutgrows(limits: Limits) {
    && limits.maxHeaderBytes >= 3 && limits.MaxRequestBytes() >= 4
    && limits.maxBodyBytes < RECV_CHUNK + Least(limits.maxHeaderBytes - 2, RECV_CHUNK - 3)
  }

  /** How much can be kept in front of a body of `n` bytes; a head that holds any length can itself be long. */
  function MostKept(limits: Limits, n: nat): int {
    if limits.maxHeaderBytes < 50 then RECV_CHUNK - 3 - ShortestHead(n) else RECV_CHUNK - 3
  }

  /** The same while a body of `n` bytes is pending. */
  predicate BodyOutgrows(limits: Limits, n: nat) {
    && Announceable(limits, n) && n >= ShortestHead(n) + 3
    && Least(n - 3, MostKept(limits, n)) + n - 1 + RECV_CHUNK > limits.MaxRequestBytes()
  }

  /** The settings under which the input buffer can outgrow one maximal request. */
  ghost predicate Outgrows(limits: Limits) {
    HeadOutgrows(limits) || exists n: nat :: BodyOutgrows(limits, n)
  }

  lemma OfNatShort(n: nat, text: string)
    requires AllDigits(text) && text != "" && n <= Value(text)
    ensures |OfNat(n)| <= |text|
  {
    ValueBelow(text);
    OfNatLength(n, |text|, Pow10(|text|));
  }

  lemma LengthTakesDigits(headers: seq<Header>, max: nat, n: nat) returns (k: nat)
    requires BodyLength(headers, max) == Ok(n) && n >= 1
    ensures OnlyField(headers, k, "Content-Length") && |headers[k].value| >= |OfNat(n)| && n <= max && n < SIZE_MODULUS
  {
    hide ValuesOf, OfNat, IEquals, Accumulate, Value;
    ValuesMeaning(headers, "Content-Length");
    k :| OnlyField(headers, k, "Content-Length");
    var text := headers[k].value;
    AccumulateBelow(text, max);
    OfNatShort(n, text);
    LengthFits(headers, max, n);
  }

  /** No accepted head announces more. */
  lemma AnnouncedIsAnnounceable(limits: Limits, s: string, i: nat)
    requires i <= |s| && HeadAt(limits, s, i).HeadDone? && HeadAt(limits, s, i).head.bodyLength >= 1
    ensures var done := HeadAt(limits, s, i);
            Announceable(limits, done.head.bodyLength) && done.end - done.begin >= ShortestHead(done.head.bodyLength)
  {
    hide HeadAt, HeadOf, WellSpelled, BodyLength, OfNat, At;
    var m := HeadSpelled(limits, s, i);
    var k := LengthTakesDigits(HeadersOf(m.fields), limits.maxBodyBytes, HeadAt(limits, s, i).head.bodyLength);
    LongFieldLongHead(m, k);
  }

  /** What a starved parser holds unread: part of a head, or of a body. */
  lemma StarvedAwaits(limits: Limits, v: View)
    requires v.Inv(limits) && v.Starved(limits) && (v.state == AwaitBody ==> v.bodyLength >= 1)
    ensures if v.state == AwaitHead then v.Buffered() <= limits.maxHeaderBytes else
            && v.state == AwaitBody && v.Buffered() < v.bodyLength && Announceable(limits, v.bodyLength)
            && v.pending.headBytes >= ShortestHead(v.bodyLength)
  {
    hide Taken, Scanned, SkipEmptyLines, HeadAt, ParseOne, Announceable, ShortestHead;
    if v.state == AwaitBody {
      AnnouncedIsAnnounceable(limits, v.fed, v.base);
    }
  }

  // ---------------------------------------------------------------- what holds of every parser that is fed so

  /**
   Few consumed bytes are kept, unless few are unread; and a head before its body is kept whole or not at all. So the
   buffer is within one maximal request, unless these are settings under which it need not be.
   */
  ghost predicate Lean(limits: Limits, v: View) {
    var consumed, head := Consumed(limits, v.fed, 0), HeadKept(limits, v.fed, 0);
    var chunk := if limits.maxHeaderBytes < 50 then RECV_CHUNK - head else RECV_CHUNK;
    && (consumed - v.reclaimed <= chunk - 3 || |v.fed| - consumed < chunk)
    && (consumed == v.reclaimed || consumed - v.reclaimed >= head)
    && (|v.buffer| <= limits.MaxRequestBytes() || Outgrows(limits))
  }

  lemma FreshLean(limits: Limits)
    ensures Lean(limits, FreshView())
  {
  }

  /** Neither answering nor waiting changes what this depends on. */
  lemma LeanKept(limits: Limits, v: View, p: View)
    requires Lean(limits, v) && p.fed == v.fed && p.reclaimed == v.reclaimed && |p.buffer| <= |v.buffer|
    ensures Lean(limits, p)
  {
    hide Consumed, HeadKept, Outgrows;
  }

  lemma StarvedUnbroken(limits: Limits, v: View)
    requires v.Inv(limits) && v.Starved(limits)
    ensures ParseAll(limits, v.fed, 0).failure == None
  {
    hide View.Resting, View.Costs, ParseOne, ParseAll, Taken;
    TakenIsParse(limits, v.fed, 0, v.taken, v.base);
    ParseEnds(limits, v.fed, v.base);
  }

  /** A read within the room that is left, by a parser with nothing to return. */
  ghost predicate Fed(limits: Limits, v: View, p: View, bytes: string) {
    && p.fed == v.fed + bytes && |bytes| <= RECV_CHUNK
    && p.Buffered() == v.Buffered() + |bytes| <= limits.MaxRequestBytes()
    && p.start == (if v.start == |v.buffer| || v.start >= |v.buffer| / 2 then 0 else v.start)
    && p.reclaimed == v.reclaimed + v.start - p.start
  }

  lemma LeanFeed(limits: Limits, v: View, p: View, bytes: string)
    requires v.Inv(limits) && v.Starved(limits) && Lean(limits, v) && (v.state == AwaitBody ==> v.bodyLength >= 1)
    requires Fed(limits, v, p, bytes)
    ensures Lean(limits, p)
  {
    hide Consumed, HeadKept, Outgrows, View.Inv, View.Starved, ParseAll;
    StarvedUnbroken(limits, v);
    StarvedConsumed(limits, v);
    ConsumesOn(limits, v.fed, bytes, 0);
    KeptWithin(limits, p.fed, 0);
    RoomFeed(limits, v, p, bytes);
  }

  lemma RoomFeed(limits: Limits, v: View, p: View, bytes: string)
    requires v.Inv(limits) && v.Starved(limits) && Lean(limits, v) && (v.state == AwaitBody ==> v.bodyLength >= 1)
    requires Fed(limits, v, p, bytes)
    ensures |p.buffer| <= limits.MaxRequestBytes() || Outgrows(limits)
  {
    hide Consumed, HeadKept, Outgrows, View.Inv, View.Starved, Announceable, ShortestHead;
    StarvedConsumed(limits, v);
    StarvedAwaits(limits, v);
    if |p.buffer| > limits.MaxRequestBytes() && bytes != "" {
      if v.state == AwaitHead {
        assert HeadOutgrows(limits);
      } else {
        assert BodyOutgrows(limits, v.bodyLength);
      }
      ItOutgrows(limits, v.bodyLength);
    }
  }

  lemma ItOutgrows(limits: Limits, n: nat)
    requires HeadOutgrows(limits) || BodyOutgrows(limits, n)
    ensures Outgrows(limits)
  {
  }
}
