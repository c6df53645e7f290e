/**
 Chunking independence: however the stream is cut into reads, and whenever the parser is
 asked in between, the requests and the error that come out are those of the whole stream.
 */
module Chunking {
  import opened Text
  import opened Messages
  import opened Framing
  import opened RequestParsing

  /** One read: the bytes it delivered, and how often the parser is asked before the next one. */
  datatype Read = Read(bytes: string, asks: nat)

  function StreamOf(schedule: seq<Read>): string {
    if schedule == [] then "" else StreamOf(schedule[..|schedule| - 1]) + schedule[|schedule| - 1].bytes
  }

  /** What a parser has reported is final, and together with what is left it is the parse of the stream. */
  lemma ReportedIsParse(limits: Limits, v: View)
    requires limits.maxHeaderBytes >= 1 && v.Inv(limits)
    ensures v.base <= |v.fed|
    ensures v.state == Failed ==> ParseOne(limits, v.fed, v.base) == Error(v.error)
    ensures ParseAll(limits, v.fed, 0).requests == v.taken + ParseAll(limits, v.fed, v.base).requests
    ensures ParseAll(limits, v.fed, 0).failure == ParseAll(limits, v.fed, v.base).failure
  {
    hide ParseOne, Taken, ParseAll, SkipEmptyLines, HeadAt;
    TakenIsParse(limits, v.fed, 0, v.taken, v.base);
    if v.state == Failed {
      assert v.fed == v.fed[..v.failedAt] + v.fed[v.failedAt..];
      ErrorStable(limits, v.fed[..v.failedAt], v.fed[v.failedAt..], v.base);
    }
  }

  function AsksIn(schedule: seq<Read>): nat {
    if schedule == [] then 0 else AsksIn(schedule[..|schedule| - 1]) + schedule[|schedule| - 1].asks
  }

  /** What a parser has spent on a stream so far: bytes moved by compaction, bytes looked at by the head search. */
  lemma LinearCost(limits: Limits, v: View)
    requires v.Inv(limits)
    ensures v.moved <= 2 * |v.fed| && v.examined <= 3 * (|v.fed| + v.searches)
  {
  }

  /**
   Every schedule of reads and questions gives the requests and the error of the whole stream. The work is linear,
   however the stream is cut: at most two bytes are moved per byte received, and the search looks at three bytes per
   byte received and per question asked.
   */
  method ParseInReads(limits: Limits, schedule: seq<Read>)
    returns (requests: seq<Request>, failure: Option<ParseError>, ghost moved: nat, ghost examined: nat)
    requires limits.maxHeaderBytes >= 1
    ensures Parsed(requests, failure) == ParseAll(limits, StreamOf(schedule), 0)
    ensures moved <= 2 * |StreamOf(schedule)|
    ensures examined <= 3 * (|StreamOf(schedule)| + AsksIn(schedule) + |requests| + 1)
  {
    hide View.Inv, ParseOne, ParseAll;
    var p := new RequestParser(limits);
    requests := [];
    for i := 0 to |schedule|
      invariant p.Valid() && p.limits == limits
      invariant p.fed == StreamOf(schedule[..i]) && requests == p.taken && p.searches <= AsksIn(schedule[..i])
    {
      assert schedule[..i + 1][..i] == schedule[..i];
      p.Feed(schedule[i].bytes);
      for k := 0 to schedule[i].asks
        invariant p.Valid() && p.limits == limits
        invariant p.fed == StreamOf(schedule[..i + 1]) && requests == p.taken
        invariant p.searches <= AsksIn(schedule[..i]) + k
      {
        var r := p.Next();
        if r.Complete? {
          requests := requests + [r.request];
        }
      }
    }
    assert schedule[..|schedule|] == schedule;
    requests, failure := Drain(p, requests);
    LinearCost(limits, p.AsView());
    moved, examined := p.moved, p.examined;
  }

  /** Takes everything that is complete; what it stops at is how the whole stream ends. */
  method Drain(p: RequestParser, before: seq<Request>)
    returns (requests: seq<Request>, failure: Option<ParseError>)
    requires p.Valid() && p.limits.maxHeaderBytes >= 1 && before == p.taken
    modifies p
    ensures p.Valid() && p.fed == old(p.fed)
    ensures Parsed(requests, failure) == ParseAll(p.limits, p.fed, 0)
    ensures before <= requests && p.searches <= old(p.searches) + |requests| - |before| + 1
  {
    hide View.Inv, ParseOne, ParseAll;
    requests := before;
    while true
      invariant p.Valid() && p.fed == old(p.fed) && requests == p.taken
      invariant before <= requests && p.searches <= old(p.searches) + |requests| - |before|
      decreases p.Buffered()
    {
      var r := p.Next();
      p.BaseWithin();
      ReportedIsParse(p.limits, p.AsView());
      ParseEnds(p.limits, p.fed, p.base);
      match r
      case Incomplete => return requests, None;
      case Error(e) => return requests, Some(e);
      case Complete(request) => requests := requests + [request];
    }
  }
}
