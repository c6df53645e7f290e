/**
 What a connection must say: a pure function from the bytes received to the bytes sent.
 Parse the whole stream, answer each request in order, number the answers from one, and
 stop after the first that closes the connection.
 */
module Exchange {
  import opened Text
  import opened Decimal
  import opened Messages
  import opened Framing
  import opened RequestInfo
  import opened Responses

  /** The request handler, `None` when it threw, and the text given for each framing error. */
  datatype Service = Service(handle: Request -> Option<Response>, wording: ParseError -> string)

  function Handled(service: Service, r: Request): Response {
    match service.handle(r)
    case Some(response) => response
    case None => TextResponse(500, "internal server error").(closeConnection := true)
  }

  /** The handler's response, made final when the client asked for that, and without a body for HEAD. */
  ghost function Answer(service: Service, r: Request): Response {
    var response := Handled(service, r);
    response.(
      closeConnection := response.closeConnection || !Persists(r),
      omitBody := response.omitBody || r.verb == "HEAD")
  }

  /** A handler that throws is answered for with 500 and the end of the connection; another keeps what it said. */
  lemma AnswerIs(service: Service, r: Request)
    ensures var a := Answer(service, r);
            match service.handle(r)
            case None =>
              a.status == 500 && a.closeConnection && a.body == "internal server error\n" && a.headers == []
            case Some(h) =>
              && a.status == h.status && a.body == h.body && a.headers == h.headers
              && (a.closeConnection <==> h.closeConnection || !Persists(r))
              && (a.omitBody <==> h.omitBody || r.verb == "HEAD")
  {
    hide Persists;
  }

  function ErrorReply(service: Service, e: ParseError): Response {
    TextResponse(e.Status(), service.wording(e)).(closeConnection := true)
  }

  function TimeoutReply(): Response {
    TextResponse(408, "timed out waiting for the rest of the request").(closeConnection := true)
  }

  ghost function Replies(service: Service, requests: seq<Request>, failure: Option<ParseError>): seq<Response> {
    if requests == [] then
      match failure case None => [] case Some(e) => [ErrorReply(service, e)]
    else
      var first := Answer(service, requests[0]);
      if first.closeConnection then [first] else [first] + Replies(service, requests[1..], failure)
  }

  /** The evidence headers: which connection this is, and which response on it. */
  function Numbered(id: nat, n: nat, r: Response): Response {
    r.(headers := r.headers + [Header("X-Connection-Id", OfNat(id)), Header("X-Request-Number", OfNat(n))])
  }

  /** The bytes of responses 1, 2, 3, … of connection `id`. */
  function Wire(id: nat, rs: seq<Response>): string {
    if rs == [] then ""
    else Wire(id, rs[..|rs| - 1]) + Serialize(Numbered(id, |rs|, rs[|rs| - 1]))
  }

  ghost function ExpectedReplies(service: Service, limits: Limits, received: string): seq<Response> {
    var parsed := ParseAll(limits, received, 0);
    Replies(service, parsed.requests, parsed.failure)
  }

  ghost function Expected(service: Service, limits: Limits, id: nat, received: string): string {
    Wire(id, ExpectedReplies(service, limits, received))
  }

  lemma NothingToSay(service: Service, id: nat)
    ensures Replies(service, [], None) == [] && Wire(id, []) == ""
  {
  }

  // ---------------------------------------------------------------- which response closes

  predicate NoneCloses(rs: seq<Response>) {
    forall i | 0 <= i < |rs| :: !rs[i].closeConnection
  }

  predicate LastCloses(rs: seq<Response>) {
    rs != [] && rs[|rs| - 1].closeConnection
  }

  /** At most one response says close, and nothing follows it. */
  predicate OnlyLastMayClose(rs: seq<Response>) {
    forall i | 0 <= i < |rs| - 1 :: !rs[i].closeConnection
  }

  lemma {:induction false} OnlyTheLastReplyCloses(service: Service, requests: seq<Request>, failure: Option<ParseError>)
    ensures OnlyLastMayClose(Replies(service, requests, failure))
    ensures failure.Some? ==> LastCloses(Replies(service, requests, failure))
    decreases |requests|
  {
    hide Answer;
    if requests != [] {
      OnlyTheLastReplyCloses(service, requests[1..], failure);
    }
  }

  /** When no reply closes, the first does not, nor do the others. */
  lemma NoneClosesRest(service: Service, requests: seq<Request>)
    requires requests != [] && NoneCloses(Replies(service, requests, None))
    ensures var first, rest := Answer(service, requests[0]), Replies(service, requests[1..], None);
            !first.closeConnection && NoneCloses(rest) && Replies(service, requests, None) == [first] + rest
  {
    hide Answer;
    var first, rest := Answer(service, requests[0]), Replies(service, requests[1..], None);
    assert Replies(service, requests, None)[0] == first;
    assert forall i | 0 <= i < |rest| :: rest[i] == ([first] + rest)[i + 1];
  }

  /** While nothing has closed, one more request means one more reply. */
  lemma {:induction false} RepliesExtend(service: Service, requests: seq<Request>, r: Request)
    requires NoneCloses(Replies(service, requests, None))
    ensures Replies(service, requests + [r], None) == Replies(service, requests, None) + [Answer(service, r)]
    decreases |requests|
  {
    hide Answer;
    if requests == [] {
      assert ([r])[1..] == [];
      assert [] + [r] == [r];
    } else {
      NoneClosesRest(service, requests);
      RepliesExtend(service, requests[1..], r);
      assert (requests + [r])[1..] == requests[1..] + [r];
    }
  }

  /** While nothing has closed, a framing error means one more reply. */
  lemma {:induction false} RepliesFail(service: Service, requests: seq<Request>, e: ParseError)
    requires NoneCloses(Replies(service, requests, None))
    ensures Replies(service, requests, Some(e)) == Replies(service, requests, None) + [ErrorReply(service, e)]
    decreases |requests|
  {
    hide Answer, ErrorReply;
    if requests != [] {
      NoneClosesRest(service, requests);
      RepliesFail(service, requests[1..], e);
    }
  }

  /** More requests only add replies at the end, and none after one that closes. */
  lemma {:induction false} RepliesGrow(service: Service, a: seq<Request>, b: seq<Request>, failure: Option<ParseError>)
    ensures Replies(service, a, None) <= Replies(service, a + b, failure)
    ensures LastCloses(Replies(service, a, None)) ==> Replies(service, a + b, failure) == Replies(service, a, None)
    decreases |a|
  {
    hide Answer;
    if a != [] {
      RepliesGrow(service, a[1..], b, failure);
      assert (a + b)[1..] == a[1..] + b && (a + b)[0] == a[0];
    }
  }

  // ---------------------------------------------------------------- which request a reply answers

  /** Reply `i` answers request `i`; the one after the last request reports the framing error. */
  lemma {:induction false} ReplyAt(service: Service, requests: seq<Request>, failure: Option<ParseError>, i: nat)
    requires i < |Replies(service, requests, failure)|
    ensures i <= |requests|
    ensures i < |requests| ==> Replies(service, requests, failure)[i] == Answer(service, requests[i])
    ensures i == |requests| ==>
              failure.Some? && Replies(service, requests, failure)[i] == ErrorReply(service, failure.value)
    decreases |requests|
  {
    hide Answer, ErrorReply;
    if requests != [] && i > 0 {
      ReplyAt(service, requests[1..], failure, i - 1);
    }
  }

  /** While no answer closes, there is one for every request. */
  lemma {:induction false} RepliesReach(service: Service, requests: seq<Request>, failure: Option<ParseError>, k: nat)
    requires k <= |requests| && forall j | 0 <= j < k :: !Answer(service, requests[j]).closeConnection
    ensures k < |requests| || failure.Some? ==> k < |Replies(service, requests, failure)|
    ensures k <= |Replies(service, requests, failure)|
    decreases |requests|
  {
    hide Answer, ErrorReply;
    if requests != [] && k > 0 {
      assert forall j | 0 <= j < k - 1 :: requests[1..][j] == requests[j + 1];
      RepliesReach(service, requests[1..], failure, k - 1);
    }
  }

  lemma {:induction false} RepliesAll(service: Service, requests: seq<Request>)
    requires NoneCloses(Replies(service, requests, None))
    ensures |Replies(service, requests, None)| == |requests|
    decreases |requests|
  {
    hide Answer;
    if requests != [] {
      NoneClosesRest(service, requests);
      RepliesAll(service, requests[1..]);
    }
  }

  /** The handler leaves it to the connection to withhold a body. */
  ghost predicate SendsBodies(service: Service) {
    forall r: Request :: service.handle(r).Some? ==> !service.handle(r).value.omitBody
  }

  /** Which of the first `n` replies answer a framed HEAD request. */
  function AnswersHead(requests: seq<Request>, n: nat): seq<bool> {
    seq(n, i requires 0 <= i < n => i < |requests| && requests[i].verb == "HEAD")
  }

  /** A body is withheld from exactly the answers to framed HEAD requests; an error reply always carries one. */
  lemma OmitsIffHead(service: Service, requests: seq<Request>, failure: Option<ParseError>, i: nat)
    requires SendsBodies(service) && i < |Replies(service, requests, failure)|
    ensures Replies(service, requests, failure)[i].omitBody <==> i < |requests| && requests[i].verb == "HEAD"
  {
    hide Replies, Persists;
    ReplyAt(service, requests, failure, i);
  }

  // ---------------------------------------------------------------- bytes

  lemma {:induction false} WireGrows(id: nat, rs: seq<Response>, more: seq<Response>)
    requires rs <= more
    ensures Wire(id, rs) <= Wire(id, more)
    decreases |more|
  {
    hide Serialize, Numbered;
    if |rs| < |more| {
      WireGrows(id, rs, more[..|more| - 1]);
    } else {
      assert rs == more;
    }
  }

  lemma WireAppend(id: nat, rs: seq<Response>, r: Response)
    ensures Wire(id, rs + [r]) == Wire(id, rs) + Serialize(Numbered(id, |rs| + 1, r))
  {
  }

  /** Receiving more never changes what was to be said, only adds to it. */
  lemma ExpectedGrows(service: Service, limits: Limits, id: nat, received: string, more: string)
    requires limits.maxHeaderBytes >= 1
    ensures Expected(service, limits, id, received) <= Expected(service, limits, id, received + more)
  {
    hide ParseAll, Replies, Wire;
    var p, q := ParseAll(limits, received, 0), ParseAll(limits, received + more, 0);
    ParseAllGrows(limits, received, more, 0);
    if p.failure.None? {
      RepliesGrow(service, p.requests, q.requests[|p.requests|..], q.failure);
      assert p.requests + q.requests[|p.requests|..] == q.requests;
      WireGrows(id, Replies(service, p.requests, None), Replies(service, q.requests, q.failure));
    }
  }
}
