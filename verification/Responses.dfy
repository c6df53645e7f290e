/** Exact response bytes (src/response.cpp). */
module Responses {
  import opened Decimal
  import opened Messages

  function TextResponse(status: nat, text: string): Response {
    Response(status, text + "\n", [], false, false)
  }

  function Reason(status: nat): string {
    match status
    case 200 => "OK"
    case 400 => "Bad Request"
    case 404 => "Not Found"
    case 405 => "Method Not Allowed"
    case 408 => "Request Timeout"
    case 413 => "Content Too Large"
    case 431 => "Request Header Fields Too Large"
    case 500 => "Internal Server Error"
    case 501 => "Not Implemented"
    case 505 => "HTTP Version Not Supported"
    case _ => "Unknown"
  }

  function StatusLine(status: nat): string {
    "HTTP/1.1" + " " + OfNat(status) + " " + Reason(status)
  }

  /** The fields every response carries, then its own. */
  function AllHeaders(r: Response): seq<Header> {
    [ Header("Content-Length", OfNat(|r.body|)),
      Header("Content-Type", "text/plain"),
      Header("Connection", if r.closeConnection then "close" else "keep-alive")
    ] + r.headers
  }

  function HeaderLine(h: Header): string {
    h.name + ": " + h.value
  }

  const EOL := "\r\n"

  function HeaderBlock(headers: seq<Header>): string {
    if headers == [] then "" else HeaderLine(headers[0]) + EOL + HeaderBlock(headers[1..])
  }

  /** A head with this status and these fields, up to and including its empty line. */
  function HeadText(status: nat, headers: seq<Header>): string {
    StatusLine(status) + EOL + HeaderBlock(headers) + EOL
  }

  function ResponseHead(r: Response): string {
    HeadText(r.status, AllHeaders(r))
  }

  function Serialize(r: Response): string {
    ResponseHead(r) + if r.omitBody then "" else r.body
  }

  lemma {:induction false} BlockAppend(headers: seq<Header>, h: Header)
    ensures HeaderBlock(headers + [h]) == HeaderBlock(headers) + (HeaderLine(h) + EOL)
    decreases |headers|
  {
    hide HeaderLine;
    if headers == [] {
      assert ([] + [h])[1..] == [];
      assert HeaderBlock([h]) == HeaderLine(h) + EOL + "";
    } else {
      BlockAppend(headers[1..], h);
      assert (headers + [h])[1..] == headers[1..] + [h];
      var first, rest := HeaderLine(headers[0]) + EOL, HeaderBlock(headers[1..]);
      assert first + (rest + (HeaderLine(h) + EOL)) == (first + rest) + (HeaderLine(h) + EOL);
    }
  }

  /** Appends one field line to what is written so far. */
  method AppendHeader(out: string, ghost first: string, ghost done: seq<Header>, h: Header) returns (r: string)
    requires out == first + HeaderBlock(done)
    ensures r == first + HeaderBlock(done + [h])
  {
    hide HeaderLine, HeaderBlock;
    ghost var block := HeaderBlock(done);
    var line := h.name + ": ";
    line := line + h.value;
    assert line == HeaderLine(h) by { LineIs(h); }
    line := line + EOL;
    r := out + line;
    BlockAppend(done, h);
    assert (first + block) + line == first + (block + line);
  }

  lemma LineIs(h: Header)
    ensures HeaderLine(h) == h.name + ": " + h.value
  {
  }

  /** The code appends piece by piece; the pieces make up the head and the body. */
  method SerializeLoop(r: Response) returns (out: string)
    ensures out == Serialize(r)
  {
    hide OfNat, Reason, HeaderBlock, HeaderLine;
    out := "HTTP/1.1" + " ";
    out := out + OfNat(r.status);
    out := out + " ";
    out := out + Reason(r.status);
    out := out + EOL;
    ghost var first := out;
    assert first == StatusLine(r.status) + EOL;
    ghost var all := AllHeaders(r);
    EmptyBlock();
    assert out == first + HeaderBlock([]);
    assert [] + [all[0]] == all[..1] && all[..1] + [all[1]] == all[..2] && all[..2] + [all[2]] == all[..3];
    out := AppendHeader(out, first, [], Header("Content-Length", OfNat(|r.body|)));
    out := AppendHeader(out, first, all[..1], Header("Content-Type", "text/plain"));
    var connection := if r.closeConnection then "close" else "keep-alive";
    out := AppendHeader(out, first, all[..2], Header("Connection", connection));
    for i := 0 to |r.headers|
      invariant out == first + HeaderBlock(all[..3 + i])
    {
      assert all[..3 + i] + [r.headers[i]] == all[..3 + i + 1];
      out := AppendHeader(out, first, all[..3 + i], r.headers[i]);
    }
    assert all[..3 + |r.headers|] == all;
    out := out + EOL;
    if !r.omitBody {
      out := out + r.body;
    }
  }

  lemma EmptyBlock()
    ensures HeaderBlock([]) == ""
  {
  }
}
