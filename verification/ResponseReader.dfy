/**
 The client's reader (tools/demo_client.cpp:120-185): it splits the byte stream into
 responses by Content-Length, and is shown to undo the server's serializer.
 */
module ResponseReading {
  import opened Text
  import opened Decimal
  import opened Messages
  import opened Responses

  datatype HttpResponse = HttpResponse(status: int, reason: string, headers: seq<Header>, body: string, raw: string)

  datatype ReadError = ServerClosed | MalformedStatusLine | BadStatus | NoContentLength | BadContentLength

  // ---------------------------------------------------------------- std::stoi and std::stoul

  predicate IsSpace(c: char) {
    c == ' ' || 9 <= c as int <= 13
  }

  function SpacesEnd(s: string, i: nat): (k: nat)
    requires i <= |s|
    ensures i <= k <= |s| && (k < |s| ==> !IsSpace(s[k]))
    decreases |s| - i
  {
    if i < |s| && IsSpace(s[i]) then SpacesEnd(s, i + 1) else i
  }

  function DigitsEnd(s: string, i: nat): (k: nat)
    requires i <= |s|
    ensures i <= k <= |s| && (k < |s| ==> !IsDigit(s[k])) && forall j | i <= j < k :: IsDigit(s[j])
    decreases |s| - i
  {
    if i < |s| && IsDigit(s[i]) then DigitsEnd(s, i + 1) else i
  }

  /** Optional space, optional sign, digits; what follows them is ignored. */
  function LeadingInteger(s: string): Option<int> {
    var i := SpacesEnd(s, 0);
    var signed := i < |s| && (s[i] == '-' || s[i] == '+');
    var from := if signed then i + 1 else i;
    var to := DigitsEnd(s, from);
    if from == to then None
    else
      var value: int := Value(s[from..to]);
      Some(if signed && s[i] == '-' then -value else value)
  }

  const INT_LIMIT: int := 0x8000_0000
  const ULONG_MODULUS: int := 0x1_0000_0000_0000_0000

  function Stoi(s: string): Option<int> {
    match LeadingInteger(s)
    case Some(v) => if -INT_LIMIT <= v < INT_LIMIT then Some(v) else None
    case None => None
  }

  function Stoul(s: string): Option<nat> {
    match LeadingInteger(s)
    case Some(v) => if -ULONG_MODULUS < v < ULONG_MODULUS then Some(v % ULONG_MODULUS) else None
    case None => None
  }

  /** `text` is space, a sign or none, digits that denote `v`, and something that does not go on with a digit. */
  ghost predicate IsLeading(text: string, space: string, sign: string, digits: string, rest: string, v: int) {
    && (forall c | c in space :: c == ' ' || '\t' <= c <= '\r') && (sign == "" || sign == "+" || sign == "-")
    && digits != "" && AllDigits(digits) && (rest != "" ==> rest[0] < '0' || rest[0] > '9')
    && text == space + sign + digits + rest && v == if sign == "-" then -(Value(digits) as int) else Value(digits)
  }

  /** What `strtol` reads: exactly the number such a text denotes. */
  lemma LeadingIntegerIff(s: string, v: int)
    ensures LeadingInteger(s) == Some(v) <==>
            exists space: string, sign: string, digits: string, rest: string ::
              IsLeading(s, space, sign, digits, rest, v)
  {
    hide LeadingInteger, IsLeading;
    if LeadingInteger(s) == Some(v) {
      LeadingFound(s, v);
    }
    forall space: string, sign: string, digits: string, rest: string | IsLeading(s, space, sign, digits, rest, v)
      ensures LeadingInteger(s) == Some(v)
    {
      LeadingRead(s, space, sign, digits, rest, v);
    }
  }

  lemma LeadingFound(s: string, v: int)
    requires LeadingInteger(s) == Some(v)
    ensures exists space: string, sign: string, digits: string, rest: string ::
              IsLeading(s, space, sign, digits, rest, v)
  {
    hide Value, SpacesEnd, DigitsEnd;
    var i := SpacesEnd(s, 0);
    var signed := i < |s| && (s[i] == '-' || s[i] == '+');
    var from := if signed then i + 1 else i;
    var to := DigitsEnd(s, from);
    SpacesBefore(s, 0);
    var space, sign, digits, rest := s[..i], s[i..from], s[from..to], s[to..];
    assert s == space + sign + digits + rest;
    assert signed ==> sign == [s[i]];
    assert IsLeading(s, space, sign, digits, rest, v);
  }

  lemma {:induction false} SpacesBefore(s: string, i: nat)
    requires i <= |s|
    ensures forall j | i <= j < SpacesEnd(s, i) :: s[j] == ' ' || '\t' <= s[j] <= '\r'
    decreases |s| - i
  {
    if i < |s| && IsSpace(s[i]) {
      SpacesBefore(s, i + 1);
    }
  }

  lemma LeadingRead(s: string, space: string, sign: string, digits: string, rest: string, v: int)
    requires IsLeading(s, space, sign, digits, rest, v)
    ensures LeadingInteger(s) == Some(v)
  {
    hide Value, SpacesEnd, DigitsEnd;
    FourParts(space, sign, digits, rest);
    var i, from := |space|, |space| + |sign|;
    var to := from + |digits|;
    assert forall j | 0 <= j < i :: s[j] in space;
    SpacesSkipped(s, 0, i);
    DigitsTaken(s, from, to);
  }

  lemma FourParts(a: string, b: string, c: string, d: string)
    ensures var s := a + b + c + d; var i, j := |a|, |a| + |b|; var k := j + |c|;
            && |s| == k + |d| && s[i..j] == b && s[j..k] == c
            && (forall x | 0 <= x < i :: s[x] == a[x]) && (forall x | j <= x < k :: s[x] == c[x - j])
            && (b != "" ==> s[i] == b[0]) && (c != "" ==> s[j] == c[0]) && (d != "" ==> s[k] == d[0])
  {
    var s := a + b + c + d;
    assert s == a + (b + (c + d));
  }

  lemma {:induction false} SpacesSkipped(s: string, i: nat, k: nat)
    requires i <= k <= |s| && (forall j | i <= j < k :: s[j] == ' ' || '\t' <= s[j] <= '\r')
    requires k < |s| && (IsDigit(s[k]) || s[k] == '-' || s[k] == '+')
    ensures SpacesEnd(s, i) == k
    decreases k - i
  {
    if i < k {
      SpacesSkipped(s, i + 1, k);
    }
  }

  lemma {:induction false} DigitsTaken(s: string, i: nat, k: nat)
    requires i <= k <= |s| && (forall j | i <= j < k :: IsDigit(s[j])) && (k < |s| ==> !IsDigit(s[k]))
    ensures DigitsEnd(s, i) == k
    decreases k - i
  {
    if i < k {
      DigitsTaken(s, i + 1, k);
    }
  }

  /** The ranges of `int` and `unsigned long`; a minus sign makes the latter wrap. */
  lemma StandardRanges(s: string, v: int)
    requires LeadingInteger(s) == Some(v)
    ensures Stoi(s) == if -2_147_483_648 <= v <= 2_147_483_647 then Some(v) else None
    ensures Stoul(s) ==
            if v < -18_446_744_073_709_551_615 || v > 18_446_744_073_709_551_615 then None
            else if v < 0 then Some(v + 18_446_744_073_709_551_616) else Some(v)
  {
    hide LeadingInteger;
  }

  lemma LeadingIntegerInverts(n: nat)
    ensures LeadingInteger(OfNat(n)) == Some(n)
  {
    var s := OfNat(n);
    assert IsDigit(s[0]);
    assert SpacesEnd(s, 0) == 0;
    var to := DigitsEnd(s, 0);
    assert to == |s|;
    assert s[0..to] == s;
    ValueInvertsOfNat(n);
  }

  // ---------------------------------------------------------------- one response

  function DropSpaces(s: string): string {
    if s != "" && s[0] == ' ' then DropSpaces(s[1..]) else s
  }

  function ReadHeader(line: string): Header {
    var colon := Find(line, ':', 0);
    if colon == |line| then Header(line, DropSpaces(line))
    else Header(line[..colon], DropSpaces(line[colon + 1..]))
  }

  /**
   A field line is split at its first colon, and the spaces after that are dropped; without one it is taken for both.
   */
  lemma HeaderSplits(name: string, spaces: string, value: string)
    requires ':' !in name && (forall c | c in spaces :: c == ' ') && (value != "" ==> value[0] != ' ')
    ensures ReadHeader(name + ":" + spaces + value) == Header(name, value)
    ensures ':' !in value ==> ReadHeader(spaces + value) == Header(spaces + value, value)
  {
    if ':' !in value {
      var bare := spaces + value;
      NotInConcat(':', spaces, value);
      assert bare[0..|bare|] == bare;
      FindAt(bare, ':', 0, |bare|);
    }
    var line := name + ":" + spaces + value;
    var n := |name|;
    assert line[0..n] == name && line[..n] == name && line[n + 1..] == spaces + value;
    FindAt(line, ':', 0, n);
    SpacesDropped(spaces, value);
  }

  lemma {:induction false} SpacesDropped(spaces: string, value: string)
    requires (forall c | c in spaces :: c == ' ') && (value != "" ==> value[0] != ' ')
    ensures DropSpaces(spaces + value) == value
    decreases |spaces|
  {
    if spaces == "" {
      assert spaces + value == value;
    } else {
      assert spaces[0] in spaces && forall c | c in spaces[1..] :: c in spaces;
      assert (spaces + value)[1..] == spaces[1..] + value;
      SpacesDropped(spaces[1..], value);
    }
  }

  /** The fields from `pos` on; every line ends with CRLF. */
  function ReadHeaders(head: string, pos: nat): seq<Header>
    requires pos <= |head|
    decreases |head| - pos
  {
    if pos == |head| then []
    else
      match FindText(head, EOL, pos)
      case None => []
      case Some(end) => [ReadHeader(head[pos..end])] + ReadHeaders(head, end + 2)
  }

  function FirstValue(headers: seq<Header>, name: string): string {
    if headers == [] then ""
    else if IEquals(headers[0].name, name) then headers[0].value
    else FirstValue(headers[1..], name)
  }

  datatype Status = Status(code: int, reason: string)

  function ReadStatusLine(line: string): Result<Status, ReadError> {
    var first := Find(line, ' ', 0);
    if first == |line| || |line| < 5 || line[..5] != "HTTP/" then Err(MalformedStatusLine)
    else
      var second := Find(line, ' ', first + 1);
      match Stoi(line[first + 1..second])
      case None => Err(BadStatus)
      case Some(code) => Ok(Status(code, if second == |line| then "" else line[second + 1..]))
  }

  /** A status line is split at its first two spaces: what starts with HTTP and a slash, a number, and the rest. */
  lemma StatusLineSplits(version: string, code: string, reason: string)
    requires ' ' !in version && ' ' !in code
    ensures ReadStatusLine(version + " " + code + " " + reason) ==
            if |version| < 5 || version[..5] != "HTTP/" then Err(MalformedStatusLine)
            else match Stoi(code) case None => Err(BadStatus) case Some(v) => Ok(Status(v, reason))
    ensures |version| >= 5 && version[..5] == "HTTP/" ==>
              ReadStatusLine(version + " " + code) ==
              match Stoi(code) case None => Err(BadStatus) case Some(v) => Ok(Status(v, ""))
  {
    hide Stoi;
    NoReason(version, code);
    var line := version + " " + code + " " + reason;
    var a, b := |version|, |version| + 1 + |code|;
    ThreeParts(version, code, reason);
    FindAt(line, ' ', 0, a);
    FindAt(line, ' ', a + 1, b);
  }

  lemma NoReason(version: string, code: string)
    requires ' ' !in version && ' ' !in code
    ensures |version| >= 5 && version[..5] == "HTTP/" ==>
              ReadStatusLine(version + " " + code) ==
              match Stoi(code) case None => Err(BadStatus) case Some(v) => Ok(Status(v, ""))
  {
    hide Stoi;
    var line, a := version + " " + code, |version|;
    assert line[0..a] == version && line[a] == ' ' && line[a + 1..|line|] == code;
    FindAt(line, ' ', 0, a);
    FindAt(line, ' ', a + 1, |line|);
    assert a >= 5 ==> line[..5] == version[..5];
  }

  lemma ThreeParts(a: string, b: string, c: string)
    ensures var s := a + " " + b + " " + c; var i := |a|; var j := i + 1 + |b|;
            && |s| == j + 1 + |c| && s[i] == ' ' && s[j] == ' '
            && s[0..i] == a && s[i + 1..j] == b && s[j + 1..] == c
            && (|s| >= 5 ==> (s[..5] == "HTTP/" <==> |a| >= 5 && a[..5] == "HTTP/"))
  {
    var s, i := a + " " + b + " " + c, |a|;
    if i >= 5 {
      assert s[..5] == a[..5];
    } else if |s| >= 5 {
      assert s[..5][i] == ' ' && ' ' !in "HTTP/";
    }
  }

  datatype ReadHead = ReadHead(status: Status, headers: seq<Header>, length: nat)

  /** Everything the head says; `head` keeps the CRLF of its last line. */
  function ParseResponseHead(head: string): Result<ReadHead, ReadError> {
    match FindText(head, EOL, 0)
    case None => Err(MalformedStatusLine)
    case Some(end) =>
      match ReadStatusLine(head[..end])
      case Err(e) => Err(e)
      case Ok(status) =>
        var headers := ReadHeaders(head, end + 2);
        var text := FirstValue(headers, "Content-Length");
        if text == "" then Err(NoContentLength)
        else
          match Stoul(text)
          case None => Err(BadContentLength)
          case Some(length) => Ok(ReadHead(status, headers, length))
  }

  const BLANK := "\r\n\r\n"

  /**
   The first response of the stream `s`, when `s` is all the server will ever send. The demo client reads with
   `toHead` false; a reader that sets it for its HEAD requests takes no body bytes for them.
   */
  function Read(s: string, toHead: bool): Result<HttpResponse, ReadError> {
    match FindText(s, BLANK, 0)
    case None => Err(ServerClosed)
    case Some(k) =>
      match ParseResponseHead(s[..k + 2])
      case Err(e) => Err(e)
      case Ok(h) =>
        var end := k + 4 + if toHead then 0 else h.length;
        if |s| < end then Err(ServerClosed)
        else Ok(HttpResponse(h.status.code, h.status.reason, h.headers, s[k + 4..end], s[..end]))
  }

  /** Where the first response of `s` ends by its own account, if its head can be read. */
  function ClaimedEnd(s: string): Option<nat> {
    match FindText(s, BLANK, 0)
    case None => None
    case Some(k) =>
      match ParseResponseHead(s[..k + 2])
      case Err(_) => None
      case Ok(head) => Some(k + 4 + head.length)
  }

  /** That end does not fit in `std::size_t`; the demo client's sum then wraps. */
  predicate Overflows(s: string) {
    ClaimedEnd(s).Some? && ClaimedEnd(s).value >= ULONG_MODULUS
  }

  /** The sum of head end and body length, in `std::size_t`. */
  function WrappedEnd(headEnd: nat, length: nat): nat {
    (headEnd + length) % ULONG_MODULUS
  }

  /** A sum that wraps falls short of the head it started from, unless that head is itself too long for the type. */
  lemma WrapsIff(headEnd: nat, length: nat)
    requires length < ULONG_MODULUS
    ensures var end := WrappedEnd(headEnd, length);
            && end < ULONG_MODULUS
            && (headEnd + length < ULONG_MODULUS ==> end == headEnd + length)
            && (headEnd + length >= ULONG_MODULUS ==> end < headEnd + length)
            && (headEnd < ULONG_MODULUS <= headEnd + length ==> end < headEnd)
  {
  }

  lemma LengthFits(head: string)
    ensures ParseResponseHead(head).Ok? ==> ParseResponseHead(head).value.length < ULONG_MODULUS
  {
    hide FindText, ReadStatusLine, ReadHeaders, FirstValue, LeadingInteger;
  }

  /** What the first response is, once its head has been read. */
  lemma FirstResponse(s: string, k: nat, head: ReadHead)
    requires FindText(s, BLANK, 0) == Some(k) && k + 4 <= |s| && ParseResponseHead(s[..k + 2]) == Ok(head)
    ensures var end := k + 4 + head.length;
            && ClaimedEnd(s) == Some(end)
            && Read(s, false) == if |s| < end then Err(ServerClosed) else
                 Ok(HttpResponse(head.status.code, head.status.reason, head.headers, s[k + 4..end], s[..end]))
  {
    hide FindText, ParseResponseHead, At;
  }

  lemma SliceOfFront(front: string, back: string, i: nat, j: nat)
    requires i <= j <= |front|
    ensures (front + back)[i..j] == front[i..j]
  {
  }

  /** The loop that collects the fields. */
  method CollectHeaders(head: string, from: nat) returns (headers: seq<Header>)
    requires from <= |head|
    ensures headers == ReadHeaders(head, from)
  {
    hide ReadHeader, FindText;
    headers := [];
    var pos := from;
    while pos < |head|
      invariant pos <= |head| && headers + ReadHeaders(head, pos) == ReadHeaders(head, from)
    {
      var end := FindText(head, EOL, pos);
      if end.None? {
        break;
      }
      AtWithin(head, end.value, EOL);
      headers := headers + [ReadHeader(head[pos..end.value])];
      pos := end.value + 2;
    }
  }

  /** The head of a response, read piece by piece. */
  method ReadHeadOf(head: string) returns (r: Result<ReadHead, ReadError>)
    ensures r == ParseResponseHead(head)
  {
    hide FindText, ReadStatusLine, ReadHeaders, FirstValue, Stoul;
    var end := FindText(head, EOL, 0);
    if end.None? {
      return Err(MalformedStatusLine);
    }
    AtWithin(head, end.value, EOL);
    var status := ReadStatusLine(head[..end.value]);
    if status.Err? {
      return Err(status.error);
    }
    var headers := CollectHeaders(head, end.value + 2);
    var text := FirstValue(headers, "Content-Length");
    if text == "" {
      return Err(NoContentLength);
    }
    var length := Stoul(text);
    r := if length.None? then Err(BadContentLength) else Ok(ReadHead(status.value, headers, length.value));
  }

  // ---------------------------------------------------------------- the reader

  /** What the server put on the wire and the client has not received yet. */
  class Incoming {
    var remaining: string

    /** recv: some of what is left, or nothing exactly when the server has closed. */
    method Receive(want: nat) returns (chunk: string)
      requires want > 0
      modifies this
      ensures chunk + remaining == old(remaining) && |chunk| <= want
      ensures chunk == "" <==> old(remaining) == ""
    {
      var n: int := *;
      if n < 1 || n > want || n > |remaining| {
        n := if remaining == "" then 0 else 1;
      }
      chunk, remaining := remaining[..n], remaining[n..];
    }
  }

  const CHUNK: nat := 4096

  class ResponseReader {
    const source: Incoming
    var buffer: string

    constructor (source: Incoming)
      ensures this.source == source && buffer == ""
    {
      this.source := source;
      buffer := "";
    }

    ghost function Stream(): string
      reads this, source
    {
      buffer + source.remaining
    }

    method Fill() returns (open: bool)
      modifies this, source
      ensures Stream() == old(Stream())
      ensures open ==> |source.remaining| < old(|source.remaining|)
      ensures !open ==> source.remaining == "" && buffer == old(buffer)
    {
      var chunk := source.Receive(CHUNK);
      open := chunk != "";
      assert (buffer + chunk) + source.remaining == buffer + (chunk + source.remaining);
      buffer := buffer + chunk;
    }

    /** Receives until the buffer holds the end of a head; where that is, it is in the whole stream. */
    method FillToBlank() returns (blank: Option<nat>)
      modifies this, source
      ensures Stream() == old(Stream()) && blank == FindText(Stream(), BLANK, 0)
      ensures blank.Some? ==> blank.value + 4 <= |buffer|
    {
      hide FindText;
      ghost var all := Stream();
      while FindText(buffer, BLANK, 0).None?
        invariant Stream() == all
        decreases |source.remaining|
      {
        var open := Fill();
        if !open {
          assert buffer == all;
          return None;
        }
      }
      blank := FindText(buffer, BLANK, 0);
      FindTextStable(buffer, source.remaining, BLANK);
      AtWithin(buffer, blank.value, BLANK);
    }

    method FillUpTo(size: nat) returns (open: bool)
      modifies this, source
      ensures Stream() == old(Stream()) && |old(buffer)| <= |buffer|
      ensures if open then size <= |buffer| else buffer == Stream() && |buffer| < size
    {
      ghost var all := Stream();
      open := true;
      while |buffer| < size
        invariant Stream() == all && |old(buffer)| <= |buffer|
        decreases |source.remaining|
      {
        open := Fill();
        if !open {
          assert buffer == all;
          return;
        }
      }
    }

    /**
     However the bytes arrive, the answer is the first response of the stream if and only if its size does not
     overflow. If it does, the reader reports success and consumes only as many bytes as are left of the sum when it
     wraps: not even the whole head. What is consumed is in every case what is reported as the raw response.
     */
    method ReadOne() returns (r: Result<HttpResponse, ReadError>)
      modifies this, source
      ensures r == Read(old(Stream()), false) <==> !Overflows(old(Stream()))
      ensures Overflows(old(Stream())) ==> r.Ok? && |r.value.raw| == ClaimedEnd(old(Stream())).value % ULONG_MODULUS
      ensures Overflows(old(Stream())) && |old(Stream())| < ULONG_MODULUS ==>
                |r.value.raw| < FindText(old(Stream()), BLANK, 0).value + 4
      ensures r.Ok? ==> r.value.raw + Stream() == old(Stream())
      ensures r.Err? ==> Stream() == old(Stream())
    {
      hide FindText, ParseResponseHead;
      ghost var all := Stream();
      var blank := FillToBlank();
      if blank.None? {
        return Err(ServerClosed);
      }
      var k := blank.value;
      SliceOfFront(buffer, source.remaining, 0, k + 2);
      var head := ReadHeadOf(buffer[..k + 2]);
      if head.Err? {
        return Err(head.error);
      }
      FirstResponse(all, k, head.value);
      LengthFits(buffer[..k + 2]);
      hide Read, ClaimedEnd;
      r := ReadRest(k + 4, head.value);
    }

    /** The rest of a response whose head ends at `headEnd`: wait for the announced bytes, then cut them off. */
    method ReadRest(headEnd: nat, head: ReadHead) returns (r: Result<HttpResponse, ReadError>)
      requires headEnd <= |buffer| && head.length < ULONG_MODULUS
      modifies this, source
      ensures r.Ok? ==> r.value.raw + Stream() == old(Stream())
      ensures r.Err? ==> Stream() == old(Stream())
      ensures var s, end := old(Stream()), headEnd + head.length;
              if end < ULONG_MODULUS then
                r == if |s| < end then Err(ServerClosed) else
                     Ok(HttpResponse(head.status.code, head.status.reason, head.headers, s[headEnd..end], s[..end]))
              else
                && r.Ok? && |r.value.raw| == end % ULONG_MODULUS < end
                && (headEnd < ULONG_MODULUS ==> |r.value.raw| < headEnd)
    {
      ghost var all := Stream();
      var end := WrappedEnd(headEnd, head.length);
      WrapsIff(headEnd, head.length);
      assert end == (headEnd + head.length) % ULONG_MODULUS;
      hide WrappedEnd;
      var open := FillUpTo(end);
      if !open {
        return Err(ServerClosed);
      }
      var stop := if |buffer| < headEnd + head.length then |buffer| else headEnd + head.length;
      var body := buffer[headEnd..stop];
      SliceOfFront(buffer, source.remaining, headEnd, stop);
      var raw := TakeFront(end);
      r := Ok(HttpResponse(head.status.code, head.status.reason, head.headers, body, raw));
    }

    method TakeFront(count: nat) returns (raw: string)
      requires count <= |buffer|
      modifies this
      ensures raw + Stream() == old(Stream()) && raw == old(Stream())[..count]
    {
      raw := buffer[..count];
      assert raw + (buffer[count..] + source.remaining) == Stream();
      buffer := buffer[count..];
    }
  }

  // ---------------------------------------------------------------- undoing the serializer

  /** What a field must look like for a client to read it back: no CR, no colon in the name, no leading space. */
  predicate Readable(h: Header) {
    && '\r' !in h.name && ':' !in h.name && '\r' !in h.value
    && (h.value != "" ==> h.value[0] != ' ')
  }

  ghost predicate AllReadable(headers: seq<Header>) {
    forall i | 0 <= i < |headers| :: Readable(headers[i])
  }

  lemma HeaderReadBack(h: Header)
    requires Readable(h)
    ensures ReadHeader(HeaderLine(h)) == h
  {
    var line, n := HeaderLine(h), |h.name|;
    assert line[0..n] == h.name && line[..n] == h.name && line[n] == ':' && line[n + 1..] == " " + h.value;
    FindAt(line, ':', 0, n);
    assert (" " + h.value)[1..] == h.value;
    assert DropSpaces(h.value) == h.value && DropSpaces(" " + h.value) == DropSpaces(h.value);
  }

  lemma HeaderLineClean(h: Header)
    requires Readable(h)
    ensures '\r' !in HeaderLine(h) && HeaderLine(h) != "" && HeaderLine(h)[0] != '\r'
  {
  }

  lemma StatusReadBack(status: nat)
    requires status < INT_LIMIT
    ensures ReadStatusLine(StatusLine(status)) == Ok(Status(status, Reason(status)))
    ensures '\r' !in StatusLine(status)
  {
    hide OfNat, Reason, LeadingInteger, ReadStatusLine;
    var code, reason := OfNat(status), Reason(status);
    ReasonClean(status);
    LeadingIntegerInverts(status);
    StatusParts(code, reason);
    StatusSlices("HTTP/1.1" + " " + code + " " + reason, 8, 9 + |code|);
  }

  lemma StatusSlices(line: string, a: nat, b: nat)
    requires 5 <= a < b < |line| && line[..5] == "HTTP/" && line[a] == ' ' && line[b] == ' '
    requires ' ' !in line[0..a] && ' ' !in line[a + 1..b] && Stoi(line[a + 1..b]).Some?
    ensures ReadStatusLine(line) == Ok(Status(Stoi(line[a + 1..b]).value, line[b + 1..]))
  {
    hide Stoi, Find;
    FindAt(line, ' ', 0, a);
    FindAt(line, ' ', a + 1, b);
  }

  lemma ReasonClean(status: nat)
    ensures '\r' !in Reason(status)
  {
    hide Reason;
    if status == 431 || status == 505 {
      LongReasonClean(status);
    } else if status == 405 || status == 413 || status == 500 {
      MediumReasonClean(status);
    } else {
      ShortReasonClean(status);
    }
  }

  lemma LongReasonClean(status: nat)
    requires status == 431 || status == 505
    ensures '\r' !in Reason(status)
  {
    if status == 431 {
      assert '\r' !in "Request Header Fields Too Large";
    } else {
      assert '\r' !in "HTTP Version Not Supported";
    }
  }

  lemma MediumReasonClean(status: nat)
    requires status == 405 || status == 413 || status == 500
    ensures '\r' !in Reason(status)
  {
  }

  lemma ShortReasonClean(status: nat)
    requires status != 405 && status != 413 && status != 431 && status != 500 && status != 505
    ensures '\r' !in Reason(status)
  {
  }

  lemma StatusParts(code: string, reason: string)
    requires AllDigits(code) && '\r' !in reason
    ensures var line := "HTTP/1.1" + " " + code + " " + reason; var a, b := 8, 9 + |code|;
            && line[0..a] == "HTTP/1.1" && line[..5] == "HTTP/" && line[a] == ' ' && line[a + 1..b] == code
            && line[b] == ' ' && line[b + 1..] == reason && ' ' !in code && '\r' !in line
  {
  }

  /** A line free of CR, with its CRLF, before more text: no empty line starts in it. */
  lemma NoBlankInLine(s: string, i: nat, line: string)
    requires At(s, i, line + EOL) && '\r' !in line
    requires i + |line| + 2 < |s| && s[i + |line| + 2] != '\r'
    ensures forall j | i <= j < i + |line| + 2 :: !At(s, j, BLANK)
  {
    var e := i + |line|;
    AtSplit(s, i, line, EOL);
    assert s[e + 1] == '\n' by { assert s[e..e + 2][1] == '\n'; }
    forall j | i <= j < e + 2 ensures !At(s, j, BLANK) {
      if j < e {
        assert s[j] == s[i..e][j - i];
      }
      if At(s, j, BLANK) {
        BlankBytes(s, j);
      }
    }
  }

  lemma BlankBytes(s: string, j: nat)
    requires At(s, j, BLANK)
    ensures s[j] == '\r' && s[j + 1] == '\n' && s[j + 2] == '\r' && s[j + 3] == '\n'
  {
  }

  /** The empty line a reader finds after a block of fields is the one that ends it. */
  lemma {:induction false} BlankAfterHeaders(s: string, i: nat, headers: seq<Header>)
    requires headers != [] && AllReadable(headers) && At(s, i, HeaderBlock(headers) + EOL)
    ensures |HeaderBlock(headers)| >= 2 && At(s, i + |HeaderBlock(headers)| - 2, BLANK)
    ensures forall j | i <= j < i + |HeaderBlock(headers)| - 2 :: !At(s, j, BLANK)
    ensures i < |s| && s[i] != '\r'
    decreases |headers|
  {
    hide At, HeaderLine, Readable;
    var line, rest := HeaderLine(headers[0]), HeaderBlock(headers[1..]);
    HeaderLineClean(headers[0]);
    assert HeaderBlock(headers) + EOL == (line + EOL) + (rest + EOL);
    AtSplit(s, i, line + EOL, rest + EOL);
    AtStart(s, i, line);
    if headers[1..] == [] {
      OneLineBlank(s, i, line);
    } else {
      BlankAfterHeaders(s, i + |line| + 2, headers[1..]);
      NoBlankInLine(s, i, line);
    }
  }

  lemma AtStart(s: string, i: nat, line: string)
    requires At(s, i, line + EOL) && line != "" && line[0] != '\r'
    ensures i < |s| && s[i] != '\r'
  {
  }

  lemma OneLineBlank(s: string, i: nat, line: string)
    requires At(s, i, line + EOL) && At(s, i + |line| + 2, "" + EOL) && '\r' !in line
    ensures At(s, i + |line|, BLANK)
    ensures forall j | i <= j < i + |line| :: !At(s, j, BLANK)
  {
    AtSplit(s, i, line, EOL);
    var e := i + |line|;
    assert s[e..e + 4] == s[e..e + 2] + s[e + 2..e + 4];
    forall j | i <= j < e ensures !At(s, j, BLANK) {
      assert s[j] == s[i..e][j - i];
      if At(s, j, BLANK) {
        BlankBytes(s, j);
      }
    }
  }

  /** Reading a block of fields gives the fields back. */
  lemma {:induction false} HeadersReadBack(head: string, pos: nat, headers: seq<Header>)
    requires AllReadable(headers) && pos <= |head| && head[pos..] == HeaderBlock(headers)
    ensures ReadHeaders(head, pos) == headers
    decreases |headers|
  {
    hide HeaderLine, Readable, FindText, ReadHeader;
    if headers != [] {
      var line, rest := HeaderLine(headers[0]), HeaderBlock(headers[1..]);
      assert At(head, pos, head[pos..]);
      AtSplit(head, pos, line + EOL, rest);
      HeaderLineClean(headers[0]);
      HeaderReadBack(headers[0]);
      LineEnd(head, pos, line);
      assert head[pos + |line| + 2..] == rest;
      HeadersReadBack(head, pos + |line| + 2, headers[1..]);
      assert headers == [headers[0]] + headers[1..];
    }
  }

  lemma LineEnd(s: string, i: nat, line: string)
    requires At(s, i, line + EOL) && '\r' !in line
    ensures i <= |s| && FindText(s, EOL, i) == Some(i + |line|) && s[i..i + |line|] == line
  {
    hide FindText;
    AtSplit(s, i, line, EOL);
    forall j | i <= j < i + |line| ensures !At(s, j, EOL) {
      assert s[j] == s[i..i + |line|][j - i];
      if At(s, j, EOL) {
        AtIndex(s, j, EOL, 0);
      }
    }
  }

  /** The serializer's responses that a client can read back. */
  ghost predicate ReadableResponse(r: Response) {
    AllReadable(r.headers) && r.status < INT_LIMIT && |ResponseHead(r)| + |r.body| < ULONG_MODULUS
  }

  lemma AllHeadersReadable(r: Response)
    requires AllReadable(r.headers)
    ensures AllReadable(AllHeaders(r))
  {
    hide Readable, OfNat;
    var all := AllHeaders(r);
    LengthReadable(|r.body|);
    TypeReadable();
    ConnectionReadable(r.closeConnection);
    forall i | 0 <= i < |all| ensures Readable(all[i]) {
      if i >= 3 {
        assert all[i] == r.headers[i - 3];
      }
    }
  }

  lemma LengthReadable(n: nat)
    ensures Readable(Header("Content-Length", OfNat(n)))
  {
  }

  lemma TypeReadable()
    ensures Readable(Header("Content-Type", "text/plain"))
  {
  }

  lemma ConnectionReadable(close: bool)
    ensures Readable(Header("Connection", if close then "close" else "keep-alive"))
  {
  }

  lemma DigitsReadable(n: nat)
    ensures '\r' !in OfNat(n) && OfNat(n)[0] != ' '
  {
  }

  /** The parts of a head, where it stands in `s`. */
  lemma HeadBytes(status: nat, headers: seq<Header>, s: string)
    requires At(s, 0, HeadText(status, headers))
    ensures At(s, 0, StatusLine(status) + EOL)
    ensures At(s, |StatusLine(status)| + 2, HeaderBlock(headers) + EOL)
    ensures |HeadText(status, headers)| == |StatusLine(status)| + 2 + |HeaderBlock(headers)| + 2
  {
    hide StatusLine, HeaderBlock, At;
    var a, b := StatusLine(status) + EOL, HeaderBlock(headers);
    assert HeadText(status, headers) == a + (b + EOL);
    AtSplit(s, 0, a, b + EOL);
  }

  /** The reader's first empty line is the one that ends the head. */
  lemma BlankEndsHead(status: nat, headers: seq<Header>, s: string)
    requires headers != [] && AllReadable(headers) && status < INT_LIMIT && At(s, 0, HeadText(status, headers))
    ensures |HeadText(status, headers)| >= 4
    ensures FindText(s, BLANK, 0) == Some(|HeadText(status, headers)| - 4)
  {
    hide StatusLine, HeaderBlock, FindText, HeadText, ReadStatusLine;
    var line := StatusLine(status);
    HeadBytes(status, headers, s);
    StatusReadBack(status);
    BlankAfterHeaders(s, |line| + 2, headers);
    NoBlankInLine(s, 0, line);
  }

  /** Status, fields and length are read back from a head whose first Content-Length is `n`. */
  lemma HeadParsed(status: nat, headers: seq<Header>, n: nat)
    requires AllReadable(headers) && status < INT_LIMIT
    requires FirstValue(headers, "Content-Length") == OfNat(n) && n < ULONG_MODULUS
    ensures |HeadText(status, headers)| >= 2
    ensures ParseResponseHead(HeadText(status, headers)[..|HeadText(status, headers)| - 2])
         == Ok(ReadHead(Status(status, Reason(status)), headers, n))
  {
    hide StatusLine, HeaderBlock, FindText, ReadStatusLine, ReadHeaders, LeadingInteger, OfNat, Reason;
    var line, block := StatusLine(status), HeaderBlock(headers);
    var head := line + EOL + block;
    assert HeadText(status, headers)[..|HeadText(status, headers)| - 2] == head;
    assert head[0..|line + EOL|] == line + EOL;
    StatusReadBack(status);
    LineEnd(head, 0, line);
    assert head[..|line|] == line;
    assert head[|line| + 2..] == block;
    HeadersReadBack(head, |line| + 2, headers);
    LeadingIntegerInverts(n);
  }

  lemma HeadEndFound(r: Response, s: string)
    requires ReadableResponse(r) && At(s, 0, ResponseHead(r))
    ensures |ResponseHead(r)| >= 4 && FindText(s, BLANK, 0) == Some(|ResponseHead(r)| - 4)
  {
    hide HeadText, FindText, At;
    AllHeadersReadable(r);
    BlankEndsHead(r.status, AllHeaders(r), s);
  }

  lemma HeadReadBack(r: Response)
    requires ReadableResponse(r)
    ensures |ResponseHead(r)| >= 2
    ensures ParseResponseHead(ResponseHead(r)[..|ResponseHead(r)| - 2])
         == Ok(ReadHead(Status(r.status, Reason(r.status)), AllHeaders(r), |r.body|))
  {
    hide HeadText, ParseResponseHead, OfNat, Reason;
    AllHeadersReadable(r);
    HeadParsed(r.status, AllHeaders(r), |r.body|);
  }

  // ---------------------------------------------------------------- a size that overflows

  /** A head that announces `n` bytes of body and says nothing else. */
  function LengthOnly(n: nat): string {
    HeadText(200, [Header("Content-Length", OfNat(n))])
  }

  lemma LengthFirst(n: nat)
    ensures var headers := [Header("Content-Length", OfNat(n))];
            AllReadable(headers) && FirstValue(headers, "Content-Length") == OfNat(n)
  {
    hide OfNat, Readable;
    LengthReadable(n);
  }

  lemma LengthOnlyClaims(n: nat)
    requires n < ULONG_MODULUS
    ensures |LengthOnly(n)| >= 4 && ClaimedEnd(LengthOnly(n)) == Some(|LengthOnly(n)| + n)
    ensures n > 0 ==> Read(LengthOnly(n), false) == Err(ServerClosed)
  {
    hide HeadText, FindText, ParseResponseHead, FirstValue, OfNat, Read, Reason, ClaimedEnd, AllReadable;
    var s, headers := LengthOnly(n), [Header("Content-Length", OfNat(n))];
    LengthFirst(n);
    AtWhole(s);
    BlankEndsHead(200, headers, s);
    HeadParsed(200, headers, n);
    FirstResponse(s, |s| - 4, ReadHead(Status(200, Reason(200)), headers, n));
  }

  lemma LengthOnlyShort(n: nat)
    requires n < COUNTER_LIMIT
    ensures |LengthOnly(n)| <= 100
  {
    CounterDigits(n);
    CounterDigits(200);
    OkShort();
    hide OfNat, Reason;
    OneField(Header("Content-Length", OfNat(n)));
    hide HeaderBlock;
  }

  lemma OkShort()
    ensures |Reason(200)| == 2
  {
  }

  lemma OneField(h: Header)
    ensures |HeaderBlock([h])| == |h.name| + |h.value| + 4
  {
    assert [h][1..] == [];
  }

  /** The largest length `std::size_t` can count. */
  const HUGE: nat := ULONG_MODULUS - 1

  /** It overflows: the stream holds no response, and the wrapped end is one byte short of the head. */
  lemma HugeLengthOverflows()
    ensures Overflows(LengthOnly(HUGE)) && Read(LengthOnly(HUGE), false) == Err(ServerClosed)
    ensures ClaimedEnd(LengthOnly(HUGE)).value % ULONG_MODULUS == |LengthOnly(HUGE)| - 1
  {
    hide LengthOnly, Read, ClaimedEnd;
    LengthOnlyClaims(HUGE);
    LengthOnlyShort(HUGE);
    WrapsBack(|LengthOnly(HUGE)|);
  }

  lemma WrapsBack(size: nat)
    requires 1 <= size <= ULONG_MODULUS
    ensures (size + (ULONG_MODULUS - 1)) % ULONG_MODULUS == size - 1
  {
  }

  /** Yet the demo client reports a response, and leaves the last byte of its head as the start of the next. */
  method MisreadsHugeLength(reader: ResponseReader) returns (got: HttpResponse)
    requires reader.Stream() == LengthOnly(HUGE)
    modifies reader, reader.source
    ensures |got.raw| == |LengthOnly(HUGE)| - 1 && got.raw + reader.Stream() == LengthOnly(HUGE)
  {
    hide LengthOnly, Read, ClaimedEnd, FindText;
    HugeLengthOverflows();
    var r := reader.ReadOne();
    got := r.value;
  }

  // ---------------------------------------------------------------- one response

  /** What a reader makes of a serialized response and whatever comes after it. */
  lemma ReadSerialized(r: Response, toHead: bool, rest: string)
    requires ReadableResponse(r)
    ensures var s, n := Serialize(r) + rest, |ResponseHead(r)|;
            var end := n + if toHead then 0 else |r.body|;
            && !Overflows(s)
            && Read(s, toHead) == if |s| < end then Err(ServerClosed)
                                  else Ok(HttpResponse(r.status, Reason(r.status), AllHeaders(r), s[n..end], s[..end]))
  {
    hide ResponseHead, FindText, ParseResponseHead, Reason, AllHeaders;
    var s, head := Serialize(r) + rest, ResponseHead(r);
    assert s[0..|head|] == head;
    HeadEndFound(r, s);
    assert s[..|head| - 2] == head[..|head| - 2];
    HeadReadBack(r);
  }

  /** A response as a reader should see it. */
  function AsRead(r: Response): HttpResponse {
    HttpResponse(r.status, Reason(r.status), AllHeaders(r), if r.omitBody then "" else r.body, Serialize(r))
  }

  /** The reader takes a body exactly when one was sent, as far as that matters. */
  predicate Agrees(r: Response, toHead: bool) {
    toHead == r.omitBody || r.body == ""
  }

  /** Then reading undoes serializing, and leaves the following responses untouched. */
  lemma ResponseRoundTrip(r: Response, toHead: bool, rest: string)
    requires ReadableResponse(r) && Agrees(r, toHead)
    ensures Read(Serialize(r) + rest, toHead) == Ok(AsRead(r))
  {
    hide ResponseHead, Read, Reason, AllHeaders;
    ReadSerialized(r, toHead, rest);
    var s, n := Serialize(r) + rest, |ResponseHead(r)|;
    assert s[..|Serialize(r)|] == Serialize(r) && s[n..|Serialize(r)|] == if r.omitBody then "" else r.body;
  }

  /** Otherwise it fails, or takes too much or too little, whatever follows. */
  lemma OutOfStep(r: Response, toHead: bool, rest: string)
    requires ReadableResponse(r) && !Agrees(r, toHead)
    ensures var got := Read(Serialize(r) + rest, toHead); got.Ok? ==> |got.value.raw| != |Serialize(r)|
  {
    hide ResponseHead, Read, Reason, AllHeaders;
    ReadSerialized(r, toHead, rest);
  }

  /** The reader stays in step with the stream after this response, whatever follows. */
  ghost predicate InStep(r: Response, toHead: bool) {
    forall rest: string :: Read(Serialize(r) + rest, toHead) == Ok(AsRead(r))
  }

  lemma InStepIff(r: Response, toHead: bool)
    requires ReadableResponse(r)
    ensures InStep(r, toHead) <==> Agrees(r, toHead)
  {
    hide Serialize, Read, AsRead, Agrees, ReadableResponse;
    if Agrees(r, toHead) {
      forall rest: string ensures Read(Serialize(r) + rest, toHead) == Ok(AsRead(r)) {
        ResponseRoundTrip(r, toHead, rest);
      }
    } else {
      OutOfStep(r, toHead, "");
      RawIsAll(r);
      assert Read(Serialize(r) + "", toHead) != Ok(AsRead(r));
    }
  }

  lemma RawIsAll(r: Response)
    ensures AsRead(r).raw == Serialize(r)
  {
  }

  // ---------------------------------------------------------------- a stream of responses

  function WireBytes(rs: seq<Response>): string {
    if rs == [] then "" else Serialize(rs[0]) + WireBytes(rs[1..])
  }

  function AllAsRead(rs: seq<Response>): seq<HttpResponse> {
    seq(|rs|, i requires 0 <= i < |rs| => AsRead(rs[i]))
  }

  /** What was read off the front of a stream, and what is left of it. */
  datatype Reading = Reading(responses: seq<HttpResponse>, rest: string)

  /** Reading one response after the other, `toHead[i]` for the i-th; none when one fails. */
  function ReadFirst(s: string, toHead: seq<bool>): Option<Reading>
    decreases |toHead|
  {
    if toHead == [] then Some(Reading([], s))
    else
      match Read(s, toHead[0])
      case Err(_) => None
      case Ok(first) =>
        if |first.raw| > |s| then None
        else
          match ReadFirst(s[|first.raw|..], toHead[1..])
          case None => None
          case Some(more) => Some(Reading([first] + more.responses, more.rest))
  }

  ghost predicate AllAgree(rs: seq<Response>, toHead: seq<bool>) {
    |toHead| == |rs| && forall i | 0 <= i < |rs| :: Agrees(rs[i], toHead[i])
  }

  /**
   A reader of a mixed stream gets its first responses back, and leaves whatever follows them untouched, exactly when it
   agrees with each of them.
   */
  lemma {:induction false} StreamInStepIff(rs: seq<Response>, toHead: seq<bool>, rest: string)
    requires |toHead| == |rs| && forall i | 0 <= i < |rs| :: ReadableResponse(rs[i])
    ensures ReadFirst(WireBytes(rs) + rest, toHead) == Some(Reading(AllAsRead(rs), rest)) <==> AllAgree(rs, toHead)
    decreases |rs|
  {
    hide Read, Serialize, ReadableResponse, AsRead, Agrees;
    if rs == [] {
      assert AllAsRead(rs) == [] && WireBytes(rs) + rest == rest;
    } else {
      var more := WireBytes(rs[1..]) + rest;
      RawIsAll(rs[0]);
      var s := Serialize(rs[0]) + more;
      assert WireBytes(rs) + rest == s;
      assert AllAsRead(rs) == [AsRead(rs[0])] + AllAsRead(rs[1..]);
      if Agrees(rs[0], toHead[0]) {
        ResponseRoundTrip(rs[0], toHead[0], more);
        StreamInStepIff(rs[1..], toHead[1..], rest);
        assert s[|Serialize(rs[0])|..] == more;
        AgreeCons(rs, toHead);
        var tail := ReadFirst(more, toHead[1..]);
        assert tail.Some? ==> ([AsRead(rs[0])] + tail.value.responses)[1..] == tail.value.responses;
        assert AllAsRead(rs)[1..] == AllAsRead(rs[1..]);
      } else {
        OutOfStep(rs[0], toHead[0], more);
        assert ReadFirst(s, toHead).Some? ==> ReadFirst(s, toHead).value.responses[0] == Read(s, toHead[0]).value;
        assert AllAsRead(rs)[0] == AsRead(rs[0]);
      }
    }
  }

  lemma AgreeCons(rs: seq<Response>, toHead: seq<bool>)
    requires |toHead| == |rs| > 0
    ensures AllAgree(rs, toHead) <==> Agrees(rs[0], toHead[0]) && AllAgree(rs[1..], toHead[1..])
  {
    hide Agrees;
    if Agrees(rs[0], toHead[0]) && AllAgree(rs[1..], toHead[1..]) {
      forall i | 0 <= i < |rs| ensures Agrees(rs[i], toHead[i]) {
        if i > 0 {
          assert rs[i] == rs[1..][i - 1] && toHead[i] == toHead[1..][i - 1];
        }
      }
    }
  }

  /** The demo client's flags: it takes a body for every response. */
  function TakesBodies(n: nat): seq<bool> {
    seq(n, i => false)
  }

  /** So far every response came back, and the rest of the stream is the rest of the responses and what follows them. */
  ghost predicate InStepSoFar(rs: seq<Response>, got: seq<HttpResponse>, stream: string, after: string) {
    |got| <= |rs| && got == AllAsRead(rs[..|got|]) && stream == WireBytes(rs[|got|..]) + after
  }

  /** Some response came back wrong. */
  ghost predicate OutSoFar(rs: seq<Response>, got: seq<HttpResponse>) {
    |got| <= |rs| && exists i :: 0 <= i < |got| && got[i] != AsRead(rs[i])
  }

  lemma NextBytes(rs: seq<Response>, got: seq<HttpResponse>, stream: string, after: string)
    requires InStepSoFar(rs, got, stream, after) && |got| < |rs|
    ensures stream == Serialize(rs[|got|]) + (WireBytes(rs[|got| + 1..]) + after)
  {
    hide Serialize;
    var n := |got|;
    assert rs[n..][1..] == rs[n + 1..] && rs[n..][0] == rs[n];
  }

  lemma OneMore(rs: seq<Response>, got: seq<HttpResponse>, rest: string, after: string)
    requires |got| < |rs| && got == AllAsRead(rs[..|got|]) && rest == WireBytes(rs[|got| + 1..]) + after
    ensures InStepSoFar(rs, got + [AsRead(rs[|got|])], rest, after)
  {
    hide AsRead, WireBytes;
    var n := |got|;
    assert AllAsRead(rs[..n + 1]) == AllAsRead(rs[..n]) + [AsRead(rs[n])];
  }

  /** What one more reading makes of the next response. */
  lemma NextInStep(rs: seq<Response>, got: seq<HttpResponse>, stream: string, after: string)
    requires InStepSoFar(rs, got, stream, after) && |got| < |rs| && ReadableResponse(rs[|got|])
    ensures !Overflows(stream)
    ensures var r, next := rs[|got|], Read(stream, false);
            if Agrees(r, false) then
              && next == Ok(AsRead(r)) && |Serialize(r)| <= |stream|
              && InStepSoFar(rs, got + [next.value], stream[|Serialize(r)|..], after)
            else next.Ok? ==> next.value != AsRead(r)
  {
    hide Read, Serialize, ReadableResponse, AsRead, Agrees, Overflows, WireBytes;
    var r, rest := rs[|got|], WireBytes(rs[|got| + 1..]) + after;
    NextBytes(rs, got, stream, after);
    NoOverflow(r, rest);
    RawIsAll(r);
    if Agrees(r, false) {
      ResponseRoundTrip(r, false, rest);
      assert stream[|Serialize(r)|..] == rest;
      OneMore(rs, got, rest, after);
    } else {
      OutOfStep(r, false, rest);
    }
  }

  lemma NoOverflow(r: Response, rest: string)
    requires ReadableResponse(r)
    ensures !Overflows(Serialize(r) + rest)
  {
    hide Read, Serialize, ResponseHead, Overflows;
    ReadSerialized(r, false, rest);
  }

  lemma NothingReadYet(rs: seq<Response>, after: string)
    ensures InStepSoFar(rs, [], WireBytes(rs) + after, after)
  {
    assert rs[..0] == [] && rs[0..] == rs;
  }

  lemma AgreesWithAll(rs: seq<Response>)
    ensures AllAgree(rs, TakesBodies(|rs|)) <==> forall i | 0 <= i < |rs| :: Agrees(rs[i], false)
  {
    hide Agrees;
    if AllAgree(rs, TakesBodies(|rs|)) {
      forall i | 0 <= i < |rs| ensures Agrees(rs[i], false) {
        assert !TakesBodies(|rs|)[i];
      }
    }
  }

  lemma TooFew(rs: seq<Response>, got: seq<HttpResponse>)
    requires |got| < |rs|
    ensures got != AllAsRead(rs)
  {
  }

  lemma ReadToTheEnd(rs: seq<Response>, got: seq<HttpResponse>, stream: string, after: string)
    requires |got| == |rs|
    ensures InStepSoFar(rs, got, stream, after) ==> got == AllAsRead(rs) && stream == after
    ensures OutSoFar(rs, got) ==> got != AllAsRead(rs)
  {
    hide AsRead;
    assert rs[..|rs|] == rs && rs[|rs|..] == [] && WireBytes([]) + after == after;
  }

  lemma StillOut(rs: seq<Response>, got: seq<HttpResponse>, more: HttpResponse)
    requires OutSoFar(rs, got) && |got| < |rs|
    ensures OutSoFar(rs, got + [more])
  {
    hide AsRead;
    var i :| 0 <= i < |got| && got[i] != AsRead(rs[i]);
    assert (got + [more])[i] == got[i];
  }

  lemma NowOut(rs: seq<Response>, got: seq<HttpResponse>, more: HttpResponse)
    requires |got| < |rs| && more != AsRead(rs[|got|])
    ensures OutSoFar(rs, got + [more])
  {
    hide AsRead;
    assert (got + [more])[|got|] == more;
  }

  /**
   The demo client's loop: one reading per request. However the bytes arrive, and whatever comes after them, it gets the
   first responses of a stream and takes just their bytes, if and only if each has its body or an empty one.
   */
  method ReadAll(reader: ResponseReader, ghost rs: seq<Response>, ghost after: string, count: nat)
    returns (got: seq<HttpResponse>)
    requires count == |rs| && reader.Stream() == WireBytes(rs) + after
    requires forall i | 0 <= i < |rs| :: ReadableResponse(rs[i])
    modifies reader, reader.source
    ensures got == AllAsRead(rs) && reader.Stream() == after <==> AllAgree(rs, TakesBodies(count))
  {
    hide Read, Serialize, WireBytes, AllAsRead, ReadableResponse, AsRead, Agrees, Overflows, ClaimedEnd, FindText,
         AllAgree, InStepSoFar, OutSoFar;
    got := [];
    NothingReadYet(rs, after);
    AgreesWithAll(rs);
    for n := 0 to count
      invariant |got| == n
      invariant if forall i | 0 <= i < n :: Agrees(rs[i], false) then InStepSoFar(rs, got, reader.Stream(), after)
                else OutSoFar(rs, got)
    {
      ghost var before, inStep := reader.Stream(), forall i | 0 <= i < n :: Agrees(rs[i], false);
      if inStep {
        NextInStep(rs, got, before, after);
      }
      var r := reader.ReadOne();
      if r.Err? {
        TooFew(rs, got);
        return;
      }
      if !inStep {
        StillOut(rs, got, r.value);
      } else if !Agrees(rs[n], false) {
        NowOut(rs, got, r.value);
      } else {
        RawIsAll(rs[n]);
        assert reader.Stream() == before[|Serialize(rs[n])|..];
      }
      got := got + [r.value];
    }
    ReadToTheEnd(rs, got, reader.Stream(), after);
  }
}
