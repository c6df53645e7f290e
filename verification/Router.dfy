/** From a framed request to a response (src/router.cpp). */
module Router {
  import opened Text
  import opened Decimal
  import opened Messages
  import opened HeadGrammar
  import opened RequestInfo
  import opened Responses
  import opened QueryStrings
  import opened Calculator

  // ---------------------------------------------------------------- Host

  predicate IsAlnum(c: char) {
    IsDigit(c) || 'a' <= c <= 'z' || 'A' <= c <= 'Z'
  }

  predicate IsHostChar(c: char) {
    IsAlnum(c) || c == '-' || c == '.' || c == '_' || c == '~'
  }

  predicate IsAddressChar(c: char) {
    IsHex(c) || c == ':' || c == '.'
  }

  /** Letters, digits and the other unreserved characters of section 2.3 of RFC 3986. */
  lemma HostCharIff(c: char)
    ensures IsHostChar(c) <==> 'A' <= c <= 'Z' || 'a' <= c <= 'z' || c in "0123456789-._~"
  {
  }

  lemma AddressCharIff(c: char)
    ensures IsAddressChar(c) <==> c in "0123456789abcdefABCDEF:."
  {
  }

  /** "name[:port]", "1.2.3.4[:port]" or "[ipv6][:port]". */
  predicate IsValidHost(host: string) {
    if host == "" then false
    else if host[0] == '[' then
      var close := Find(host, ']', 0);
      && close < |host| && close != 1
      && (forall i | 1 <= i < close :: IsAddressChar(host[i]))
      && var rest := host[close + 1..];
         rest == "" || (rest[0] == ':' && AllDigits(rest[1..]))
    else
      var colon := Find(host, ':', 0);
      && colon > 0
      && (forall i | 0 <= i < colon :: IsHostChar(host[i]))
      && (colon < |host| ==> AllDigits(host[colon + 1..]))
  }

  /** Nothing, or a colon and digits. */
  predicate IsPortSuffix(port: string) {
    port == "" || (port[0] == ':' && AllDigits(port[1..]))
  }

  ghost predicate IsNamedHost(host: string, name: string, port: string) {
    && name != "" && (forall i | 0 <= i < |name| :: IsHostChar(name[i]))
    && IsPortSuffix(port) && host == name + port
  }

  ghost predicate IsBracketedHost(host: string, address: string, port: string) {
    && address != "" && (forall i | 0 <= i < |address| :: IsAddressChar(address[i]))
    && IsPortSuffix(port) && host == "[" + address + "]" + port
  }

  /** A host is a name or a bracketed address, each with an optional port, and nothing else. */
  lemma ValidHostIff(host: string)
    ensures IsValidHost(host) <==>
            || (exists name: string, port: string :: IsNamedHost(host, name, port))
            || (exists address: string, port: string :: IsBracketedHost(host, address, port))
  {
    if IsValidHost(host) {
      if host[0] == '[' {
        var close := Find(host, ']', 0);
        var address, port := host[1..close], host[close + 1..];
        assert host == "[" + address + "]" + port;
        assert forall i | 0 <= i < |address| :: address[i] == host[i + 1];
        assert IsBracketedHost(host, address, port);
      } else {
        var colon := Find(host, ':', 0);
        assert host == host[..colon] + host[colon..];
        assert colon < |host| ==> host[colon..][1..] == host[colon + 1..];
        assert IsNamedHost(host, host[..colon], host[colon..]);
      }
    }
    forall name: string, port: string | IsNamedHost(host, name, port) ensures IsValidHost(host) {
      NamedHostValid(host, name, port);
    }
    forall address: string, port: string | IsBracketedHost(host, address, port) ensures IsValidHost(host) {
      BracketedHostValid(host, address, port);
    }
  }

  lemma NamedHostValid(host: string, name: string, port: string)
    requires IsNamedHost(host, name, port)
    ensures IsValidHost(host)
  {
    assert host[0..|name|] == name && host[|name|..] == port;
    assert ':' !in name;
    FindAt(host, ':', 0, |name|);
    assert forall i | 0 <= i < |name| :: host[i] == name[i];
    assert port != "" ==> host[|name| + 1..] == port[1..];
  }

  lemma BracketedHostValid(host: string, address: string, port: string)
    requires IsBracketedHost(host, address, port)
    ensures IsValidHost(host)
  {
    var close := 1 + |address|;
    assert host[0..close] == "[" + address && host[close] == ']' && host[close + 1..] == port;
    assert ']' !in address && ']' !in "[" + address;
    FindAt(host, ']', 0, close);
    assert forall i | 1 <= i < close :: host[i] == address[i - 1];
  }

  const HOST := "Host"

  /** At most one Host, required in 1.1, and valid. */
  predicate HostAccepted(r: Request) {
    var hosts := ValuesOf(r.headers, HOST);
    |hosts| <= 1 && (hosts == [] ==> r.version == Http10) && (hosts != [] ==> IsValidHost(hosts[0]))
  }

  /** No two fields called Host, one of them in 1.1, and a valid value. */
  lemma HostAcceptedIff(r: Request)
    ensures HostAccepted(r) <==>
            && !Repeats(r.headers, "Host") && (HasField(r.headers, "Host") || r.version == Http10)
            && forall k: nat | OnlyField(r.headers, k, "Host") :: IsValidHost(r.headers[k].value)
  {
    hide IsValidHost, ValuesOf, IEquals, HasField, Repeats;
    ValuesMeaning(r.headers, "Host");
    if |ValuesOf(r.headers, "Host")| == 1 {
      var k: nat :| OnlyField(r.headers, k, "Host");
      assert ValuesOf(r.headers, "Host") == [r.headers[k].value];
    }
  }

  // ---------------------------------------------------------------- operands

  datatype OperandError =
    | MalformedQuery(query: QueryError)
    | UnknownParameter(name: string)
    | DuplicateParameter(name: string)
    | MissingBoth
    | MissingA
    | MissingB
    | BadOperand(name: string, why: IntError, text: string)

  datatype Slots = Slots(a: Option<string>, b: Option<string>)

  /** Takes the parameters in order; an unknown or repeated name stops it. */
  function Fill(slots: Slots, parameters: seq<Parameter>): Result<Slots, OperandError>
    decreases |parameters|
  {
    if parameters == [] then Ok(slots)
    else
      var p := parameters[0];
      if p.name != "a" && p.name != "b" then Err(UnknownParameter(p.name))
      else if p.name == "a" then
        if slots.a.Some? then Err(DuplicateParameter(p.name)) else Fill(slots.(a := Some(p.value)), parameters[1..])
      else
        if slots.b.Some? then Err(DuplicateParameter(p.name)) else Fill(slots.(b := Some(p.value)), parameters[1..])
  }

  datatype Operands = Operands(a: int, b: int)

  function ReadSlots(slots: Slots): Result<Operands, OperandError> {
    match (slots.a, slots.b)
    case (None, None) => Err(MissingBoth)
    case (None, Some(_)) => Err(MissingA)
    case (Some(_), None) => Err(MissingB)
    case (Some(a), Some(b)) =>
      match ParseInt64(a)
      case Err(e) => Err(BadOperand("a", e, a))
      case Ok(x) =>
        match ParseInt64(b)
        case Err(e) => Err(BadOperand("b", e, b))
        case Ok(y) => Ok(Operands(x, y))
  }

  function ParseOperands(query: string): Result<Operands, OperandError> {
    match ParseQuery(query)
    case Err(e) => Err(MalformedQuery(e))
    case Ok(parameters) =>
      match Fill(Slots(None, None), parameters)
      case Err(e) => Err(e)
      case Ok(slots) => ReadSlots(slots)
  }

  method ParseOperandsLoop(query: string) returns (r: Result<Operands, OperandError>)
    ensures r == ParseOperands(query)
  {
    hide ParseQuery, ParseInt64;
    var parsed := ParseQueryLoop(query);
    if parsed.Err? {
      return Err(MalformedQuery(parsed.error));
    }
    var parameters := parsed.value;
    var aText: Option<string>, bText: Option<string> := None, None;
    assert parameters[0..] == parameters;
    for i := 0 to |parameters|
      invariant Fill(Slots(None, None), parameters) == Fill(Slots(aText, bText), parameters[i..])
    {
      var p := parameters[i];
      assert parameters[i..][1..] == parameters[i + 1..];
      if p.name != "a" && p.name != "b" {
        return Err(UnknownParameter(p.name));
      }
      if p.name == "a" {
        if aText.Some? {
          return Err(DuplicateParameter(p.name));
        }
        aText := Some(p.value);
      } else {
        if bText.Some? {
          return Err(DuplicateParameter(p.name));
        }
        bText := Some(p.value);
      }
    }
    if aText.None? && bText.None? {
      return Err(MissingBoth);
    }
    if aText.None? {
      return Err(MissingA);
    }
    if bText.None? {
      return Err(MissingB);
    }
    var a := ParseInt64Loop(aText.value);
    if a.Err? {
      return Err(BadOperand("a", a.error, aText.value));
    }
    var b := ParseInt64Loop(bText.value);
    if b.Err? {
      return Err(BadOperand("b", b.error, bText.value));
    }
    r := Ok(Operands(a.value, b.value));
  }

  /** The query holds exactly one `a` and one `b`, in either order. */
  ghost predicate HoldsPair(query: string, a: string, b: string) {
    || ParseQuery(query) == Ok([Parameter("a", a), Parameter("b", b)])
    || ParseQuery(query) == Ok([Parameter("b", b), Parameter("a", a)])
  }

  /** The operands `x` and `y` are what the query holds. */
  ghost predicate Holds(query: string, x: int, y: int) {
    exists a: string, b: string :: HoldsPair(query, a, b) && ParseInt64(a) == Ok(x) && ParseInt64(b) == Ok(y)
  }

  lemma PairFills(a: string, b: string)
    ensures Fill(Slots(None, None), [Parameter("a", a), Parameter("b", b)]) == Ok(Slots(Some(a), Some(b)))
    ensures Fill(Slots(None, None), [Parameter("b", b), Parameter("a", a)]) == Ok(Slots(Some(a), Some(b)))
  {
    var p, q := Parameter("a", a), Parameter("b", b);
    assert [p, q][1..] == [q] && [q][1..] == [] && [q, p][1..] == [p] && [p][1..] == [];
    assert Fill(Slots(Some(a), None), [q]) == Ok(Slots(Some(a), Some(b)));
    assert Fill(Slots(None, Some(b)), [p]) == Ok(Slots(Some(a), Some(b)));
  }

  lemma OneSlotLeft(slots: Slots, parameters: seq<Parameter>)
    requires slots.a.Some? != slots.b.Some? && Fill(slots, parameters).Ok?
    requires Fill(slots, parameters).value.a.Some? && Fill(slots, parameters).value.b.Some?
    ensures |parameters| == 1
    ensures slots.a.Some? ==>
              parameters[0].name == "b" && Fill(slots, parameters) == Ok(slots.(b := Some(parameters[0].value)))
    ensures slots.b.Some? ==>
              parameters[0].name == "a" && Fill(slots, parameters) == Ok(slots.(a := Some(parameters[0].value)))
  {
  }

  lemma FilledByPair(parameters: seq<Parameter>, a: string, b: string)
    requires Fill(Slots(None, None), parameters) == Ok(Slots(Some(a), Some(b)))
    ensures || parameters == [Parameter("a", a), Parameter("b", b)]
            || parameters == [Parameter("b", b), Parameter("a", a)]
  {
    var p := parameters[0];
    var next := if p.name == "a" then Slots(Some(p.value), None) else Slots(None, Some(p.value));
    OneSlotLeft(next, parameters[1..]);
    assert parameters == [p, parameters[1..][0]];
  }

  /** Operands are accepted exactly when the query holds one of each and both are integers in range. */
  lemma OperandsIff(query: string, x: int, y: int)
    ensures ParseOperands(query) == Ok(Operands(x, y)) <==> Holds(query, x, y)
  {
    hide ParseQuery, ParseInt64, Fill;
    if ParseOperands(query) == Ok(Operands(x, y)) {
      var parameters := ParseQuery(query).value;
      var slots := Fill(Slots(None, None), parameters).value;
      FilledByPair(parameters, slots.a.value, slots.b.value);
      assert HoldsPair(query, slots.a.value, slots.b.value);
    }
    forall a: string, b: string | HoldsPair(query, a, b) && ParseInt64(a) == Ok(x) && ParseInt64(b) == Ok(y)
      ensures ParseOperands(query) == Ok(Operands(x, y))
    {
      PairFills(a, b);
    }
  }

  /** No parameter before `k` is unknown or repeats an earlier one. */
  predicate CleanBefore(parameters: seq<Parameter>, k: nat)
    requires k <= |parameters|
  {
    && (forall i | 0 <= i < k :: parameters[i].name == "a" || parameters[i].name == "b")
    && (forall i, j | 0 <= i < j < k :: parameters[i].name != parameters[j].name)
  }

  /** Each way decoded parameters can fail: the first unknown or repeated one, or one that is missing or no integer. */
  lemma OperandErrors(query: string, ps: seq<Parameter>)
    requires ParseQuery(query) == Ok(ps)
    ensures forall k: nat | k < |ps| && CleanBefore(ps, k) && !CleanBefore(ps, k + 1) ::
              var name := ps[k].name;
              ParseOperands(query) ==
                Err(if name == "a" || name == "b" then DuplicateParameter(name) else UnknownParameter(name))
    ensures ps == [] ==> ParseOperands(query) == Err(MissingBoth)
    ensures |ps| == 1 && ps[0].name == "a" ==> ParseOperands(query) == Err(MissingB)
    ensures |ps| == 1 && ps[0].name == "b" ==> ParseOperands(query) == Err(MissingA)
    ensures forall a: string, b: string | HoldsPair(query, a, b) && ParseInt64(a).Err? ::
              ParseOperands(query) == Err(BadOperand("a", ParseInt64(a).error, a))
    ensures forall a: string, b: string | HoldsPair(query, a, b) && ParseInt64(a).Ok? && ParseInt64(b).Err? ::
              ParseOperands(query) == Err(BadOperand("b", ParseInt64(b).error, b))
  {
    hide ParseQuery, ParseInt64;
    forall k: nat | k < |ps| && CleanBefore(ps, k) && !CleanBefore(ps, k + 1)
      ensures var name := ps[k].name;
              Fill(Slots(None, None), ps) ==
                Err(if name == "a" || name == "b" then DuplicateParameter(name) else UnknownParameter(name))
    {
      FillStops(ps, k);
    }
    forall a: string, b: string | HoldsPair(query, a, b)
      ensures Fill(Slots(None, None), ps) == Ok(Slots(Some(a), Some(b)))
    {
      PairFills(a, b);
    }
    if |ps| == 1 && (ps[0].name == "a" || ps[0].name == "b") {
      FillOne(ps);
    }
  }

  /** What one parameter fills. */
  function FilledBy(p: Parameter): Slots {
    if p.name == "a" then Slots(Some(p.value), None) else Slots(None, Some(p.value))
  }

  lemma FillOne(ps: seq<Parameter>)
    requires |ps| >= 1 && (ps[0].name == "a" || ps[0].name == "b")
    ensures Fill(Slots(None, None), ps) == Fill(FilledBy(ps[0]), ps[1..])
    ensures |ps| == 1 ==> Fill(Slots(None, None), ps) == Ok(FilledBy(ps[0]))
  {
    assert |ps| == 1 ==> ps[1..] == [];
  }

  /** A second one either repeats the first, or fills the other slot and leaves none. */
  lemma FillTwo(p: Parameter, qs: seq<Parameter>)
    requires |qs| >= 1 && (p.name == "a" || p.name == "b")
    ensures var name := qs[0].name;
            if name != "a" && name != "b" then Fill(FilledBy(p), qs) == Err(UnknownParameter(name))
            else if name == p.name then Fill(FilledBy(p), qs) == Err(DuplicateParameter(name))
            else |qs| >= 2 ==> Fill(FilledBy(p), qs) == Err(Trouble(qs[1].name))
  {
    assert |qs| >= 2 ==> qs[1..][0] == qs[1];
  }

  function Trouble(name: string): OperandError {
    if name == "a" || name == "b" then DuplicateParameter(name) else UnknownParameter(name)
  }

  lemma FillStops(ps: seq<Parameter>, k: nat)
    requires k < |ps| && CleanBefore(ps, k) && !CleanBefore(ps, k + 1)
    ensures var name := ps[k].name;
            Fill(Slots(None, None), ps) ==
              Err(if name == "a" || name == "b" then DuplicateParameter(name) else UnknownParameter(name))
  {
    if k == 0 {
      assert ps[0].name != "a" && ps[0].name != "b";
    } else {
      FillOne(ps);
      hide Fill;
      FillTwo(ps[0], ps[1..]);
      assert ps[1..][0] == ps[1];
      if k == 1 {
        assert ps[1].name == ps[0].name || (ps[1].name != "a" && ps[1].name != "b");
      } else {
        assert ps[0].name != ps[1].name && ps[1..][1] == ps[2];
      }
    }
  }

  // ---------------------------------------------------------------- the decision chain

  /** What each refusal says; the texts are in module RouterWording. */
  datatype Refusal =
    | ManyHosts
    | NoHost
    | BadHost(host: string)
    | UnknownPath(path: string)
    | WrongMethod(verb: string)
    | BadOperands(error: OperandError)
    | BadArithmetic(why: CalcError)
  {
    function Status(): nat {
      match this
      case UnknownPath(_) => 404
      case WrongMethod(_) => 405
      case _ => 400
    }
  }

  /** Host, then path, then method, then operands, then arithmetic: the first failure decides. */
  function Decide(r: Request): Result<int, Refusal> {
    var hosts := ValuesOf(r.headers, HOST);
    if |hosts| > 1 then Err(ManyHosts)
    else if hosts == [] && r.version == Http11 then Err(NoHost)
    else if hosts != [] && !IsValidHost(hosts[0]) then Err(BadHost(hosts[0]))
    else
      match OperationFromPath(Path(r))
      case None => Err(UnknownPath(Path(r)))
      case Some(op) =>
        if r.verb != "GET" then Err(WrongMethod(r.verb))
        else
          match ParseOperands(Query(r))
          case Err(e) => Err(BadOperands(e))
          case Ok(operands) =>
            match Calculate(op, operands.a, operands.b)
            case Err(e) => Err(BadArithmetic(e))
            case Ok(v) => Ok(v)
  }

  function Refuse(refusal: Refusal, text: string): Response {
    var response := TextResponse(refusal.Status(), text);
    if refusal.WrongMethod? then response.(headers := [Header("Allow", "GET")]) else response
  }

  /** The response to a request, given the text of each refusal. */
  function HandleRequest(r: Request, wording: Refusal -> string): Response {
    match Decide(r)
    case Ok(v) => TextResponse(200, OfInt(v))
    case Err(refusal) => Refuse(refusal, wording(refusal))
  }

  /** The checks one after the other, each with its own way out. */
  method Handle(r: Request, wording: Refusal -> string) returns (response: Response)
    ensures response == HandleRequest(r, wording)
  {
    hide ValuesOf, IsValidHost, OperationFromPath, ParseOperands, Calculate, Path, Query, OfInt;
    var hosts := HeaderCount(r.headers, HOST);
    if hosts > 1 {
      return Refuse(ManyHosts, wording(ManyHosts));
    }
    if hosts == 0 && r.version == Http11 {
      return Refuse(NoHost, wording(NoHost));
    }
    if hosts == 1 {
      var host := FirstHeader(r.headers, HOST);
      if !IsValidHost(host.value) {
        return Refuse(BadHost(host.value), wording(BadHost(host.value)));
      }
    }
    var operation := OperationFromPath(Path(r));
    if operation.None? {
      return Refuse(UnknownPath(Path(r)), wording(UnknownPath(Path(r))));
    }
    if r.verb != "GET" {
      return Refuse(WrongMethod(r.verb), wording(WrongMethod(r.verb)));
    }
    var operands := ParseOperandsLoop(Query(r));
    if operands.Err? {
      return Refuse(BadOperands(operands.error), wording(BadOperands(operands.error)));
    }
    var result := Calculate(operation.value, operands.value.a, operands.value.b);
    if result.Err? {
      return Refuse(BadArithmetic(result.error), wording(BadArithmetic(result.error)));
    }
    response := TextResponse(200, OfInt(result.value));
  }

  lemma DecideSteps(r: Request, v: int)
    ensures Decide(r) == Ok(v) <==>
            && HostAccepted(r) && r.verb == "GET" && OperationFromPath(Path(r)).Some? && ParseOperands(Query(r)).Ok?
            && var operands := ParseOperands(Query(r)).value;
               Calculate(OperationFromPath(Path(r)).value, operands.a, operands.b) == Ok(v)
  {
  }

  lemma HeldInRange(query: string, x: int, y: int)
    requires Holds(query, x, y)
    ensures InRange(x) && InRange(y) && ParseOperands(query) == Ok(Operands(x, y))
  {
    hide ParseInt64, HoldsPair, ParseOperands;
    OperandsIff(query, x, y);
    var a: string, b: string :| HoldsPair(query, a, b) && ParseInt64(a) == Ok(x) && ParseInt64(b) == Ok(y);
    ParsedInRange(a);
    ParsedInRange(b);
  }

  /** The path of an operation. */
  predicate IsKnownPath(path: string) {
    path == "/add" || path == "/sub" || path == "/mul" || path == "/div"
  }

  /**
   The status of every answer, and its Allow field: 404 for an unknown path and 405 for another method, each only once
   the Host is accepted; 200 when there is a result; 400 for all that is left, a bad Host on any path included.
   */
  lemma StatusIff(r: Request, wording: Refusal -> string)
    ensures var a := HandleRequest(r, wording); var known := IsKnownPath(Path(r));
            && (a.status == 404 <==> HostAccepted(r) && !known)
            && (a.status == 405 <==> HostAccepted(r) && known && r.verb != "GET")
            && (a.status == 200 <==> && HostAccepted(r) && known && r.verb == "GET"
                                     && exists op, x, y, v :: HasResult(r, op, x, y, v))
            && (a.status == 200 || a.status == 400 || a.status == 404 || a.status == 405)
            && a.headers == (if a.status == 405 then [Header("Allow", "GET")] else [])
            && !a.closeConnection && !a.omitBody
  {
    hide Means, HoldsPair, ParseInt64, Query, Path, OfInt, ParseOperands, Calculate, IsValidHost, ValuesOf, InRange;
    KnownIff(Path(r));
    hide OperationFromPath, IsKnownPath;
    if Decide(r).Ok? {
      SuccessIff(r, Decide(r).value);
      ResultOf(r, Decide(r).value);
    }
    forall op, x, y, v | HasResult(r, op, x, y, v) && HostAccepted(r) && r.verb == "GET" ensures Decide(r) == Ok(v) {
      KnownPath(op);
      SuccessIff(r, v);
    }
  }

  /** The request's path is that of `op`, its query holds `x` and `y`, and `v` is their result and fits. */
  ghost predicate HasResult(r: Request, op: Operation, x: int, y: int, v: int) {
    Path(r) == PathOf(op) && Holds(Query(r), x, y) && Means(op, x, y, v) && InRange(v)
  }

  lemma ResultOf(r: Request, v: int)
    requires Decide(r) == Ok(v)
    ensures exists op, x, y, v :: HasResult(r, op, x, y, v)
  {
    hide Decide, Means, HoldsPair, ParseInt64, Query, Path, InRange, HostAccepted;
    SuccessIff(r, v);
    var op := OperationFromPath(Path(r)).value;
    var x: int, y: int :| Holds(Query(r), x, y) && Means(op, x, y, v) && InRange(v);
    assert HasResult(r, op, x, y, v);
  }

  lemma KnownIff(path: string)
    ensures IsKnownPath(path) <==> OperationFromPath(path).Some?
  {
  }

  lemma KnownPath(op: Operation)
    ensures OperationFromPath(PathOf(op)) == Some(op)
  {
  }

  /** A request succeeds exactly when every check passes, and then with the exact mathematical result. */
  lemma SuccessIff(r: Request, v: int)
    ensures Decide(r) == Ok(v) <==>
            && HostAccepted(r) && r.verb == "GET" && OperationFromPath(Path(r)).Some?
            && exists x: int, y: int ::
                 Holds(Query(r), x, y) && Means(OperationFromPath(Path(r)).value, x, y, v) && InRange(v)
  {
    hide Decide, ParseOperands, Calculate, Means, HostAccepted, OperationFromPath, HoldsPair, Path, Query, ParseInt64;
    DecideSteps(r, v);
    if OperationFromPath(Path(r)).Some? {
      var op := OperationFromPath(Path(r)).value;
      if ParseOperands(Query(r)).Ok? {
        var operands := ParseOperands(Query(r)).value;
        OperandsIff(Query(r), operands.a, operands.b);
        HeldInRange(Query(r), operands.a, operands.b);
        CalculateIff(op, operands.a, operands.b, v);
      }
      forall x: int, y: int | Holds(Query(r), x, y) ensures ParseOperands(Query(r)) == Ok(Operands(x, y)) {
        HeldInRange(Query(r), x, y);
      }
    }
  }

  lemma ParsedInRange(text: string)
    ensures ParseInt64(text).Ok? ==> InRange(ParseInt64(text).value)
  {
  }

  // ---------------------------------------------------------------- a request for an operation

  function PathOf(op: Operation): string {
    match op
    case Add => "/add"
    case Subtract => "/sub"
    case Multiply => "/mul"
    case Divide => "/div"
  }

  lemma TargetParts(r: Request, op: Operation, query: string)
    requires r.target == PathOf(op) + "?" + query
    ensures Path(r) == PathOf(op) && Query(r) == query && OperationFromPath(Path(r)) == Some(op)
  {
    var path := PathOf(op);
    assert |path| == 4 && '?' !in path;
    assert r.target[0..4] == path && r.target[..4] == path && r.target[4] == '?' && r.target[5..] == query;
    FindAt(r.target, '?', 0, 4);
  }

  /** The target of a request for `op`: its path, and two parameters as they are written. */
  function TargetOf(op: Operation, ws: seq<Written>): string
    requires |ws| == 2
  {
    PathOf(op) + "?" + ws[0].nameText + "=" + ws[0].valueText + "&" + ws[1].nameText + "=" + ws[1].valueText
  }

  lemma TargetJoins(op: Operation, ws: seq<Written>)
    requires |ws| == 2
    ensures TargetOf(op, ws) == PathOf(op) + "?" + Join(ws)
  {
    assert ws[1..] == [ws[1]];
    SamePieces(PathOf(op) + "?", ws[0].nameText, ws[0].valueText, ws[1].nameText, ws[1].valueText);
  }

  lemma SamePieces(start: string, a: string, b: string, c: string, d: string)
    ensures start + ((a + "=" + b) + "&" + (c + "=" + d)) == start + a + "=" + b + "&" + c + "=" + d
  {
  }

  /** The decimal notation of `v` on a line of its own. */
  predicate IsResult(body: string, v: int) {
    body != "" && body[|body| - 1] == '\n' && IsDecimal(body[..|body| - 1], v)
  }

  lemma ResultIff(v: int, w: int)
    ensures IsResult(OfInt(v) + "\n", w) <==> v == w
  {
    hide OfInt, IsDecimal, IsInteger, IntegerValue;
    var body := OfInt(v) + "\n";
    assert body[..|body| - 1] == OfInt(v);
    DecimalIff(OfInt(v), w);
    IntegerValueInverts(v);
    IntegerValueInverts(w);
  }

  /** Two operands as a client may write them: any percent-spelling, in either order. */
  ghost predicate Writes(ws: seq<Written>, x: int, y: int) {
    && |ws| == 2 && ws[0].Good() && ws[1].Good()
    && (|| (&& ws[0].name == "a" && ws[1].name == "b"
            && ParseInt64(ws[0].value) == Ok(x) && ParseInt64(ws[1].value) == Ok(y))
        || (&& ws[0].name == "b" && ws[1].name == "a"
            && ParseInt64(ws[1].value) == Ok(x) && ParseInt64(ws[0].value) == Ok(y)))
  }

  lemma WrittenOperands(ws: seq<Written>, x: int, y: int)
    requires Writes(ws, x, y)
    ensures ParseOperands(Join(ws)) == Ok(Operands(x, y))
  {
    hide ParseQuery, ParseInt64, Join, Written.Good, Fill;
    QueryRoundTrip(ws);
    assert PlainOf(ws) == [ws[0].Plain(), ws[1].Plain()];
    OperandsIff(Join(ws), x, y);
    var (a, b) := if ws[0].name == "a" then (ws[0].value, ws[1].value) else (ws[1].value, ws[0].value);
    assert HoldsPair(Join(ws), a, b);
  }

  /** End to end: a well-formed GET is answered with the exact result if and only if it exists and fits. */
  lemma EndToEnd(r: Request, op: Operation, ws: seq<Written>, x: int, y: int, v: int, wording: Refusal -> string)
    requires HostAccepted(r) && r.verb == "GET" && Writes(ws, x, y) && r.target == TargetOf(op, ws)
    ensures var a := HandleRequest(r, wording);
            && (a.status == 200 && IsResult(a.body, v) <==> Means(op, x, y, v) && InRange(v))
            && (a.status == 200 || a.status == 400)
            && (a.status == 200 <==> exists w :: Means(op, x, y, w) && InRange(w))
  {
    TargetJoins(op, ws);
    TargetParts(r, op, Join(ws));
    WrittenOperands(ws, x, y);
    OperandsInRange(ws, x, y);
    hide *;
    Outcomes(r, op, x, y, v, wording);
  }

  lemma Outcomes(r: Request, op: Operation, x: int, y: int, v: int, wording: Refusal -> string)
    requires HostAccepted(r) && r.verb == "GET" && OperationFromPath(Path(r)) == Some(op)
    requires ParseOperands(Query(r)) == Ok(Operands(x, y)) && InRange(x) && InRange(y)
    ensures var a := HandleRequest(r, wording);
            && (a.status == 200 && IsResult(a.body, v) <==> Means(op, x, y, v) && InRange(v))
            && (a.status == 200 || a.status == 400)
            && (a.status == 200 <==> exists w :: Means(op, x, y, w) && InRange(w))
  {
    hide ParseOperands, Calculate, Means, IsValidHost, OfInt, Path, Query, ValuesOf, OperationFromPath, IsResult;
    var result := Calculate(op, x, y);
    assert Decide(r) == match result case Ok(w) => Ok(w) case Err(e) => Err(BadArithmetic(e));
    hide Decide;
    CalculateIff(op, x, y, v);
    if result.Ok? {
      CalculateIff(op, x, y, result.value);
      ResultIff(result.value, v);
    }
    forall w | Means(op, x, y, w) && InRange(w) ensures result == Ok(w) {
      CalculateIff(op, x, y, w);
    }
  }

  lemma OperandsInRange(ws: seq<Written>, x: int, y: int)
    requires Writes(ws, x, y)
    ensures InRange(x) && InRange(y)
  {
  }
}
