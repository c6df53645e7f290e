/** The text of each framing error, as the client sees it (src/request_parser.cpp:36-156, 196, 203, 296-298). */
module Wording {
  import opened Text
  import opened Decimal
  import opened Messages

  function Message(e: ParseError): string {
    match e
    case MalformedRequestLine(_) | InvalidMethod(_) | TargetNotOriginForm(_) => RequestLineText(e)
    case TargetCharacter | InvalidVersion(_) | UnsupportedVersion(_) => TargetText(e)
    case LineFolding | MissingColon(_) | InvalidHeaderName(_) | ControlInValue(_) => FieldLineText(e)
    case AmbiguousFraming | TransferEncoding => FramingText(e)
    case RepeatedLength | EmptyLength | InvalidLength(_) => LengthText(e)
    case _ => LimitText(e)
  }

  function RequestLineText(e: ParseError): string {
    match e
    case MalformedRequestLine(line) =>
      "malformed request line '" + Excerpt(line) + "': expected exactly 'METHOD /target HTTP/1.1'"
    case InvalidMethod(verb) => "malformed request line: invalid method '" + Excerpt(verb) + "'"
    case TargetNotOriginForm(target) =>
      "malformed request line: target must start with '/', got '" + Excerpt(target) + "'"
    case _ => ""
  }

  function TargetText(e: ParseError): string {
    match e
    case TargetCharacter => "malformed request line: invalid character in request target"
    case InvalidVersion(version) => "malformed request line: invalid HTTP version '" + Excerpt(version) + "'"
    case UnsupportedVersion(version) =>
      "HTTP version " + version + " is not supported; use HTTP/1.1 (or HTTP/1.0)"
    case _ => ""
  }

  function FieldLineText(e: ParseError): string {
    match e
    case LineFolding => "obsolete header line folding is not supported"
    case MissingColon(line) => "malformed header line '" + Excerpt(line) + "': missing ':'"
    case InvalidHeaderName(name) => "malformed header line: invalid header name '" + Excerpt(name) + "'"
    case ControlInValue(name) => "malformed header line: control character in value of '" + Excerpt(name) + "'"
    case _ => ""
  }

  function FramingText(e: ParseError): string {
    match e
    case AmbiguousFraming => "both Transfer-Encoding and Content-Length present: ambiguous message framing"
    case TransferEncoding => "Transfer-Encoding is not supported; send the body with Content-Length"
    case _ => ""
  }

  function LengthText(e: ParseError): string {
    match e
    case RepeatedLength => "multiple Content-Length headers: ambiguous message framing"
    case EmptyLength => "empty Content-Length"
    case InvalidLength(text) =>
      "invalid Content-Length '" + Excerpt(text) + "': must be a non-negative decimal integer"
    case _ => ""
  }

  function LimitText(e: ParseError): string {
    match e
    case BodyTooLarge(limit) => "Content-Length exceeds the " + OfNat(limit) + "-byte body limit"
    case HeadTooLarge(limit) => "request head exceeds " + OfNat(limit) + " bytes"
    case MissingRequestLine => "malformed request: missing request line"
    case TooManyHeaders(limit) => "too many header fields (limit " + OfNat(limit) + ")"
    case _ => ""
  }
}

/** The text of each refusal (src/router.cpp:50-130, src/query.cpp:44-59, src/calculator.cpp:49-60). */
module RouterWording {
  import opened Text
  import opened QueryStrings
  import opened Calculator
  import opened Router

  function QueryText(e: QueryError): string {
    match e
    case EmptySegment => "malformed query string: empty parameter (stray '&')"
    case NoValue(segment) =>
      "malformed query string: parameter '" + Excerpt(segment) + "' has no value (expected name=value)"
    case BadEscape(segment) => "malformed query string: invalid percent-escape in '" + Excerpt(segment) + "'"
  }

  function OperandText(e: OperandError): string {
    match e
    case MalformedQuery(q) => QueryText(q)
    case UnknownParameter(name) =>
      "unknown query parameter '" + Excerpt(name) + "'; only a and b are accepted"
    case DuplicateParameter(name) => "duplicate query parameter '" + name + "'"
    case MissingBoth => "missing query parameters 'a' and 'b'"
    case MissingA => "missing query parameter 'a'"
    case MissingB => "missing query parameter 'b'"
    case BadOperand(name, why, text) => "query parameter '" + name + "'" + IntegerText(why, text)
  }

  function IntegerText(why: IntError, text: string): string {
    match why
    case IsEmpty => " is empty"
    case NotAnInteger => " is not an integer: '" + Excerpt(text) + "'"
    case OutOfRange => " is out of range for a signed 64-bit integer"
  }

  function RefusalText(refusal: Refusal): string {
    match refusal
    case ManyHosts => "multiple Host headers"
    case NoHost => "missing Host header (required in HTTP/1.1)"
    case BadHost(host) => "invalid Host header '" + Excerpt(host) + "'"
    case UnknownPath(path) => "unknown operation '" + Excerpt(path) + "'; supported: /add /sub /mul /div"
    case WrongMethod(verb) => "method " + Excerpt(verb) + " not allowed; use GET"
    case BadOperands(e) => OperandText(e)
    case BadArithmetic(DivisionByZero) => "division by zero"
    case BadArithmetic(Overflow) => "integer overflow: result does not fit in a signed 64-bit integer"
  }
}
