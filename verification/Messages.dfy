/** Requests, responses, limits and framing errors: the values the server passes around. */
module Messages {

  datatype HttpVersion = Http10 | Http11

  datatype Header = Header(name: string, value: string)

  /** Hard caps on what one client can make the server buffer. */
  datatype Limits = Limits(maxHeaderBytes: nat, maxHeaderCount: nat, maxBodyBytes: nat) {
    function MaxRequestBytes(): nat {
      maxHeaderBytes + maxBodyBytes
    }
  }

  const DEFAULT_LIMITS := Limits(8 * 1024, 100, 64 * 1024)

  /** One framed request, with the half-open interval of the stream it came from. */
  datatype Request = Request(
    verb: string,
    target: string,
    version: HttpVersion,
    headers: seq<Header>,
    body: string,
    streamBegin: nat,
    streamEnd: nat,
    headBytes: nat)

  datatype Response = Response(
    status: nat,
    body: string,
    headers: seq<Header>,
    closeConnection: bool,
    omitBody: bool)

  /** Why the byte stream can no longer be split into requests. */
  datatype ParseError =
    | MalformedRequestLine(line: string)
    | InvalidMethod(verb: string)
    | TargetNotOriginForm(target: string)
    | TargetCharacter
    | InvalidVersion(version: string)
    | UnsupportedVersion(version: string)
    | LineFolding
    | MissingColon(line: string)
    | InvalidHeaderName(name: string)
    | ControlInValue(name: string)
    | AmbiguousFraming
    | TransferEncoding
    | RepeatedLength
    | EmptyLength
    | InvalidLength(text: string)
    | BodyTooLarge(limit: nat)
    | HeadTooLarge(limit: nat)
    | MissingRequestLine
    | TooManyHeaders(limit: nat)
  {
    function Status(): nat {
      match this
      case UnsupportedVersion(_) => 505
      case TransferEncoding => 501
      case BodyTooLarge(_) => 413
      case HeadTooLarge(_) => 431
      case TooManyHeaders(_) => 431
      case _ => 400
    }
  }
}
