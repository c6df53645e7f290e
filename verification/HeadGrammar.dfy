/**
 The request head: request line, field lines and the body length they announce
 (src/request_parser.cpp:13-159; sections 3, 5 and 6.3 of RFC 9112).
 */
module HeadGrammar {
  import opened Text
  import opened Decimal
  import opened Messages

  // ---------------------------------------------------------------- tokens

  predicate IsTokenChar(c: char) {
    || 'a' <= c <= 'z' || 'A' <= c <= 'Z' || '0' <= c <= '9'
    || c == '!' || c == '#' || c == '$' || c == '%' || c == '&' || c == '\'' || c == '*' || c == '+'
    || c == '-' || c == '.' || c == '^' || c == '_' || c == '`' || c == '|' || c == '~'
  }

  /** Section 5.6.2 of RFC 9110: a token character is any visible character that is not a delimiter. */
  lemma TokenCharIff(c: char)
    ensures IsTokenChar(c) <==> 0x21 <= c as int <= 0x7E && c !in "\"(),/:;<=>?@[\\]{}"
  {
  }

  predicate IsToken(s: string) {
    s != "" && forall i | 0 <= i < |s| :: IsTokenChar(s[i])
  }

  lemma TokenIff(s: string)
    ensures IsToken(s) <==> |s| >= 1 && forall c | c in s :: '!' <= c <= '~' && c !in "\"(),/:;<=>?@[\\]{}"
  {
    hide IsTokenChar;
    forall c | c in s ensures IsTokenChar(c) <==> '!' <= c <= '~' && c !in "\"(),/:;<=>?@[\\]{}" {
      TokenCharIff(c);
    }
    assert forall i | 0 <= i < |s| :: s[i] in s;
  }

  // ---------------------------------------------------------------- request line

  datatype RequestLine = RequestLine(verb: string, target: string, version: HttpVersion)

  predicate IsTargetChar(c: char) {
    0x20 < c as int < 0x7F
  }

  predicate IsOriginForm(target: string) {
    target != "" && target[0] == '/' && forall i | 0 <= i < |target| :: IsTargetChar(target[i])
  }

  /** A target is made of visible ASCII characters. */
  lemma TargetCharIff(c: char)
    ensures IsTargetChar(c) <==> '!' <= c <= '~'
  {
  }

  lemma OriginFormIff(target: string)
    ensures IsOriginForm(target) <==> |target| >= 1 && target[0] == '/' && forall c | c in target :: '!' <= c <= '~'
  {
    forall i | 0 <= i < |target| ensures target[i] in target {
    }
  }

  function ParseVersion(text: string): Result<HttpVersion, ParseError> {
    if |text| != 8 || text[..5] != "HTTP/" || !IsDigit(text[5]) || text[6] != '.' || !IsDigit(text[7]) then
      Err(InvalidVersion(text))
    else if text[5] != '1' then Err(UnsupportedVersion(text))
    else Ok(if text[7] == '0' then Http10 else Http11)
  }

  function ParseRequestLine(line: string): Result<RequestLine, ParseError> {
    var first := Find(line, ' ', 0);
    if first == |line| then Err(MalformedRequestLine(line)) else
    var second := Find(line, ' ', first + 1);
    if second == |line| || Find(line, ' ', second + 1) < |line| then Err(MalformedRequestLine(line)) else
    var verb, target := line[..first], line[first + 1..second];
    if !IsToken(verb) then Err(InvalidMethod(verb))
    else if target == "" || target[0] != '/' then Err(TargetNotOriginForm(target))
    else if !IsOriginForm(target) then Err(TargetCharacter)
    else
      match ParseVersion(line[second + 1..])
      case Err(e) => Err(e)
      case Ok(version) => Ok(RequestLine(verb, target, version))
  }

  function PrintRequestLine(verb: string, target: string, minor: char): string {
    verb + " " + target + " " + VersionText(minor)
  }

  function VersionText(minor: char): string {
    "HTTP/1." + [minor]
  }

  function VersionOf(minor: char): HttpVersion {
    if minor == '0' then Http10 else Http11
  }

  /** With a good method and target, the version decides. */
  lemma VersionDecides(line: string, a: nat, b: nat)
    requires a < b < |line| && line[a] == ' ' && line[b] == ' '
    requires ' ' !in line[..a] && ' ' !in line[a + 1..b] && ' ' !in line[b + 1..]
    requires IsToken(line[..a]) && IsOriginForm(line[a + 1..b])
    ensures ParseRequestLine(line)
         == match ParseVersion(line[b + 1..])
            case Err(e) => Err(e)
            case Ok(version) => Ok(RequestLine(line[..a], line[a + 1..b], version))
  {
    hide ParseVersion;
  }

  /** Every line of the grammar is accepted, with its parts unchanged. */
  lemma RequestLineAccepted(verb: string, target: string, minor: char)
    requires IsToken(verb) && IsOriginForm(target) && IsDigit(minor)
    ensures ParseRequestLine(PrintRequestLine(verb, target, minor))
         == Ok(RequestLine(verb, target, VersionOf(minor)))
    ensures VersionOf(minor) == Http10 <==> minor == '0'
    ensures PrintRequestLine(verb, target, minor) == verb + " " + target + " HTTP/1." + [minor]
  {
    LineText(verb, target, minor);
    hide ParseVersion, IsToken, IsOriginForm, VersionText;
    var version := VersionText(minor);
    VersionAccepted(minor);
    NoSpaceInToken(verb);
    NoSpaceInTarget(target);
    LineParts(verb, target, version);
    VersionDecides(PrintRequestLine(verb, target, minor), |verb|, |verb| + 1 + |target|);
  }

  lemma LineText(verb: string, target: string, minor: char)
    ensures PrintRequestLine(verb, target, minor) == verb + " " + target + " HTTP/1." + [minor]
  {
  }

  /** A request line with another version is refused for that version. */
  lemma VersionRefused(verb: string, target: string, version: string)
    requires IsToken(verb) && IsOriginForm(target) && ' ' !in version && ParseVersion(version).Err?
    ensures ParseRequestLine(verb + " " + target + " " + version) == Err(ParseVersion(version).error)
  {
    hide ParseVersion, IsToken, IsOriginForm;
    NoSpaceInToken(verb);
    NoSpaceInTarget(target);
    LineParts(verb, target, version);
    VersionDecides(verb + " " + target + " " + version, |verb|, |verb| + 1 + |target|);
  }

  lemma LineParts(verb: string, target: string, version: string)
    ensures var line := verb + " " + target + " " + version; var a, b := |verb|, |verb| + 1 + |target|;
            && |line| == b + 1 + |version|
            && line[..a] == verb && line[a + 1..b] == target && line[b + 1..] == version
            && line[a] == ' ' && line[b] == ' '
  {
  }

  lemma NoSpaceInToken(s: string)
    requires IsToken(s)
    ensures ' ' !in s
  {
  }

  lemma NoSpaceInTarget(s: string)
    requires IsOriginForm(s)
    ensures ' ' !in s && s != "" && s[0] == '/'
  {
  }

  lemma VersionAccepted(minor: char)
    requires IsDigit(minor)
    ensures ParseVersion(VersionText(minor)) == Ok(VersionOf(minor))
    ensures ' ' !in VersionText(minor)
  {
  }

  lemma VersionOnlyGrammar(text: string)
    requires ParseVersion(text).Ok?
    ensures |text| == 8 && IsDigit(text[7])
    ensures text == VersionText(text[7]) && ParseVersion(text) == Ok(VersionOf(text[7]))
  {
  }

  /** Nothing else is accepted: an accepted line is the printed form of its parts. */
  lemma RequestLineOnlyGrammar(line: string) returns (minor: char)
    requires ParseRequestLine(line).Ok?
    ensures var p := ParseRequestLine(line).value;
            && IsToken(p.verb) && IsOriginForm(p.target) && IsDigit(minor)
            && (p.version == Http10 <==> minor == '0')
            && p.version == VersionOf(minor)
            && line == PrintRequestLine(p.verb, p.target, minor) == p.verb + " " + p.target + " HTTP/1." + [minor]
  {
    LineText(ParseRequestLine(line).value.verb, ParseRequestLine(line).value.target, line[|line| - 1]);
    hide ParseVersion, IsToken, IsOriginForm, VersionText;
    var first := Find(line, ' ', 0);
    var second := Find(line, ' ', first + 1);
    var version := line[second + 1..];
    VersionOnlyGrammar(version);
    minor := version[7];
    assert line == line[..first] + " " + line[first + 1..second] + " " + version;
  }

  /** A line is malformed if it is not three parts with one space between each. */
  lemma MalformedIff(line: string)
    ensures ParseRequestLine(line) == Err(MalformedRequestLine(line)) <==>
            forall verb: string, target: string, version: string :: !HasParts(line, verb, target, version)
  {
    hide ParseVersion, IsToken, IsOriginForm;
    if ParseRequestLine(line) != Err(MalformedRequestLine(line)) {
      var first := Find(line, ' ', 0);
      var second := Find(line, ' ', first + 1);
      var verb, target, version := line[..first], line[first + 1..second], line[second + 1..];
      assert line == verb + " " + target + " " + version;
      assert HasParts(line, verb, target, version);
    }
    forall verb: string, target: string, version: string | HasParts(line, verb, target, version)
      ensures ParseRequestLine(line) != Err(MalformedRequestLine(line))
    {
      NotMalformed(line, verb, target, version);
    }
  }

  lemma NotMalformed(line: string, verb: string, target: string, version: string)
    requires HasParts(line, verb, target, version)
    ensures ParseRequestLine(line) != Err(MalformedRequestLine(line))
  {
    RequestLineErrors(line, verb, target, version);
    hide IsToken, IsOriginForm, ParseRequestLine;
  }

  /** Of three parts, the first that is wrong decides. */
  lemma RequestLineErrors(line: string, verb: string, target: string, version: string)
    requires HasParts(line, verb, target, version)
    ensures ParseRequestLine(line) ==
            if !IsToken(verb) then Err(InvalidMethod(verb))
            else if target == "" || target[0] != '/' then Err(TargetNotOriginForm(target))
            else if !IsOriginForm(target) then Err(TargetCharacter)
            else match ParseVersion(version)
                 case Err(e) => Err(e)
                 case Ok(v) => Ok(RequestLine(verb, target, v))
  {
    PartsFound(line, verb, target, version);
    hide Find, IsToken, IsOriginForm, ParseVersion;
  }

  /** Three parts without spaces, with one space between each. */
  ghost predicate HasParts(line: string, verb: string, target: string, version: string) {
    line == verb + " " + target + " " + version && ' ' !in verb && ' ' !in target && ' ' !in version
  }

  lemma PartsFound(line: string, verb: string, target: string, version: string)
    requires HasParts(line, verb, target, version)
    ensures var a, b := |verb|, |verb| + 1 + |target|;
            && |line| == b + 1 + |version| && Find(line, ' ', 0) == a && Find(line, ' ', a + 1) == b
            && Find(line, ' ', b + 1) == |line| && line[..a] == verb && line[a + 1..b] == target
            && line[b + 1..] == version
  {
    LineParts(verb, target, version);
    var a, b := |verb|, |verb| + 1 + |target|;
    assert line[0..a] == verb;
    FindAt(line, ' ', 0, a);
    FindAt(line, ' ', a + 1, b);
    assert line[b + 1..|line|] == version;
    FindAt(line, ' ', b + 1, |line|);
  }

  // ---------------------------------------------------------------- field lines

  predicate IsControl(c: char) {
    (c as int < 0x20 && c != '\t') || c as int == 0x7F
  }

  /** Section 5.5 of RFC 9110: a value may hold visible characters, spaces, tabs and bytes above ASCII. */
  lemma FieldCharIff(c: char)
    ensures !IsControl(c) <==> c == ' ' || c == '\t' || '!' <= c <= '~' || c as int >= 0x80
  {
  }

  predicate IsFieldValue(value: string) {
    forall i | 0 <= i < |value| :: !IsControl(value[i])
  }

  lemma FieldValueIff(value: string)
    ensures IsFieldValue(value) <==>
            forall c | c in value :: c == ' ' || c == '\t' || '!' <= c <= '~' || c as int >= 0x80
  {
    forall i | 0 <= i < |value| ensures value[i] in value {
    }
  }

  function ParseHeaderLine(line: string): Result<Header, ParseError>
    requires line != ""
  {
    if IsBlank(line[0]) then Err(LineFolding) else
    var colon := Find(line, ':', 0);
    if colon == |line| then Err(MissingColon(line)) else
    var name, value := line[..colon], Trim(line[colon + 1..]);
    if !IsToken(name) then Err(InvalidHeaderName(name))
    else if !IsFieldValue(value) then Err(ControlInValue(name))
    else Ok(Header(name, value))
  }

  /** field-line = field-name ":" OWS field-value OWS */
  function PrintHeaderLine(h: Header, before: string, after: string): string {
    h.name + ":" + before + h.value + after
  }

  lemma HeaderLineAccepted(h: Header, before: string, after: string)
    requires IsToken(h.name) && IsFieldValue(h.value) && Trimmed(h.value)
    requires AllBlank(before) && AllBlank(after)
    ensures PrintHeaderLine(h, before, after) != ""
    ensures ParseHeaderLine(PrintHeaderLine(h, before, after)) == Ok(h)
    ensures PrintHeaderLine(h, before, after) == h.name + ":" + before + h.value + after
  {
    var rest := before + h.value + after;
    var line := PrintHeaderLine(h, before, after);
    assert line == h.name + [':'] + rest;
    TokenHasNoColon(h.name);
    var n := |h.name|;
    assert line[0..n] == h.name && line[n + 1..] == rest;
    FindAt(line, ':', 0, n);
    TrimIsTheCore(before, h.value, after);
  }

  lemma TokenHasNoColon(name: string)
    requires IsToken(name)
    ensures ':' !in name && !IsBlank(name[0])
  {
  }

  lemma HeaderLineOnlyGrammar(line: string) returns (before: string, after: string)
    requires line != "" && ParseHeaderLine(line).Ok?
    ensures var h := ParseHeaderLine(line).value;
            && IsToken(h.name) && IsFieldValue(h.value) && Trimmed(h.value)
            && AllBlank(before) && AllBlank(after)
            && line == PrintHeaderLine(h, before, after) == h.name + ":" + before + h.value + after
  {
    hide Trim, IsTokenChar;
    var colon := Find(line, ':', 0);
    var rest := line[colon + 1..];
    before, after := TrimDropsBlanks(rest);
    assert line == line[..colon] + ":" + rest;
  }

  /** Each way a field line can fail, in the order of the checks. */
  lemma HeaderLineErrors(line: string)
    requires line != ""
    ensures ParseHeaderLine(line) == Err(LineFolding) <==> line[0] in " \t"
    ensures ParseHeaderLine(line) == Err(MissingColon(line)) <==> line[0] !in " \t" && ':' !in line
    ensures forall name: string, rest: string | line == name + ":" + rest && ':' !in name && line[0] !in " \t" ::
              && (!IsToken(name) ==> ParseHeaderLine(line) == Err(InvalidHeaderName(name)))
              && (IsToken(name) && !IsFieldValue(Trim(rest)) ==> ParseHeaderLine(line) == Err(ControlInValue(name)))
  {
    hide Trim, IsToken, IsFieldValue;
    forall name: string, rest: string | line == name + ":" + rest && ':' !in name
      ensures Find(line, ':', 0) == |name| < |line| && line[..|name|] == name && line[|name| + 1..] == rest
    {
      assert line[0..|name|] == name && line[|name|] == ':';
      FindAt(line, ':', 0, |name|);
    }
  }

  // ---------------------------------------------------------------- body length

  /** The values of every field called `name`, in order. */
  function ValuesOf(headers: seq<Header>, name: string): seq<string> {
    if headers == [] then []
    else
      var last := headers[|headers| - 1];
      ValuesOf(headers[..|headers| - 1], name) + if IEquals(last.name, name) then [last.value] else []
  }

  const SIZE_MODULUS: nat := 0x1_0000_0000_0000_0000

  /** What the digit loop has accumulated; `std::size_t` arithmetic wraps. */
  datatype Accumulated = Accumulated(value: nat, tooLarge: bool)

  function Accumulate(text: string, max: nat): Accumulated
    requires AllDigits(text)
  {
    if text == "" then Accumulated(0, false)
    else
      var before := Accumulate(text[..|text| - 1], max);
      if before.tooLarge then before
      else
        var value := (before.value * 10 + DigitValue(text[|text| - 1])) % SIZE_MODULUS;
        Accumulated(value, value > max)
  }

  const CONTENT_LENGTH := "Content-Length"
  const TRANSFER_ENCODING := "Transfer-Encoding"

  /** Section 6.3 of RFC 9112: how many body bytes follow a head with these fields. */
  function BodyLength(headers: seq<Header>, max: nat): Result<nat, ParseError> {
    var lengths := ValuesOf(headers, CONTENT_LENGTH);
    var encoded := ValuesOf(headers, TRANSFER_ENCODING) != [];
    if encoded && lengths != [] then Err(AmbiguousFraming)
    else if encoded then Err(TransferEncoding)
    else if |lengths| > 1 then Err(RepeatedLength)
    else if lengths == [] then Ok(0)
    else LengthOf(lengths[0], max)
  }

  function LengthOf(text: string, max: nat): Result<nat, ParseError> {
    if text == "" then Err(EmptyLength)
    else if !AllDigits(text) then Err(InvalidLength(text))
    else
      var total := Accumulate(text, max);
      if total.tooLarge then Err(BodyTooLarge(max)) else Ok(total.value)
  }

  /** The scan over the fields, then the digit loop. */
  method DetermineBodyLength(headers: seq<Header>, max: nat) returns (r: Result<nat, ParseError>)
    ensures r == BodyLength(headers, max)
  {
    var lengthHeaders, lengthText, hasTransferEncoding := 0, "", false;
    var i := 0;
    while i < |headers|
      invariant i <= |headers|
      invariant lengthHeaders == |ValuesOf(headers[..i], CONTENT_LENGTH)|
      invariant lengthHeaders > 0 ==> lengthText == ValuesOf(headers[..i], CONTENT_LENGTH)[lengthHeaders - 1]
      invariant hasTransferEncoding == (ValuesOf(headers[..i], TRANSFER_ENCODING) != [])
    {
      assert headers[..i + 1][..i] == headers[..i];
      if IEquals(headers[i].name, CONTENT_LENGTH) {
        lengthHeaders := lengthHeaders + 1;
        lengthText := headers[i].value;
        assert !IEquals(headers[i].name, TRANSFER_ENCODING);
      } else if IEquals(headers[i].name, TRANSFER_ENCODING) {
        hasTransferEncoding := true;
      }
      i := i + 1;
    }
    assert headers[..i] == headers;
    if hasTransferEncoding && lengthHeaders > 0 {
      return Err(AmbiguousFraming);
    }
    if hasTransferEncoding {
      return Err(TransferEncoding);
    }
    if lengthHeaders > 1 {
      return Err(RepeatedLength);
    }
    if lengthHeaders == 0 {
      return Ok(0);
    }
    r := ReadLength(lengthText, max);
  }

  method ReadLength(text: string, max: nat) returns (r: Result<nat, ParseError>)
    ensures r == LengthOf(text, max)
  {
    if text == "" {
      return Err(EmptyLength);
    }
    var value: nat, tooLarge := 0, false;
    var i := 0;
    while i < |text|
      invariant i <= |text| && AllDigits(text[..i])
      invariant Accumulated(value, tooLarge) == Accumulate(text[..i], max)
    {
      if !IsDigit(text[i]) {
        return Err(InvalidLength(text));
      }
      assert text[..i + 1][..i] == text[..i];
      if !tooLarge {
        value := (value * 10 + DigitValue(text[i])) % SIZE_MODULUS;
        tooLarge := value > max;
      }
      i := i + 1;
    }
    assert text[..i] == text;
    r := if tooLarge then Err(BodyTooLarge(max)) else Ok(value);
  }

  /** The accumulation means the unbounded decimal value whenever one more digit past the limit still fits. */
  lemma {:induction false} AccumulateExact(text: string, max: nat)
    requires AllDigits(text) && ExactLimit(max)
    ensures Accumulate(text, max).tooLarge <==> Value(text) > max
    ensures !Accumulate(text, max).tooLarge ==> Accumulate(text, max).value == Value(text)
  {
    if text != "" {
      AccumulateExact(text[..|text| - 1], max);
    }
  }

  /** Small values are accumulated exactly under every limit that admits them. */
  lemma {:induction false} AccumulateSmall(text: string, max: nat)
    requires AllDigits(text) && Value(text) <= max && Value(text) < SIZE_MODULUS
    ensures Accumulate(text, max) == Accumulated(Value(text), false)
  {
    if text != "" {
      AccumulateSmall(text[..|text| - 1], max);
    }
  }

  ghost predicate ReadsTrueValue(text: string, max: nat)
    requires AllDigits(text)
  {
    var total := Accumulate(text, max);
    && (total.tooLarge <==> Value(text) > max)
    && (!total.tooLarge ==> total.value == Value(text))
  }

  /** The exact limits for which 413 and the returned length are right on every digit string. */
  lemma ContentLengthExactIff(max: nat)
    requires max < SIZE_MODULUS
    ensures (forall text | AllDigits(text) :: ReadsTrueValue(text, max)) <==> ExactLimit(max)
  {
    if ExactLimit(max) {
      forall text | AllDigits(text) ensures ReadsTrueValue(text, max) {
        AccumulateExact(text, max);
      }
    } else {
      WrapTextWraps(max);
      assert !ReadsTrueValue(WrapText(), max);
    }
  }

  const TENTH: nat := SIZE_MODULUS / 10

  /** 2^64 itself: the last digit wraps the value to zero, and zero is within every limit. */
  function WrapText(): string {
    OfNat(TENTH) + "6"
  }

  lemma OneMoreDigit(head: string, max: nat)
    requires AllDigits(head)
    ensures AllDigits(head + "6") && Value(head + "6") == 10 * Value(head) + 6
    ensures !Accumulate(head, max).tooLarge ==>
              var value := (Accumulate(head, max).value * 10 + 6) % SIZE_MODULUS;
              Accumulate(head + "6", max) == Accumulated(value, value > max)
  {
    assert (head + "6")[..|head|] == head;
  }

  lemma WrapTextDigits()
    ensures WrapText() != "" && AllDigits(WrapText()) && Value(WrapText()) == SIZE_MODULUS
  {
    hide OfNat, Value, Accumulate;
    ValueInvertsOfNat(TENTH);
    OneMoreDigit(OfNat(TENTH), 0);
  }

  lemma WrapTextWraps(max: nat)
    requires !ExactLimit(max)
    ensures AllDigits(WrapText()) && Value(WrapText()) == SIZE_MODULUS
    ensures Accumulate(WrapText(), max) == Accumulated(0, false)
  {
    hide OfNat, Value, Accumulate;
    ValueInvertsOfNat(TENTH);
    AccumulateSmall(OfNat(TENTH), max);
    OneMoreDigit(OfNat(TENTH), max);
  }

  // ---------------------------------------------------------------- what a body length means

  /** Some field is called `name`, case aside. */
  ghost predicate HasField(headers: seq<Header>, name: string) {
    exists k :: 0 <= k < |headers| && IEquals(headers[k].name, name)
  }

  /** Field `k` is called `name`, and no other is. */
  ghost predicate OnlyField(headers: seq<Header>, k: nat, name: string) {
    k < |headers| && forall j | 0 <= j < |headers| :: IEquals(headers[j].name, name) <==> j == k
  }

  /** Two fields are called `name`. */
  ghost predicate Repeats(headers: seq<Header>, name: string) {
    exists j, k :: 0 <= j < k < |headers| && IEquals(headers[j].name, name) && IEquals(headers[k].name, name)
  }

  lemma {:induction false} ValuesMeaning(headers: seq<Header>, name: string)
    ensures ValuesOf(headers, name) == [] <==> !HasField(headers, name)
    ensures |ValuesOf(headers, name)| > 1 <==> Repeats(headers, name)
    ensures forall k: nat | OnlyField(headers, k, name) :: ValuesOf(headers, name) == [headers[k].value]
    ensures |ValuesOf(headers, name)| == 1 ==> exists k: nat :: OnlyField(headers, k, name)
    decreases |headers|
  {
    hide IEquals;
    if headers != [] {
      ValuesMeaning(headers[..|headers| - 1], name);
      if IEquals(headers[|headers| - 1].name, name) {
        OnlyFieldAdded(headers, name);
      } else {
        OnlyFieldKept(headers, name);
      }
    }
  }

  /** A last field of this name is the only one or repeats it. */
  lemma OnlyFieldAdded(headers: seq<Header>, name: string)
    requires headers != [] && IEquals(headers[|headers| - 1].name, name)
    ensures var n := |headers| - 1;
            && HasField(headers, name)
            && (Repeats(headers, name) <==> HasField(headers[..n], name))
            && (OnlyField(headers, n, name) <==> !HasField(headers[..n], name))
            && forall k: nat | OnlyField(headers, k, name) :: k == n
  {
    hide IEquals;
    var n := |headers| - 1;
    var before := headers[..n];
    assert forall j | 0 <= j < n :: before[j] == headers[j];
    if HasField(before, name) {
      var j :| 0 <= j < n && IEquals(before[j].name, name);
      assert IEquals(headers[j].name, name);
    } else {
      forall j | 0 <= j < n ensures !IEquals(headers[j].name, name) {
        assert !IEquals(before[j].name, name);
      }
    }
  }

  /** A last field of another name changes nothing. */
  lemma OnlyFieldKept(headers: seq<Header>, name: string)
    requires headers != [] && !IEquals(headers[|headers| - 1].name, name)
    ensures var before := headers[..|headers| - 1];
            && (HasField(headers, name) <==> HasField(before, name))
            && (Repeats(headers, name) <==> Repeats(before, name))
            && forall k: nat :: OnlyField(headers, k, name) <==> OnlyField(before, k, name)
  {
    hide IEquals;
    var n := |headers| - 1;
    var before := headers[..n];
    assert forall j | 0 <= j < n :: before[j] == headers[j];
    if HasField(headers, name) {
      var j :| 0 <= j < |headers| && IEquals(headers[j].name, name);
      assert IEquals(before[j].name, name);
    }
    if Repeats(headers, name) {
      var j, k :| 0 <= j < k < |headers| && IEquals(headers[j].name, name) && IEquals(headers[k].name, name);
      assert IEquals(before[j].name, name) && IEquals(before[k].name, name);
    }
  }

  /** `text` is a decimal number within the limit. */
  predicate IsLength(text: string, max: nat, n: nat) {
    text != "" && AllDigits(text) && Value(text) == n <= max
  }

  /** One more digit past the limit still fits `std::size_t`. */
  predicate ExactLimit(max: nat) {
    10 * max + 9 < SIZE_MODULUS
  }

  /** The digit loop reads the number the text denotes, if neither that number nor the limit makes it wrap. */
  lemma LengthIff(text: string, max: nat, n: nat)
    requires ExactLimit(max) || (AllDigits(text) ==> Value(text) < SIZE_MODULUS)
    ensures LengthOf(text, max) == Ok(n) <==> IsLength(text, max, n)
    ensures LengthOf(text, max) == Err(BodyTooLarge(max)) <==> text != "" && AllDigits(text) && Value(text) > max
    ensures LengthOf(text, max) == Err(EmptyLength) <==> text == ""
    ensures LengthOf(text, max) == Err(InvalidLength(text)) <==> text != "" && !AllDigits(text)
  {
    hide Accumulate, Value;
    if AllDigits(text) {
      if ExactLimit(max) {
        AccumulateExact(text, max);
      } else {
        AccumulateNoWrap(text, max);
      }
    }
  }

  lemma {:induction false} AccumulateNoWrap(text: string, max: nat)
    requires AllDigits(text) && Value(text) < SIZE_MODULUS
    ensures Accumulate(text, max).tooLarge <==> Value(text) > max
    ensures !Accumulate(text, max).tooLarge ==> Accumulate(text, max).value == Value(text)
  {
    if text != "" {
      AccumulateNoWrap(text[..|text| - 1], max);
    }
  }

  /** Wrapping only ever makes the number smaller. */
  lemma {:induction false} AccumulateBelow(text: string, max: nat)
    requires AllDigits(text)
    ensures Accumulate(text, max).value <= Value(text)
    ensures !Accumulate(text, max).tooLarge ==> Accumulate(text, max).value <= max
  {
    if text != "" {
      AccumulateBelow(text[..|text| - 1], max);
    }
  }

  /** The fields announce a body of `n` bytes: no transfer coding, and no length or just one, which denotes `n`. */
  ghost predicate Announces(headers: seq<Header>, max: nat, n: nat) {
    && !HasField(headers, "Transfer-Encoding")
    && ((!HasField(headers, "Content-Length") && n == 0)
        || exists k: nat :: OnlyField(headers, k, "Content-Length") && IsLength(headers[k].value, max, n))
  }

  /** The digit loop cannot wrap on these fields. */
  ghost predicate ReadExactly(headers: seq<Header>, max: nat) {
    || ExactLimit(max)
    || forall k: nat | OnlyField(headers, k, "Content-Length") ::
         AllDigits(headers[k].value) ==> Value(headers[k].value) < SIZE_MODULUS
  }

  /** The body length is the one the fields announce. */
  lemma BodyLengthIff(headers: seq<Header>, max: nat, n: nat)
    ensures Announces(headers, max, n) && n < SIZE_MODULUS ==> BodyLength(headers, max) == Ok(n)
    ensures ReadExactly(headers, max) ==> (BodyLength(headers, max) == Ok(n) <==> Announces(headers, max, n))
  {
    hide ValuesOf, LengthOf, AllDigits, Value, IEquals, HasField, Repeats;
    ValuesMeaning(headers, "Content-Length");
    ValuesMeaning(headers, "Transfer-Encoding");
    forall k: nat | OnlyField(headers, k, "Content-Length")
      ensures ValuesOf(headers, "Content-Length") == [headers[k].value]
      ensures IsLength(headers[k].value, max, n) && n < SIZE_MODULUS ==> LengthOf(headers[k].value, max) == Ok(n)
      ensures ReadExactly(headers, max) ==>
                (LengthOf(headers[k].value, max) == Ok(n) <==> IsLength(headers[k].value, max, n))
    {
      OneLength(headers[k].value, max, n);
    }
  }

  lemma OneLength(text: string, max: nat, n: nat)
    ensures IsLength(text, max, n) && n < SIZE_MODULUS ==> LengthOf(text, max) == Ok(n)
    ensures ExactLimit(max) || (AllDigits(text) ==> Value(text) < SIZE_MODULUS) ==>
              (LengthOf(text, max) == Ok(n) <==> IsLength(text, max, n))
  {
    hide Accumulate, Value;
    if ExactLimit(max) || (AllDigits(text) ==> Value(text) < SIZE_MODULUS) {
      LengthIff(text, max, n);
    }
  }

  /** Each way the fields can fail to announce a body, and the error it gets. */
  lemma BodyLengthErrors(headers: seq<Header>, max: nat)
    ensures var coded, sized := HasField(headers, "Transfer-Encoding"), HasField(headers, "Content-Length");
            && (BodyLength(headers, max) == Err(AmbiguousFraming) <==> coded && sized)
            && (BodyLength(headers, max) == Err(TransferEncoding) <==> coded && !sized)
            && (BodyLength(headers, max) == Err(RepeatedLength) <==> !coded && Repeats(headers, "Content-Length"))
            && forall k: nat | !coded && OnlyField(headers, k, "Content-Length") ::
                 var text := headers[k].value;
                 && (text == "" ==> BodyLength(headers, max) == Err(EmptyLength))
                 && (text != "" && !AllDigits(text) ==> BodyLength(headers, max) == Err(InvalidLength(text)))
                 && (ExactLimit(max) && text != "" && AllDigits(text) && Value(text) > max ==>
                       BodyLength(headers, max) == Err(BodyTooLarge(max)))
  {
    hide ValuesOf, AllDigits, Value, Accumulate, IEquals, HasField, Repeats;
    ValuesMeaning(headers, "Content-Length");
    ValuesMeaning(headers, "Transfer-Encoding");
    forall k: nat | OnlyField(headers, k, "Content-Length")
      ensures ValuesOf(headers, "Content-Length") == [headers[k].value]
      ensures var text := headers[k].value;
              ExactLimit(max) && text != "" && AllDigits(text) && Value(text) > max ==>
                LengthOf(text, max) == Err(BodyTooLarge(max))
    {
      if ExactLimit(max) {
        LengthIff(headers[k].value, max, 0);
      }
    }
    if Repeats(headers, "Content-Length") {
      RepeatsHas(headers, "Content-Length");
    }
  }

  lemma RepeatsHas(headers: seq<Header>, name: string)
    requires Repeats(headers, name)
    ensures HasField(headers, name)
  {
  }

  // ---------------------------------------------------------------- the head

  datatype Head = Head(line: RequestLine, headers: seq<Header>, bodyLength: nat)

  /** Field lines in order; the first bad one decides. */
  function ParseHeaders(lines: seq<string>): Result<seq<Header>, ParseError>
    requires forall i | 0 <= i < |lines| :: lines[i] != ""
  {
    if lines == [] then Ok([])
    else
      var n := |lines| - 1;
      match ParseHeaders(lines[..n])
      case Err(e) => Err(e)
      case Ok(headers) =>
        match ParseHeaderLine(lines[n])
        case Err(e) => Err(e)
        case Ok(h) => Ok(headers + [h])
  }

  function ParseLines(limits: Limits, lines: seq<string>): (r: Result<Head, ParseError>)
    requires forall i | 0 <= i < |lines| :: lines[i] != ""
  {
    if lines == [] then Err(MissingRequestLine)
    else if |lines| - 1 > limits.maxHeaderCount then Err(TooManyHeaders(limits.maxHeaderCount))
    else
      match ParseRequestLine(lines[0])
      case Err(e) => Err(e)
      case Ok(line) =>
        match ParseHeaders(lines[1..])
        case Err(e) => Err(e)
        case Ok(headers) =>
          match BodyLength(headers, limits.maxBodyBytes)
          case Err(e) => Err(e)
          case Ok(length) => Ok(Head(line, headers, length))
  }

  /** No accepted head announces more body than the limit. */
  lemma BodyWithinLimit(limits: Limits, lines: seq<string>)
    requires forall i | 0 <= i < |lines| :: lines[i] != ""
    requires ParseLines(limits, lines).Ok?
    ensures ParseLines(limits, lines).value.bodyLength <= limits.maxBodyBytes
  {
  }
}
