/**
 The request grammar in the printing direction (docs/protocol.md, section 2), and the
 proof that the parser recovers what was printed: every mix of CRLF and bare LF, every
 amount of optional whitespace, every body, and whatever bytes come after.
 */
module RequestSpelling {
  import opened Text
  import opened Decimal
  import opened Messages
  import opened HeadGrammar
  import opened Framing

  datatype Eol = CRLF | LF

  function EolText(e: Eol): string {
    match e case CRLF => "\r\n" case LF => "\n"
  }

  datatype Field = Field(header: Header, before: string, after: string, eol: Eol)

  /** One request and every free choice a client has in writing it down. */
  datatype Spelling = Spelling(
    lead: string,
    verb: string, target: string, minor: char, eol: Eol,
    fields: seq<Field>,
    blank: Eol,
    body: string)

  function HeadersOf(fields: seq<Field>): seq<Header> {
    seq(|fields|, i requires 0 <= i < |fields| => fields[i].header)
  }

  function FieldText(f: Field): string {
    PrintHeaderLine(f.header, f.before, f.after)
  }

  function FieldLines(fields: seq<Field>): seq<string> {
    seq(|fields|, i requires 0 <= i < |fields| => FieldText(fields[i]))
  }

  function LinesOf(m: Spelling): seq<string> {
    [PrintRequestLine(m.verb, m.target, m.minor)] + FieldLines(m.fields)
  }

  /** Field lines with their terminators, then the empty line. */
  function FieldsText(fields: seq<Field>, blank: Eol): string {
    if fields == [] then EolText(blank)
    else FieldText(fields[0]) + EolText(fields[0].eol) + FieldsText(fields[1..], blank)
  }

  function HeadOf(m: Spelling): string {
    PrintRequestLine(m.verb, m.target, m.minor) + EolText(m.eol) + FieldsText(m.fields, m.blank)
  }

  predicate GoodField(f: Field) {
    && IsToken(f.header.name) && IsFieldValue(f.header.value) && Trimmed(f.header.value)
    && AllBlank(f.before) && AllBlank(f.after)
  }

  ghost predicate GoodFields(fields: seq<Field>) {
    forall i | 0 <= i < |fields| :: GoodField(fields[i])
  }

  ghost predicate WellSpelled(m: Spelling) {
    && OnlyEmptyLines(m.lead)
    && IsToken(m.verb) && IsOriginForm(m.target) && IsDigit(m.minor)
    && GoodFields(m.fields)
  }

  /** Head and field count are within their limits, and the fields announce just this body. */
  ghost predicate WithinLimits(limits: Limits, m: Spelling) {
    && |HeadOf(m)| <= limits.maxHeaderBytes
    && |m.fields| <= limits.maxHeaderCount
    && Announces(HeadersOf(m.fields), limits.maxBodyBytes, |m.body|) && |m.body| < SIZE_MODULUS
  }

  function TextOf(m: Spelling): string {
    m.lead + HeadOf(m) + m.body
  }

  /** What the parser must return for `m` when its text starts at stream position `i`. */
  function RequestOf(m: Spelling, i: nat): Request {
    var begin := i + |m.lead|;
    Request(m.verb, m.target, VersionOf(m.minor), HeadersOf(m.fields), m.body,
            begin, begin + |HeadOf(m)| + |m.body|, |HeadOf(m)|)
  }

  // ---------------------------------------------------------------- lines

  /** No line terminator inside, so the line comes back as it was. */
  predicate Clean(line: string) {
    forall i | 0 <= i < |line| :: line[i] != '\n' && line[i] != '\r'
  }

  lemma RequestLineClean(verb: string, target: string, minor: char)
    requires IsToken(verb) && IsOriginForm(target) && IsDigit(minor)
    ensures Clean(PrintRequestLine(verb, target, minor)) && PrintRequestLine(verb, target, minor) != ""
  {
  }

  lemma FieldLineClean(f: Field)
    requires GoodField(f)
    ensures Clean(FieldText(f))
  {
  }

  lemma FieldAccepted(f: Field)
    requires GoodField(f)
    ensures FieldText(f) != "" && ParseHeaderLine(FieldText(f)) == Ok(f.header)
  {
    HeaderLineAccepted(f.header, f.before, f.after);
  }

  lemma StripRestores(s: string, i: nat, line: string, e: Eol)
    requires At(s, i, line + EolText(e)) && Clean(line)
    ensures var newline := i + |line| + |EolText(e)| - 1;
            newline < |s| && Find(s, '\n', i) == newline && StripCR(s[i..newline]) == line
  {
    AtSplit(s, i, line, EolText(e));
    var k := i + |line|;
    var newline := k + |EolText(e)| - 1;
    AtIndex(s, k, EolText(e), |EolText(e)| - 1);
    if e == CRLF {
      AtIndex(s, k, EolText(e), 0);
      assert s[i..newline] == line + "\r";
    }
    assert '\n' !in s[i..newline];
    FindAt(s, '\n', i, newline);
  }

  /** One printed line in front of a head that is split already. */
  lemma SplitOneMore(s: string, i: nat, line: string, e: Eol)
    requires At(s, i, line + EolText(e)) && Clean(line)
    ensures var next := i + |line| + |EolText(e)|;
            next <= |s| && SplitHead(s, i)
              == if line == "" then Some(Split([], next)) else
                 match SplitHead(s, next)
                 case None => None
                 case Some(rest) => Some(Split([line] + rest.lines, rest.end))
  {
    hide StripCR, At, SplitHead, Find;
    StripRestores(s, i, line, e);
    SplitStep(s, i);
  }

  /** Splitting printed field lines gives them back and stops just past the empty line. */
  lemma {:induction false} SplitFields(s: string, i: nat, fields: seq<Field>, blank: Eol)
    requires GoodFields(fields) && At(s, i, FieldsText(fields, blank))
    ensures i + |FieldsText(fields, blank)| <= |s|
    ensures SplitHead(s, i) == Some(Split(FieldLines(fields), i + |FieldsText(fields, blank)|))
    decreases |fields|
  {
    hide SplitHead, At, FieldText, GoodField, Clean, EolText;
    AtWithin(s, i, FieldsText(fields, blank));
    if fields == [] {
      assert "" + EolText(blank) == EolText(blank);
      assert Clean("") by { EmptyIsClean(); }
      SplitOneMore(s, i, "", blank);
    } else {
      var f, rest := fields[0], fields[1..];
      var first := FieldText(f) + EolText(f.eol);
      AtSplit(s, i, first, FieldsText(rest, blank));
      FieldLineClean(f);
      FieldAccepted(f);
      SplitOneMore(s, i, FieldText(f), f.eol);
      SplitFields(s, i + |first|, rest, blank);
      assert FieldLines(fields) == [FieldText(f)] + FieldLines(rest);
    }
  }

  lemma EmptyIsClean()
    ensures Clean("")
  {
  }

  lemma {:induction false} FieldsAccepted(fields: seq<Field>)
    requires GoodFields(fields)
    ensures NoEmptyLine(FieldLines(fields)) && ParseHeaders(FieldLines(fields)) == Ok(HeadersOf(fields))
    decreases |fields|
  {
    hide GoodField, FieldText, ParseHeaderLine;
    if fields != [] {
      var n := |fields| - 1;
      FieldsAccepted(fields[..n]);
      FieldAccepted(fields[n]);
      assert FieldLines(fields) == FieldLines(fields[..n]) + [FieldText(fields[n])];
      assert FieldLines(fields)[..n] == FieldLines(fields[..n]);
      assert HeadersOf(fields) == HeadersOf(fields[..n]) + [fields[n].header];
    }
  }

  /** What the head parser makes of well-spelled lines: too many, badly framed, or a head with its body length. */
  lemma LinesDecided(limits: Limits, m: Spelling)
    requires WellSpelled(m)
    ensures NoEmptyLine(LinesOf(m))
    ensures ParseLines(limits, LinesOf(m)) ==
            if |m.fields| > limits.maxHeaderCount then Err(TooManyHeaders(limits.maxHeaderCount))
            else
              match BodyLength(HeadersOf(m.fields), limits.maxBodyBytes)
              case Err(e) => Err(e)
              case Ok(n) => Ok(Head(RequestLine(m.verb, m.target, VersionOf(m.minor)), HeadersOf(m.fields), n))
  {
    hide ParseRequestLine, ParseHeaders, PrintRequestLine, BodyLength, GoodFields, FieldText, HeadOf;
    RequestLineClean(m.verb, m.target, m.minor);
    RequestLineAccepted(m.verb, m.target, m.minor);
    FieldsAccepted(m.fields);
    assert LinesOf(m)[1..] == FieldLines(m.fields);
  }

  // ---------------------------------------------------------------- empty lines in front

  lemma {:induction false} SkipPrinted(s: string, i: nat, lead: string)
    requires OnlyEmptyLines(lead) && At(s, i, lead) && StartsLine(s, i + |lead|).Text?
    ensures SkipEmptyLines(s, i) == i + |lead|
    decreases |lead|
  {
    if lead != "" {
      var k := if lead[0] == '\n' then 1 else 2;
      assert lead == lead[..k] + lead[k..];
      AtSplit(s, i, lead[..k], lead[k..]);
      assert s[i] == lead[0] && s[i + k - 1] == lead[k - 1];
      SkipPrinted(s, i + k, lead[k..]);
    }
  }

  /** The printed head is split into its lines, and it begins with text. */
  lemma HeadSplits(s: string, i: nat, m: Spelling)
    requires WellSpelled(m) && At(s, i, HeadOf(m))
    ensures i + |HeadOf(m)| <= |s| && StartsLine(s, i).Text?
    ensures SplitHead(s, i) == Some(Split(LinesOf(m), i + |HeadOf(m)|))
  {
    hide SplitHead, At, PrintRequestLine, FieldLines, Clean;
    var line := PrintRequestLine(m.verb, m.target, m.minor);
    RequestLineClean(m.verb, m.target, m.minor);
    AtWithin(s, i, HeadOf(m));
    AtSplit(s, i, line + EolText(m.eol), FieldsText(m.fields, m.blank));
    SplitOneMore(s, i, line, m.eol);
    SplitFields(s, i + |line| + |EolText(m.eol)|, m.fields, m.blank);
    AtSplit(s, i, line, EolText(m.eol));
    CleanStart(s, i, line);
  }

  lemma CleanStart(s: string, i: nat, line: string)
    requires At(s, i, line) && line != "" && Clean(line)
    ensures StartsLine(s, i).Text?
  {
  }

  // ---------------------------------------------------------------- round trips

  /** The outcome for every well-spelled head that has arrived, in terms of the parser's own body length. */
  lemma SpelledDecision(limits: Limits, s: string, i: nat, m: Spelling)
    requires WellSpelled(m) && At(s, i, m.lead + HeadOf(m))
    ensures i <= |s| && ParseOne(limits, s, i) ==
            if |HeadOf(m)| > limits.maxHeaderBytes then Error(HeadTooLarge(limits.maxHeaderBytes))
            else if |m.fields| > limits.maxHeaderCount then Error(TooManyHeaders(limits.maxHeaderCount))
            else
              match BodyLength(HeadersOf(m.fields), limits.maxBodyBytes)
              case Err(e) => Error(e)
              case Ok(n) =>
                var end := i + |m.lead + HeadOf(m)|;
                if |s| < end + n then Incomplete else Complete(RequestOf(m.(body := s[end..end + n]), i))
  {
    hide At, SkipEmptyLines, SplitHead, ParseLines, BodyLength, LinesOf, HeadersOf, WellSpelled;
    AtWithin(s, i, m.lead + HeadOf(m));
    AtSplit(s, i, m.lead, HeadOf(m));
    var begin := i + |m.lead|;
    HeadSplits(s, begin, m);
    LeadIsEmptyLines(m);
    SkipPrinted(s, i, m.lead);
    LinesDecided(limits, m);
    SameHead(m);
  }

  /** The parser refuses what stands at `i` for this reason, to be answered with this status. */
  ghost predicate Refuses(limits: Limits, s: string, i: nat, e: ParseError, status: nat)
    requires i <= |s|
  {
    ParseOne(limits, s, i) == Error(e) && e.Status() == status
  }

  /** What fields that announce no body are refused with. */
  ghost predicate RefusesFields(limits: Limits, s: string, i: nat, headers: seq<Header>)
    requires i <= |s|
  {
    var coded, sized := HasField(headers, "Transfer-Encoding"), HasField(headers, "Content-Length");
    && (coded && sized ==> Refuses(limits, s, i, AmbiguousFraming, 400))
    && (coded && !sized ==> Refuses(limits, s, i, TransferEncoding, 501))
    && (!coded && Repeats(headers, "Content-Length") ==> Refuses(limits, s, i, RepeatedLength, 400))
    && forall k: nat | !coded && OnlyField(headers, k, "Content-Length") ::
         var text := headers[k].value;
         && (text == "" ==> Refuses(limits, s, i, EmptyLength, 400))
         && (text != "" && !AllDigits(text) ==> Refuses(limits, s, i, InvalidLength(text), 400))
         && (ExactLimit(limits.maxBodyBytes) && text != "" && AllDigits(text) && Value(text) > limits.maxBodyBytes ==>
               Refuses(limits, s, i, BodyTooLarge(limits.maxBodyBytes), 413))
  }

  /**
   The outcome for every well-spelled head, once it has arrived: which limit rejects it, how its fields fail to announce
   a body, or how much body it waits for.
   */
  lemma SpelledOutcome(limits: Limits, s: string, i: nat, m: Spelling)
    requires WellSpelled(m) && At(s, i, m.lead + HeadOf(m))
    ensures i <= |s|
    ensures if |HeadOf(m)| > limits.maxHeaderBytes then
              Refuses(limits, s, i, HeadTooLarge(limits.maxHeaderBytes), 431)
            else if |m.fields| > limits.maxHeaderCount then
              Refuses(limits, s, i, TooManyHeaders(limits.maxHeaderCount), 431)
            else
              && RefusesFields(limits, s, i, HeadersOf(m.fields))
              && forall n: nat | Announces(HeadersOf(m.fields), limits.maxBodyBytes, n) && n < SIZE_MODULUS ::
                   ParseOne(limits, s, i) ==
                     var end := i + |m.lead + HeadOf(m)|;
                     if |s| < end + n then Incomplete else Complete(RequestOf(m.(body := s[end..end + n]), i))
  {
    hide At, ParseOne, BodyLength, HeadersOf, HeadOf, WellSpelled, Announces, HasField, Repeats, OnlyField, AllDigits,
         Value;
    SpelledDecision(limits, s, i, m);
    var headers, max := HeadersOf(m.fields), limits.maxBodyBytes;
    BodyLengthErrors(headers, max);
    forall n: nat | Announces(headers, max, n) && n < SIZE_MODULUS ensures BodyLength(headers, max) == Ok(n) {
      BodyLengthIff(headers, max, n);
    }
  }

  lemma LeadIsEmptyLines(m: Spelling)
    requires WellSpelled(m)
    ensures OnlyEmptyLines(m.lead)
  {
  }

  /** The head does not depend on the body. */
  lemma SameHead(m: Spelling)
    ensures forall body: string :: HeadOf(m.(body := body)) == HeadOf(m)
  {
  }

  /** The parser returns exactly what was printed, whatever the body holds and whatever follows. */
  lemma RequestRoundTrip(limits: Limits, s: string, i: nat, m: Spelling)
    requires WellSpelled(m) && WithinLimits(limits, m) && At(s, i, TextOf(m))
    ensures i <= |s| && ParseOne(limits, s, i) == Complete(RequestOf(m, i))
  {
    hide At, ParseOne, HeadOf, BodyLength, HeadersOf;
    AtWithin(s, i, TextOf(m));
    AtSplit(s, i, m.lead + HeadOf(m), m.body);
    AtText(s, i + |m.lead + HeadOf(m)|, m.body);
    SpelledOutcome(limits, s, i, m);
  }

  // ---------------------------------------------------------------- why a stream is refused

  /** What follows the empty lines is more than a head may hold: too many bytes, or too many field lines. */
  ghost predicate Oversized(limits: Limits, s: string, i: nat)
    requires i <= |s|
  {
    var k := SkipEmptyLines(s, i);
    match SplitHead(s, k)
    case None => |s| - k > limits.maxHeaderBytes
    case Some(split) => split.end - k > limits.maxHeaderBytes || |split.lines| > limits.maxHeaderCount + 1
  }

  /** A request line of the right shape, in a version of HTTP other than 1.x. */
  ghost predicate OtherVersion(line: string) {
    exists verb: string, target: string, major: char, minor: char :: IsOtherVersion(line, verb, target, major, minor)
  }

  ghost predicate IsOtherVersion(line: string, verb: string, target: string, major: char, minor: char) {
    && IsToken(verb) && IsOriginForm(target) && IsDigit(major) && major != '1' && IsDigit(minor)
    && line == verb + " " + target + " " + ("HTTP/" + [major] + "." + [minor])
  }

  lemma OtherVersionIff(line: string)
    ensures ParseRequestLine(line).Err? ==> ParseRequestLine(line).error.Status() in {400, 505}
    ensures ParseRequestLine(line).Err? && ParseRequestLine(line).error.Status() == 505 <==> OtherVersion(line)
  {
    hide IsToken, IsOriginForm, IsOtherVersion;
    if ParseRequestLine(line).Err? && ParseRequestLine(line).error.Status() == 505 {
      UnsupportedShape(line);
    }
    forall verb: string, target: string, major: char, minor: char | IsOtherVersion(line, verb, target, major, minor)
      ensures ParseRequestLine(line) == Err(UnsupportedVersion("HTTP/" + [major] + "." + [minor]))
    {
      OtherVersionRefused(line, verb, target, major, minor);
    }
  }

  lemma UnsupportedShape(line: string)
    requires ParseRequestLine(line).Err? && ParseRequestLine(line).error.Status() == 505
    ensures OtherVersion(line)
  {
    hide IsToken;
    var first := Find(line, ' ', 0);
    var second := Find(line, ' ', first + 1);
    var version := line[second + 1..];
    assert version == "HTTP/" + [version[5]] + "." + [version[7]];
    assert line == line[..first] + " " + line[first + 1..second] + " " + version;
    assert IsOtherVersion(line, line[..first], line[first + 1..second], version[5], version[7]);
  }

  lemma OtherVersionRefused(line: string, verb: string, target: string, major: char, minor: char)
    requires IsOtherVersion(line, verb, target, major, minor)
    ensures ParseRequestLine(line) == Err(UnsupportedVersion("HTTP/" + [major] + "." + [minor]))
  {
    hide ParseRequestLine, IsToken, IsOriginForm;
    VersionRefused(verb, target, "HTTP/" + [major] + "." + [minor]);
  }

  lemma {:induction false} FieldLinesRefused(lines: seq<string>)
    requires NoEmptyLine(lines) && ParseHeaders(lines).Err?
    ensures ParseHeaders(lines).error.Status() == 400
    decreases |lines|
  {
    if lines != [] && ParseHeaders(lines[..|lines| - 1]).Err? {
      FieldLinesRefused(lines[..|lines| - 1]);
    }
  }

  lemma LinesRefused(limits: Limits, lines: seq<string>)
    requires NoEmptyLine(lines) && lines != [] && |lines| <= limits.maxHeaderCount + 1 && ParseLines(limits, lines).Err?
    ensures var status := ParseLines(limits, lines).error.Status();
            && (status == 505 <==> OtherVersion(lines[0]))
            && (ParseRequestLine(lines[0]).Err? || ParseHeaders(lines[1..]).Err? ==> status in {400, 505})
            && (ParseRequestLine(lines[0]).Ok? && ParseHeaders(lines[1..]).Ok? ==>
                  BodyLength(ParseHeaders(lines[1..]).value, limits.maxBodyBytes)
                  == Err(ParseLines(limits, lines).error))
  {
    hide OtherVersion, ParseHeaders, ParseRequestLine, ValuesOf, LengthOf;
    OtherVersionIff(lines[0]);
    if ParseHeaders(lines[1..]).Err? {
      FieldLinesRefused(lines[1..]);
    }
    LengthRefused(ParseHeaders(lines[1..]), limits.maxBodyBytes);
  }

  lemma LengthRefused(headers: Result<seq<Header>, ParseError>, max: nat)
    ensures headers.Ok? && BodyLength(headers.value, max).Err? ==>
              BodyLength(headers.value, max).error.Status() in {400, 413, 501}
  {
    hide ValuesOf;
  }

  /** The head that ended, when it is not oversized, and its fields, when they can be read. */
  ghost function FieldsAt(s: string, i: nat): Option<seq<Header>>
    requires i <= |s|
  {
    match SplitHead(s, SkipEmptyLines(s, i))
    case None => None
    case Some(split) =>
      if split.lines == [] || ParseRequestLine(split.lines[0]).Err? then None
      else match ParseHeaders(split.lines[1..]) case Err(_) => None case Ok(headers) => Some(headers)
  }

  /**
   The status of every refusal. 431 is for what is oversized, 505 for another version, 501 for a transfer coding without
   a length, 413 for a length above the limit, and 400 for everything else.
   */
  lemma RefusalStatus(limits: Limits, s: string, i: nat)
    requires i <= |s| && ParseOne(limits, s, i).Error?
    ensures var status, big := ParseOne(limits, s, i).error.Status(), Oversized(limits, s, i);
            var split, fields := SplitHead(s, SkipEmptyLines(s, i)), FieldsAt(s, i);
            && status in {400, 413, 431, 501, 505}
            && (status == 431 <==> big)
            && (status == 505 <==> !big && split.Some? && split.value.lines != [] && OtherVersion(split.value.lines[0]))
            && (status == 501 <==> && !big && fields.Some? && HasField(fields.value, "Transfer-Encoding")
                                   && !HasField(fields.value, "Content-Length"))
            && (ExactLimit(limits.maxBodyBytes) ==>
                  (status == 413 <==> !big && fields.Some? && TooLong(fields.value, limits.maxBodyBytes)))
  {
    hide SkipEmptyLines, SplitHead, ParseLines, OtherVersion, ParseRequestLine, ParseHeaders, BodyLength, HasField,
         TooLong;
    var k := SkipEmptyLines(s, i);
    if SplitHead(s, k).Some? {
      HeadHasALine(s, k);
      var lines := SplitHead(s, k).value.lines;
      TooManyRefused(limits, lines);
      if |lines| <= limits.maxHeaderCount + 1 && ParseLines(limits, lines).Err? {
        LinesRefused(limits, lines);
        OtherVersionIff(lines[0]);
        LengthRefused(ParseHeaders(lines[1..]), limits.maxBodyBytes);
        if FieldsAt(s, i).Some? {
          FieldsRefused(FieldsAt(s, i).value, limits.maxBodyBytes);
        }
      }
    }
  }

  lemma TooManyRefused(limits: Limits, lines: seq<string>)
    requires NoEmptyLine(lines) && lines != []
    ensures |lines| > limits.maxHeaderCount + 1 ==>
              ParseLines(limits, lines) == Err(TooManyHeaders(limits.maxHeaderCount))
  {
    hide ParseRequestLine, ParseHeaders, BodyLength;
  }

  /** Just one Content-Length, without transfer coding, and it denotes more than the limit. */
  ghost predicate TooLong(headers: seq<Header>, max: nat) {
    && !HasField(headers, "Transfer-Encoding")
    && exists k: nat :: OnlyField(headers, k, "Content-Length") && IsTooLong(headers[k].value, max)
  }

  predicate IsTooLong(text: string, max: nat) {
    text != "" && AllDigits(text) && Value(text) > max
  }

  lemma TooLongIff(headers: seq<Header>, max: nat)
    requires ExactLimit(max)
    ensures BodyLength(headers, max) == Err(BodyTooLarge(max)) <==> TooLong(headers, max)
  {
    hide ValuesOf, LengthOf, AllDigits, Value, IEquals, HasField, Repeats;
    ValuesMeaning(headers, "Content-Length");
    ValuesMeaning(headers, "Transfer-Encoding");
    forall k: nat | OnlyField(headers, k, "Content-Length")
      ensures ValuesOf(headers, "Content-Length") == [headers[k].value]
      ensures LengthOf(headers[k].value, max) == Err(BodyTooLarge(max)) <==> IsTooLong(headers[k].value, max)
    {
      LengthIff(headers[k].value, max, 0);
    }
  }

  lemma LimitInError(headers: seq<Header>, max: nat)
    ensures BodyLength(headers, max).Err? && BodyLength(headers, max).error.BodyTooLarge? ==>
              BodyLength(headers, max).error == BodyTooLarge(max)
  {
    hide ValuesOf, Accumulate;
  }

  lemma FieldsRefused(headers: seq<Header>, max: nat)
    requires BodyLength(headers, max).Err?
    ensures var status := BodyLength(headers, max).error.Status();
            && (status == 501 <==> HasField(headers, "Transfer-Encoding") && !HasField(headers, "Content-Length"))
            && (ExactLimit(max) ==> (status == 413 <==> TooLong(headers, max)))
  {
    hide BodyLength, HasField, TooLong, Repeats, OnlyField, AllDigits, Value;
    BodyLengthErrors(headers, max);
    LengthRefused(Ok(headers), max);
    LimitInError(headers, max);
    if ExactLimit(max) {
      TooLongIff(headers, max);
    }
  }

  // ---------------------------------------------------------------- nothing else is accepted

  /** A split line is its text and the terminator it had. */
  lemma LineSpelled(s: string, i: nat) returns (e: Eol)
    requires i <= |s| && Find(s, '\n', i) < |s|
    ensures var newline := Find(s, '\n', i);
            var line := StripCR(s[i..newline]);
            At(s, i, line + EolText(e)) && i + |line| + |EolText(e)| == newline + 1
  {
    hide Find;
    var newline := Find(s, '\n', i);
    var raw := s[i..newline];
    var line := StripCR(raw);
    e := if line == raw then LF else CRLF;
    if line != raw {
      assert raw == line + "\r";
    }
    assert s[i..newline + 1] == raw + "\n";
    assert raw + "\n" == line + EolText(e);
  }

  /** The first line of a split head, and the rest. */
  lemma SplitFirst(s: string, i: nat, lines: seq<string>, end: nat)
    requires i <= |s| && SplitHead(s, i) == Some(Split(lines, end))
    ensures var newline := Find(s, '\n', i);
            && newline < |s|
            && if lines == [] then StripCR(s[i..newline]) == "" && end == newline + 1
               else lines[0] == StripCR(s[i..newline]) && SplitHead(s, newline + 1) == Some(Split(lines[1..], end))
  {
    hide SplitHead, StripCR, Find;
    SplitStep(s, i);
    var newline := Find(s, '\n', i);
    if lines != [] {
      var rest := SplitHead(s, newline + 1).value;
      assert ([StripCR(s[i..newline])] + rest.lines)[1..] == rest.lines;
    }
  }

  lemma {:induction false} HeaderAccepted(lines: seq<string>, k: nat)
    requires NoEmptyLine(lines) && ParseHeaders(lines).Ok? && k < |lines|
    ensures ParseHeaderLine(lines[k]).Ok?
    decreases |lines|
  {
    hide ParseHeaderLine;
    if k < |lines| - 1 {
      HeaderAccepted(lines[..|lines| - 1], k);
    }
  }

  /** Accepted field lines, up to the empty line, are the printed form of some fields. */
  lemma {:induction false} FieldsSpelled(s: string, i: nat, lines: seq<string>, end: nat)
      returns (fields: seq<Field>, blank: Eol)
    requires i <= |s| && SplitHead(s, i) == Some(Split(lines, end)) && NoEmptyLine(lines)
    requires forall k | 0 <= k < |lines| :: ParseHeaderLine(lines[k]).Ok?
    ensures GoodFields(fields) && FieldLines(fields) == lines
    ensures At(s, i, FieldsText(fields, blank)) && i + |FieldsText(fields, blank)| == end
    decreases |lines|
  {
    hide At, StripCR, Find, SplitHead, ParseHeaderLine, GoodField, FieldText;
    SplitFirst(s, i, lines, end);
    var e := LineSpelled(s, i);
    var newline := Find(s, '\n', i);
    if lines == [] {
      fields, blank := [], e;
      assert "" + EolText(e) == EolText(e);
      assert FieldLines(fields) == [];
    } else {
      var line := lines[0];
      var rest: seq<Field>;
      rest, blank := FieldsSpelled(s, newline + 1, lines[1..], end);
      var f := FieldSpelled(line, e);
      fields := [f] + rest;
      FieldsCons(f, rest, blank);
      AtJoin(s, i, line + EolText(e), FieldsText(rest, blank));
      assert FieldLines(fields) == [line] + FieldLines(rest);
    }
  }

  lemma FieldSpelled(line: string, e: Eol) returns (f: Field)
    requires line != "" && ParseHeaderLine(line).Ok?
    ensures GoodField(f) && FieldText(f) == line && f.eol == e
  {
    hide ParseHeaderLine;
    var before, after := HeaderLineOnlyGrammar(line);
    f := Field(ParseHeaderLine(line).value, before, after, e);
  }

  lemma FieldsCons(f: Field, rest: seq<Field>, blank: Eol)
    ensures FieldsText([f] + rest, blank) == FieldText(f) + EolText(f.eol) + FieldsText(rest, blank)
    ensures GoodField(f) && GoodFields(rest) ==> GoodFields([f] + rest)
  {
    hide FieldText, GoodField;
    assert ([f] + rest)[1..] == rest;
  }

  /** Accepted lines are the printed form of a request, whatever comes before them and as its body. */
  lemma LinesSpelled(s: string, i: nat, lines: seq<string>, end: nat, lead: string, body: string) returns (m: Spelling)
    requires i <= |s| && SplitHead(s, i) == Some(Split(lines, end)) && NoEmptyLine(lines) && lines != []
    requires ParseRequestLine(lines[0]).Ok? && ParseHeaders(lines[1..]).Ok? && OnlyEmptyLines(lead)
    ensures WellSpelled(m) && LinesOf(m) == lines && m.lead == lead && m.body == body
    ensures At(s, i, HeadOf(m)) && i + |HeadOf(m)| == end
  {
    hide At, StripCR, Find, SplitHead, ParseHeaderLine, ParseHeaders, ParseRequestLine, GoodFields, FieldLines,
         PrintRequestLine, FieldsText, OnlyEmptyLines;
    SplitFirst(s, i, lines, end);
    var eol := LineSpelled(s, i);
    forall n | 0 <= n < |lines[1..]| ensures ParseHeaderLine(lines[1..][n]).Ok? {
      HeaderAccepted(lines[1..], n);
    }
    var fields, blank := FieldsSpelled(s, Find(s, '\n', i) + 1, lines[1..], end);
    var minor := RequestLineOnlyGrammar(lines[0]);
    var p := ParseRequestLine(lines[0]).value;
    m := Spelling(lead, p.verb, p.target, minor, eol, fields, blank, body);
    AtJoin(s, i, lines[0] + EolText(eol), FieldsText(fields, blank));
    assert lines == [lines[0]] + lines[1..];
  }

  lemma AtSlice(s: string, i: nat, k: nat)
    requires i <= k <= |s|
    ensures At(s, i, s[i..k])
  {
  }

  /** `m` is a spelling of `r` that stands at position `i`. */
  ghost predicate SpelledAt(limits: Limits, s: string, i: nat, m: Spelling, r: Request) {
    WellSpelled(m) && WithinLimits(limits, m) && At(s, i, TextOf(m)) && r == RequestOf(m, i)
  }

  /** The shortest head with a Content-Length of twenty digits, the first that `std::size_t` may fail to hold. */
  const WRAPPING_HEAD: nat := 50

  /** No head within the limits can make the digit loop wrap. */
  predicate LengthsReadExactly(limits: Limits) {
    ExactLimit(limits.maxBodyBytes) || limits.maxHeaderBytes < WRAPPING_HEAD || limits.maxHeaderCount == 0
  }

  /**
   A spelling that the stream holds is returned. Where no length can wrap, a request is returned exactly when the stream
   holds a spelling of it: the grammar, no more and no less.
   */
  lemma RequestIff(limits: Limits, s: string, i: nat, r: Request)
    requires i <= |s|
    ensures (exists m: Spelling :: SpelledAt(limits, s, i, m, r)) ==> ParseOne(limits, s, i) == Complete(r)
    ensures LengthsReadExactly(limits) ==>
              (ParseOne(limits, s, i) == Complete(r) <==> exists m: Spelling :: SpelledAt(limits, s, i, m, r))
  {
    if LengthsReadExactly(limits) && ParseOne(limits, s, i) == Complete(r) {
      var m := CompleteSpelled(limits, s, i);
    }
    forall m: Spelling | SpelledAt(limits, s, i, m, r) ensures ParseOne(limits, s, i) == Complete(r) {
      hide ParseOne, WellSpelled, WithinLimits, At;
      RequestRoundTrip(limits, s, i, m);
    }
  }

  /** An accepted head, with the empty lines before it, is the printed form of a request. */
  lemma HeadSpelled(limits: Limits, s: string, i: nat) returns (m: Spelling)
    requires i <= |s| && HeadAt(limits, s, i).HeadDone?
    ensures WellSpelled(m) && At(s, i, m.lead + HeadOf(m)) && i + |m.lead + HeadOf(m)| == HeadAt(limits, s, i).end
    ensures |HeadOf(m)| <= limits.maxHeaderBytes && |m.fields| <= limits.maxHeaderCount
    ensures var head := HeadAt(limits, s, i).head;
            && BodyLength(HeadersOf(m.fields), limits.maxBodyBytes) == Ok(head.bodyLength)
            && head.line == RequestLine(m.verb, m.target, VersionOf(m.minor)) && head.headers == HeadersOf(m.fields)
            && i + |m.lead| == HeadAt(limits, s, i).begin
  {
    hide At, BodyLength, HeadOf, HeadersOf, LinesOf, SkipEmptyLines, SplitHead, ParseRequestLine, ParseHeaders,
         OnlyEmptyLines, WellSpelled;
    var k := SkipEmptyLines(s, i);
    var split := SplitHead(s, k).value;
    SkippedAreEmptyLines(s, i);
    HeadHasALine(s, k);
    m := LinesSpelled(s, k, split.lines, split.end, s[i..k], "");
    LinesDecided(limits, m);
    AtSlice(s, i, k);
    AtJoin(s, i, m.lead, HeadOf(m));
  }

  lemma CompleteSpelled(limits: Limits, s: string, i: nat) returns (m: Spelling)
    requires LengthsReadExactly(limits) && i <= |s| && ParseOne(limits, s, i).Complete?
    ensures SpelledAt(limits, s, i, m, ParseOne(limits, s, i).request)
  {
    hide At, BodyLength, HeadOf, HeadersOf, WellSpelled, Announces, LengthsReadExactly, HeadAt;
    var head := HeadSpelled(limits, s, i);
    var n, end := HeadAt(limits, s, i).head.bodyLength, HeadAt(limits, s, i).end;
    m := head.(body := s[end..end + n]);
    LengthSpelled(limits, head, n);
    SameHead(head);
    SameSpelling(head, m.body);
    AtSlice(s, end, end + n);
    AtJoin(s, i, m.lead + HeadOf(m), m.body);
  }

  lemma SameSpelling(m: Spelling, body: string)
    ensures WellSpelled(m.(body := body)) <==> WellSpelled(m)
  {
  }

  /** `m` stands at `i`, within the limits, announces `n` bytes of body, and fewer follow. */
  ghost predicate AwaitsBody(limits: Limits, s: string, i: nat, m: Spelling, n: nat) {
    && WellSpelled(m) && At(s, i, m.lead + HeadOf(m))
    && |HeadOf(m)| <= limits.maxHeaderBytes && |m.fields| <= limits.maxHeaderCount
    && Announces(HeadersOf(m.fields), limits.maxBodyBytes, n) && n < SIZE_MODULUS
    && |s| < i + |m.lead + HeadOf(m)| + n
  }

  /** The head at `i`, after its empty lines, has not ended and may still grow. */
  ghost predicate AwaitsHead(limits: Limits, s: string, i: nat)
    requires i <= |s|
  {
    var k := SkipEmptyLines(s, i);
    HeadEnd(s, k) == None && |s| - k <= limits.maxHeaderBytes
  }

  /** Where no length can wrap, the parser waits exactly for the rest of a head or for the body one announces. */
  lemma IncompleteIff(limits: Limits, s: string, i: nat)
    requires LengthsReadExactly(limits) && i <= |s|
    ensures ParseOne(limits, s, i) == Incomplete <==>
            AwaitsHead(limits, s, i) || exists m: Spelling, n: nat :: AwaitsBody(limits, s, i, m, n)
  {
    hide At, BodyLength, HeadOf, HeadersOf, WellSpelled, Announces, LengthsReadExactly, HeadAt;
    PendingIff(limits, s, i);
    if HeadAt(limits, s, i).HeadDone? && ParseOne(limits, s, i) == Incomplete {
      var m := HeadSpelled(limits, s, i);
      var n := HeadAt(limits, s, i).head.bodyLength;
      LengthSpelled(limits, m, n);
      assert AwaitsBody(limits, s, i, m, n);
    }
    forall m: Spelling, n: nat | AwaitsBody(limits, s, i, m, n) ensures ParseOne(limits, s, i) == Incomplete {
      hide ParseOne;
      SpelledOutcome(limits, s, i, m);
    }
  }

  lemma PendingIff(limits: Limits, s: string, i: nat)
    requires i <= |s|
    ensures HeadAt(limits, s, i) == HeadPending <==> AwaitsHead(limits, s, i)
  {
    hide SkipEmptyLines, SplitHead, ParseLines;
  }

  /** An accepted length is the one announced. */
  lemma LengthSpelled(limits: Limits, m: Spelling, n: nat)
    requires LengthsReadExactly(limits) && WellSpelled(m)
    requires |HeadOf(m)| <= limits.maxHeaderBytes && |m.fields| <= limits.maxHeaderCount
    requires BodyLength(HeadersOf(m.fields), limits.maxBodyBytes) == Ok(n)
    ensures Announces(HeadersOf(m.fields), limits.maxBodyBytes, n) && n < SIZE_MODULUS
  {
    hide HeadOf, BodyLength, Announces, AllDigits, Value, IEquals, WellSpelled;
    var headers, max := HeadersOf(m.fields), limits.maxBodyBytes;
    LengthFits(headers, max, n);
    if !ExactLimit(max) {
      forall k: nat | OnlyField(headers, k, "Content-Length") && AllDigits(headers[k].value)
        ensures Value(headers[k].value) < SIZE_MODULUS
      {
        LongFieldLongHead(m, k);
        ShortValue(headers[k].value);
      }
    }
    BodyLengthIff(headers, max, n);
  }

  lemma LengthFits(headers: seq<Header>, max: nat, n: nat)
    requires BodyLength(headers, max) == Ok(n)
    ensures n < SIZE_MODULUS
  {
    hide ValuesOf;
  }

  lemma ShortValue(text: string)
    requires AllDigits(text) && |text| < 20
    ensures Value(text) < SIZE_MODULUS
  {
    ValueBelow(text);
    assert Pow10(10) == 10_000_000_000 by { assert Pow10(5) == 100_000; }
    assert Pow10(15) == 1_000_000_000_000_000;
    assert Pow10(19) == 10_000_000_000_000_000_000;
    Pow10Grows(|text|, 19);
  }

  /** A head with a Content-Length is as long as that takes. */
  lemma LongFieldLongHead(m: Spelling, k: nat)
    requires WellSpelled(m) && k < |m.fields| && IEquals(m.fields[k].header.name, "Content-Length")
    ensures |HeadOf(m)| >= 30 + |m.fields[k].header.value|
  {
    hide FieldsText, GoodFields;
    FieldInText(m.fields, m.blank, k);
    EolLength(m.eol);
  }

  lemma EolLength(e: Eol)
    ensures |EolText(e)| >= 1
  {
  }

  lemma {:induction false} FieldInText(fields: seq<Field>, blank: Eol, k: nat)
    requires k < |fields|
    ensures |FieldsText(fields, blank)| >= |FieldText(fields[k])| + 2
    decreases |fields|
  {
    hide FieldText;
    EolLength(fields[0].eol);
    if k > 0 {
      FieldInText(fields[1..], blank, k - 1);
    } else if |fields| > 1 {
      FieldInText(fields[1..], blank, 0);
    }
  }

  /** The parser accepts exactly the grammar. */
  ghost predicate AcceptsGrammar(limits: Limits) {
    forall s: string, i: nat, r: Request | i <= |s| ::
      ParseOne(limits, s, i) == Complete(r) <==> exists m: Spelling :: SpelledAt(limits, s, i, m, r)
  }

  /** Exactly the limits under which it does, given that the body limit itself is a `std::size_t`. */
  lemma AcceptsGrammarIff(limits: Limits)
    requires limits.maxBodyBytes < SIZE_MODULUS
    ensures AcceptsGrammar(limits) <==> LengthsReadExactly(limits)
  {
    hide ParseOne, SpelledAt, LengthsReadExactly;
    if LengthsReadExactly(limits) {
      forall s: string, i: nat, r: Request | i <= |s|
        ensures ParseOne(limits, s, i) == Complete(r) <==> exists m: Spelling :: SpelledAt(limits, s, i, m, r)
      {
        RequestIff(limits, s, i, r);
      }
    } else {
      var m := WrappingRequest();
      WrapsToNothing(limits);
      assert ParseOne(limits, TextOf(m), 0) == Complete(RequestOf(m, 0));
    }
  }

  /** A request that announces 2^64 bytes of body and sends none. */
  function WrappingRequest(): Spelling {
    Spelling("", "A", "/", '1', LF, [Field(Header("Content-Length", WrapText()), "", "", LF)], LF, "")
  }

  lemma WrapTextLength()
    ensures |WrapText()| <= 20
  {
    hide OfNat;
    assert Pow10(10) == 10_000_000_000 by { assert Pow10(5) == 100_000; }
    assert Pow10(15) == 1_000_000_000_000_000;
    assert Pow10(19) == 10_000_000_000_000_000_000;
    OfNatLength(TENTH, 19, Pow10(19));
  }

  lemma WrappingSpelled()
    ensures var m := WrappingRequest();
            WellSpelled(m) && |HeadOf(m)| <= WRAPPING_HEAD && |m.fields| == 1
  {
    WrapTextLength();
    WrapTextDigits();
    hide WrapText, Value;
    var m := WrappingRequest();
    var text := WrapText();
    DigitsAreValue(text);
    NameIsToken();
    assert m.fields[1..] == [];
    assert |FieldsText(m.fields, LF)| == 15 + |text| + 2;
  }

  lemma DigitsAreValue(text: string)
    requires AllDigits(text) && text != ""
    ensures IsFieldValue(text) && Trimmed(text)
  {
  }

  lemma NameIsToken()
    ensures IsToken("Content-Length") && |"Content-Length"| == 14 && IsToken("A") && IsOriginForm("/")
  {
  }

  /** It is returned as a request without a body, and so is no request that its own bytes spell. */
  lemma WrapsToNothing(limits: Limits)
    requires !LengthsReadExactly(limits) && limits.maxBodyBytes < SIZE_MODULUS
    ensures var m := WrappingRequest();
            && ParseOne(limits, TextOf(m), 0) == Complete(RequestOf(m, 0))
            && forall other: Spelling :: !SpelledAt(limits, TextOf(m), 0, other, RequestOf(m, 0))
  {
    var m := WrappingRequest();
    var s, headers, max := TextOf(m), HeadersOf(m.fields), limits.maxBodyBytes;
    WrappingSpelled();
    WrappingFields(max);
    hide WrappingRequest, HeadOf, HeadersOf, WellSpelled, ParseOne, BodyLength, Announces;
    assert m.lead + HeadOf(m) == s;
    AtWhole(s);
    SpelledDecision(limits, s, 0, m);
    assert m.(body := s[|s|..|s|]) == m;
    forall other: Spelling ensures !SpelledAt(limits, s, 0, other, RequestOf(m, 0)) {
      SameFields(limits, s, 0, m, other);
    }
  }

  /** Two spellings of one request have the same fields and body. */
  lemma SameFields(limits: Limits, s: string, i: nat, m: Spelling, other: Spelling)
    requires !Announces(HeadersOf(m.fields), limits.maxBodyBytes, |m.body|)
    ensures !SpelledAt(limits, s, i, other, RequestOf(m, i))
  {
    hide Announces, HeadersOf, HeadOf, WellSpelled, At;
  }

  lemma WrappingFields(max: nat)
    requires !ExactLimit(max)
    ensures var m := WrappingRequest();
            && BodyLength(HeadersOf(m.fields), max) == Ok(0) && !Announces(HeadersOf(m.fields), max, 0)
            && m.lead == "" && m.body == ""
  {
    WrapTextWraps(max);
    hide WrapText, Value, Accumulate, AllDigits;
    var headers := HeadersOf(WrappingRequest().fields);
    assert |headers| == 1 && headers[0].name == "Content-Length";
    NotCoded();
    assert OnlyField(headers, 0, "Content-Length");
    ValuesMeaning(headers, "Content-Length");
    ValuesMeaning(headers, "Transfer-Encoding");
  }

  lemma NotCoded()
    ensures IEquals("Content-Length", "Content-Length") && !IEquals("Content-Length", "Transfer-Encoding")
  {
  }

  // ---------------------------------------------------------------- pipelines

  /** A pipeline: the requests' texts back to back. */
  function PipelineText(ms: seq<Spelling>): string
  {
    if ms == [] then "" else TextOf(ms[0]) + PipelineText(ms[1..])
  }

  function PipelineRequests(ms: seq<Spelling>, i: nat): seq<Request>
  {
    if ms == [] then [] else [RequestOf(ms[0], i)] + PipelineRequests(ms[1..], i + |TextOf(ms[0])|)
  }

  ghost predicate GoodPipeline(limits: Limits, ms: seq<Spelling>) {
    forall k | 0 <= k < |ms| :: WellSpelled(ms[k]) && WithinLimits(limits, ms[k])
  }

  lemma {:induction false} PipelineTaken(limits: Limits, s: string, i: nat, ms: seq<Spelling>)
    requires GoodPipeline(limits, ms) && At(s, i, PipelineText(ms))
    ensures i + |PipelineText(ms)| <= |s|
    ensures Taken(limits, s, i, PipelineRequests(ms, i), i + |PipelineText(ms)|)
    decreases |ms|
  {
    hide At, ParseOne, TextOf, WellSpelled, WithinLimits, RequestOf;
    AtWithin(s, i, PipelineText(ms));
    if ms != [] {
      var text, rest := TextOf(ms[0]), PipelineText(ms[1..]);
      AtSplit(s, i, text, rest);
      RequestRoundTrip(limits, s, i, ms[0]);
      RequestEnds(ms[0], i);
      PipelineTaken(limits, s, i + |text|, ms[1..]);
      assert PipelineRequests(ms, i)[1..] == PipelineRequests(ms[1..], i + |text|);
    }
  }

  /** Pipelined requests come out one by one, in order, and the bytes after them are parsed from where they end. */
  lemma PipelineRoundTrip(limits: Limits, s: string, i: nat, ms: seq<Spelling>)
    requires GoodPipeline(limits, ms) && At(s, i, PipelineText(ms))
    ensures i + |PipelineText(ms)| <= |s|
    ensures Taken(limits, s, i, PipelineRequests(ms, i), i + |PipelineText(ms)|)
    ensures ParseAll(limits, s, i).requests
         == PipelineRequests(ms, i) + ParseAll(limits, s, i + |PipelineText(ms)|).requests
  {
    hide At, GoodPipeline, PipelineText, PipelineRequests, Taken, ParseAll;
    PipelineTaken(limits, s, i, ms);
    TakenIsParse(limits, s, i, PipelineRequests(ms, i), i + |PipelineText(ms)|);
  }

  /** Whatever the bytes, the requests returned are a pipeline of well-spelled requests at the front of them. */
  lemma {:induction false} StreamIsPipeline(limits: Limits, s: string, i: nat) returns (ms: seq<Spelling>)
    requires LengthsReadExactly(limits) && i <= |s|
    ensures GoodPipeline(limits, ms) && At(s, i, PipelineText(ms))
    ensures PipelineRequests(ms, i) == ParseAll(limits, s, i).requests
    decreases |s| - i
  {
    hide At, ParseOne, TextOf, WellSpelled, WithinLimits, RequestOf;
    ms := [];
    AtSlice(s, i, i);
    if ParseOne(limits, s, i).Complete? {
      var r := ParseOne(limits, s, i).request;
      var m := CompleteSpelled(limits, s, i);
      RequestEnds(m, i);
      var rest := StreamIsPipeline(limits, s, r.streamEnd);
      ms := [m] + rest;
      assert ms[1..] == rest;
      AtJoin(s, i, TextOf(m), PipelineText(rest));
    }
  }

  lemma RequestEnds(m: Spelling, i: nat)
    ensures RequestOf(m, i).streamEnd == i + |TextOf(m)|
  {
  }
}
