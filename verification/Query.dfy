/** Percent-decoding and query strings (src/query.cpp; section 2.1 of RFC 3986). */
module QueryStrings {
  import opened Text

  predicate IsHex(c: char) {
    '0' <= c <= '9' || 'a' <= c <= 'f' || 'A' <= c <= 'F'
  }

  function HexValue(c: char): (v: nat)
    requires IsHex(c)
    ensures v < 16 && (c == "0123456789abcdef"[v] || c == "0123456789ABCDEF"[v])
  {
    if '0' <= c <= '9' then c as int - '0' as int
    else if 'a' <= c <= 'f' then c as int - 'a' as int + 10
    else c as int - 'A' as int + 10
  }

  /** The byte `%` and these two digits stand for. */
  function EscapedByte(high: char, low: char): (c: char)
    requires IsHex(high) && IsHex(low)
  {
    (HexValue(high) * 16 + HexValue(low)) as char
  }

  /** `text` starts with a well-formed escape. */
  predicate StartsEscape(text: string) {
    |text| >= 3 && text[0] == '%' && IsHex(text[1]) && IsHex(text[2])
  }

  function PercentDecode(text: string): Option<string> {
    if text == "" then Some("")
    else if text[0] != '%' then
      match PercentDecode(text[1..])
      case None => None
      case Some(rest) => Some([text[0]] + rest)
    else if !StartsEscape(text) then None
    else
      match PercentDecode(text[3..])
      case None => None
      case Some(rest) => Some([EscapedByte(text[1], text[2])] + rest)
  }

  method DecodeLoop(text: string) returns (out: Option<string>)
    ensures out == PercentDecode(text)
  {
    hide EscapedByte;
    var done := "";
    var i := 0;
    assert text[0..] == text;
    while i < |text|
      invariant i <= |text|
      invariant PercentDecode(text) == Prepend(done, PercentDecode(text[i..]))
    {
      var rest := text[i..];
      if text[i] != '%' {
        assert rest[1..] == text[i + 1..];
        DecodePlain(done, rest);
        done := done + [text[i]];
      } else {
        if i + 2 >= |text| || !IsHex(text[i + 1]) || !IsHex(text[i + 2]) {
          assert rest[0] == '%' && !StartsEscape(rest);
          return None;
        }
        assert rest[3..] == text[i + 3..];
        DecodeEscape(done, rest);
        done := done + [EscapedByte(text[i + 1], text[i + 2])];
        i := i + 2;
      }
      i := i + 1;
    }
    assert text[i..] == "" && done + "" == done;
    out := Some(done);
  }

  function Prepend(done: string, rest: Option<string>): (r: Option<string>)
    ensures done == "" ==> r == rest
  {
    match rest
    case None => None
    case Some(tail) =>
      assert done == "" ==> done + tail == tail;
      Some(done + tail)
  }

  lemma DecodePlain(done: string, rest: string)
    requires rest != "" && rest[0] != '%'
    ensures Prepend(done, PercentDecode(rest)) == Prepend(done + [rest[0]], PercentDecode(rest[1..]))
  {
    var tail := PercentDecode(rest[1..]);
    assert tail.Some? ==> done + ([rest[0]] + tail.value) == (done + [rest[0]]) + tail.value;
  }

  lemma DecodeEscape(done: string, rest: string)
    requires StartsEscape(rest)
    ensures Prepend(done, PercentDecode(rest))
         == Prepend(done + [EscapedByte(rest[1], rest[2])], PercentDecode(rest[3..]))
  {
    hide EscapedByte;
    var tail, c := PercentDecode(rest[3..]), EscapedByte(rest[1], rest[2]);
    assert tail.Some? ==> done + ([c] + tail.value) == (done + [c]) + tail.value;
  }

  // ---------------------------------------------------------------- spellings

  /** `c` is the hexadecimal digit for `v`, in either case. */
  predicate IsHexDigit(c: char, v: nat)
    requires v < 16
  {
    c == "0123456789abcdef"[v] || c == "0123456789ABCDEF"[v]
  }

  /** `text` is a percent sign and the two hexadecimal digits of the byte `c`, the high one first. */
  predicate IsEscape(text: string, c: char) {
    && |text| == 3 && text[0] == '%' && c as int < 256
    && IsHexDigit(text[1], c as int / 16) && IsHexDigit(text[2], c as int % 16)
  }

  lemma EscapeIff(text: string, c: char)
    requires |text| >= 3
    ensures StartsEscape(text) && EscapedByte(text[1], text[2]) == c <==> IsEscape(text[..3], c)
  {
    hide EscapedByte, HexValue, IsHexDigit, IsHex;
    if StartsEscape(text) {
      ByteParts(text[1], text[2]);
    }
    if IsEscape(text[..3], c) {
      DigitOfHex(text[1], c as int / 16);
      DigitOfHex(text[2], c as int % 16);
      ByteParts(text[1], text[2]);
    }
  }

  lemma ByteParts(high: char, low: char)
    requires IsHex(high) && IsHex(low)
    ensures var c := EscapedByte(high, low) as int;
            && c < 256 && c / 16 == HexValue(high) && c % 16 == HexValue(low)
            && IsHexDigit(high, HexValue(high)) && IsHexDigit(low, HexValue(low))
  {
  }

  lemma DigitOfHex(c: char, v: nat)
    requires v < 16 && IsHexDigit(c, v)
    ensures IsHex(c) && HexValue(c) == v
  {
  }

  /** `text` writes `plain` byte by byte, each one as itself or as an escape in either case; never a bare `%`. */
  predicate Spells(text: string, plain: string)
    decreases |plain|
  {
    if plain == "" then text == ""
    else
      || (text != "" && text[0] != '%' && text[0] == plain[0] && Spells(text[1..], plain[1..]))
      || (|text| >= 3 && IsEscape(text[..3], plain[0]) && Spells(text[3..], plain[1..]))
  }

  /** Decoding inverts exactly the spellings. */
  lemma {:induction false} DecodeIff(text: string, plain: string)
    ensures PercentDecode(text) == Some(plain) <==> Spells(text, plain)
    decreases |text|
  {
    hide EscapedByte, IsEscape;
    if |text| >= 3 && plain != "" {
      EscapeIff(text, plain[0]);
    }
    if text != "" {
      StartsWithPercent(text);
      var step := if text[0] != '%' then 1 else 3;
      if text[0] != '%' || StartsEscape(text) {
        var first := if text[0] != '%' then text[0] else EscapedByte(text[1], text[2]);
        if plain != "" {
          DecodeIff(text[step..], plain[1..]);
          assert plain == [plain[0]] + plain[1..];
          match PercentDecode(text[step..])
          case None =>
          case Some(rest) =>
            assert ([first] + rest)[1..] == rest;
        }
      }
    }
  }

  lemma StartsWithPercent(text: string)
    ensures forall c: char :: |text| >= 3 && IsEscape(text[..3], c) ==> text[0] == '%'
  {
  }

  function HexDigit(v: nat, lower: bool): (c: char)
    requires v < 16
    ensures IsHexDigit(c, v) && IsHex(c) && HexValue(c) == v
  {
    if v < 10 then '0' + v as char else (if lower then 'a' else 'A') + (v - 10) as char
  }

  /** How a writer spells a byte: as itself if that is safe, or as an escape with each digit in either case. */
  datatype Style = Itself | Escaped(lowerHigh: bool, lowerLow: bool)

  predicate IsByte(c: char) {
    c as int < 256
  }

  predicate MustEscape(c: char) {
    c == '%' || c == '&' || c == '='
  }

  function EscapeOf(c: char, style: Style): (text: string)
    requires IsByte(c)
    ensures IsEscape(text, c) && '&' !in text && '=' !in text
  {
    var (high, low) := if style.Itself? then (false, false) else (style.lowerHigh, style.lowerLow);
    ['%', HexDigit(c as int / 16, high), HexDigit(c as int % 16, low)]
  }

  /** Escapes the bytes that would be misread, and any others the writer chooses. */
  function Escape(plain: string, chosen: seq<Style>): string
    requires |plain| == |chosen| && forall i | 0 <= i < |plain| :: IsByte(plain[i])
    decreases |plain|
  {
    if plain == "" then ""
    else
      (if chosen[0] != Itself || MustEscape(plain[0]) then EscapeOf(plain[0], chosen[0]) else [plain[0]])
        + Escape(plain[1..], chosen[1..])
  }

  /** Every byte string has such spellings, with any choice of what else to escape. */
  lemma {:induction false} EscapeSpells(plain: string, chosen: seq<Style>)
    requires |plain| == |chosen| && forall i | 0 <= i < |plain| :: IsByte(plain[i])
    ensures Spells(Escape(plain, chosen), plain)
    ensures '&' !in Escape(plain, chosen) && '=' !in Escape(plain, chosen)
    decreases |plain|
  {
    if plain != "" {
      EscapeSpells(plain[1..], chosen[1..]);
      var rest := Escape(plain[1..], chosen[1..]);
      var text := Escape(plain, chosen);
      if chosen[0] != Itself || MustEscape(plain[0]) {
        var head := EscapeOf(plain[0], chosen[0]);
        assert text == head + rest && text[3..] == rest && text[..3] == head;
        NotInConcat('&', head, rest);
        NotInConcat('=', head, rest);
      } else {
        assert text == [plain[0]] + rest && text[1..] == rest;
      }
    }
  }

  // ---------------------------------------------------------------- parameters

  datatype QueryError = EmptySegment | NoValue(segment: string) | BadEscape(segment: string)

  datatype Parameter = Parameter(name: string, value: string)

  function ParseSegment(segment: string): Result<Parameter, QueryError> {
    if segment == "" then Err(EmptySegment)
    else
      var eq := Find(segment, '=', 0);
      if eq == |segment| then Err(NoValue(segment))
      else
        match (PercentDecode(segment[..eq]), PercentDecode(segment[eq + 1..]))
        case (Some(name), Some(value)) => Ok(Parameter(name, value))
        case _ => Err(BadEscape(segment))
  }

  function ParseSegments(query: string): Result<seq<Parameter>, QueryError>
    decreases |query|
  {
    var amp := Find(query, '&', 0);
    match ParseSegment(query[..amp])
    case Err(e) => Err(e)
    case Ok(p) =>
      if amp == |query| then Ok([p])
      else
        match ParseSegments(query[amp + 1..])
        case Err(e) => Err(e)
        case Ok(rest) => Ok([p] + rest)
  }

  function ParseQuery(query: string): Result<seq<Parameter>, QueryError> {
    if query == "" then Ok([]) else ParseSegments(query)
  }

  /** Each way a segment can fail: nothing there, no equals sign, or a part beside the first that spells nothing. */
  lemma SegmentErrors(name: string, value: string)
    requires '=' !in name
    ensures ParseSegment("") == Err(EmptySegment)
    ensures name != "" ==> ParseSegment(name) == Err(NoValue(name))
    ensures var segment := name + "=" + value;
            ParseSegment(segment) == Err(BadEscape(segment)) <==>
            (forall plain: string :: !Spells(name, plain)) || (forall plain: string :: !Spells(value, plain))
  {
    hide PercentDecode, Spells;
    var segment := name + "=" + value;
    assert segment[0..|name|] == name && segment[..|name|] == name && segment[|name| + 1..] == value;
    FindAt(segment, '=', 0, |name|);
    assert name[0..|name|] == name;
    FindAt(name, '=', 0, |name|);
    SpelledIff(name);
    SpelledIff(value);
  }

  lemma SpelledIff(text: string)
    ensures PercentDecode(text).Some? <==> exists plain: string :: Spells(text, plain)
  {
    hide PercentDecode, Spells;
    if PercentDecode(text).Some? {
      DecodeIff(text, PercentDecode(text).value);
    }
    forall plain: string | Spells(text, plain) ensures PercentDecode(text).Some? {
      DecodeIff(text, plain);
    }
  }

  method ReadSegment(segment: string) returns (r: Result<Parameter, QueryError>)
    ensures r == ParseSegment(segment)
  {
    hide PercentDecode;
    if segment == "" {
      return Err(EmptySegment);
    }
    var eq := Find(segment, '=', 0);
    if eq == |segment| {
      return Err(NoValue(segment));
    }
    var name := DecodeLoop(segment[..eq]);
    var value := DecodeLoop(segment[eq + 1..]);
    r := if name.None? || value.None? then Err(BadEscape(segment)) else Ok(Parameter(name.value, value.value));
  }

  method ParseQueryLoop(query: string) returns (r: Result<seq<Parameter>, QueryError>)
    ensures r == ParseQuery(query)
  {
    hide ParseSegment;
    if query == "" {
      return Ok([]);
    }
    var parameters := [];
    var rest := query;
    while true
      invariant ParseSegments(query) == After(parameters, ParseSegments(rest))
      decreases |rest|
    {
      var amp := Find(rest, '&', 0);
      var p := ReadSegment(rest[..amp]);
      if p.Err? {
        return Err(p.error);
      }
      if amp == |rest| {
        return Ok(parameters + [p.value]);
      }
      SegmentsStep(parameters, rest, amp, p.value);
      parameters := parameters + [p.value];
      rest := rest[amp + 1..];
    }
  }

  function After(done: seq<Parameter>, rest: Result<seq<Parameter>, QueryError>)
    : (r: Result<seq<Parameter>, QueryError>)
    ensures done == [] ==> r == rest
  {
    match rest
    case Err(e) => Err(e)
    case Ok(more) =>
      assert done == [] ==> done + more == more;
      Ok(done + more)
  }

  lemma SegmentsStep(done: seq<Parameter>, rest: string, amp: nat, p: Parameter)
    requires amp == Find(rest, '&', 0) < |rest| && ParseSegment(rest[..amp]) == Ok(p)
    ensures After(done, ParseSegments(rest)) == After(done + [p], ParseSegments(rest[amp + 1..]))
  {
    hide ParseSegment;
    var tail := ParseSegments(rest[amp + 1..]);
    assert tail.Ok? ==> done + ([p] + tail.value) == (done + [p]) + tail.value;
  }

  // ---------------------------------------------------------------- round trip

  /** One parameter as written: separators inside it must be escaped. */
  datatype Written = Written(name: string, value: string, nameText: string, valueText: string) {
    function Plain(): Parameter {
      Parameter(name, value)
    }

    function Segment(): string {
      nameText + "=" + valueText
    }

    predicate Good() {
      && Spells(nameText, name) && Spells(valueText, value)
      && '&' !in nameText && '=' !in nameText && '&' !in valueText
    }
  }

  function Join(ws: seq<Written>): string
    requires ws != []
  {
    if |ws| == 1 then ws[0].Segment() else ws[0].Segment() + "&" + Join(ws[1..])
  }

  function PlainOf(ws: seq<Written>): seq<Parameter> {
    seq(|ws|, i requires 0 <= i < |ws| => ws[i].Plain())
  }

  lemma SegmentParts(w: Written)
    ensures var s, n := w.Segment(), |w.nameText|;
            n < |s| && s[n] == '=' && s[..n] == w.nameText && s[0..n] == w.nameText && s[n + 1..] == w.valueText
  {
  }

  lemma SegmentParses(w: Written)
    requires w.Good()
    ensures ParseSegment(w.Segment()) == Ok(w.Plain())
  {
    hide Spells, PercentDecode;
    SegmentParts(w);
    FindAt(w.Segment(), '=', 0, |w.nameText|);
    DecodeIff(w.nameText, w.name);
    DecodeIff(w.valueText, w.value);
  }

  lemma SegmentHasNoAmp(w: Written)
    requires w.Good()
    ensures '&' !in w.Segment()
  {
  }

  /** Escaped separators never create or merge parameters: what was joined is what is parsed. */
  lemma {:induction false} QueryRoundTrip(ws: seq<Written>)
    requires ws != [] && forall i | 0 <= i < |ws| :: ws[i].Good()
    ensures Join(ws) != "" && ParseQuery(Join(ws)) == Ok(PlainOf(ws))
    decreases |ws|
  {
    hide ParseSegment, Written.Good, Written.Segment;
    var first := ws[0].Segment();
    SegmentParses(ws[0]);
    SegmentHasNoAmp(ws[0]);
    SegmentNotEmpty(ws[0]);
    if |ws| == 1 {
      assert first[0..|first|] == first && first[..|first|] == first;
      FindAt(first, '&', 0, |first|);
      assert PlainOf(ws) == [ws[0].Plain()];
    } else {
      QueryRoundTrip(ws[1..]);
      var rest := Join(ws[1..]);
      JoinParts(first, rest);
      FindAt(Join(ws), '&', 0, |first|);
      assert PlainOf(ws) == [ws[0].Plain()] + PlainOf(ws[1..]);
    }
  }

  lemma SegmentNotEmpty(w: Written)
    ensures w.Segment() != ""
  {
  }

  lemma JoinParts(first: string, rest: string)
    ensures var s, n := first + "&" + rest, |first|;
            n < |s| && s[n] == '&' && s[0..n] == first && s[..n] == first && s[n + 1..] == rest
  {
  }

  lemma SegmentOnly(segment: string) returns (w: Written)
    requires '&' !in segment && ParseSegment(segment).Ok?
    ensures w.Good() && w.Plain() == ParseSegment(segment).value && w.Segment() == segment
  {
    hide Spells, PercentDecode;
    var eq := Find(segment, '=', 0);
    var p := ParseSegment(segment).value;
    w := Written(p.name, p.value, segment[..eq], segment[eq + 1..]);
    DecodeIff(w.nameText, w.name);
    DecodeIff(w.valueText, w.value);
    assert segment == segment[..eq] + "=" + segment[eq + 1..];
  }

  /** The first segment that fails decides, whatever follows it; an empty query has none. */
  lemma {:induction false} QueryErrors(ws: seq<Written>, segment: string, rest: string)
    requires (forall i | 0 <= i < |ws| :: ws[i].Good()) && '&' !in segment && ParseSegment(segment).Err?
    requires rest == "" || rest[0] == '&'
    requires ws == [] ==> segment + rest != ""
    ensures ParseQuery("") == Ok([])
    ensures var query := if ws == [] then segment + rest else Join(ws) + "&" + segment + rest;
            ParseQuery(query) == Err(ParseSegment(segment).error)
  {
    hide ParseSegment, Written.Good, Written.Segment;
    if ws == [] {
      FirstFails(segment, rest);
    } else {
      LaterFails(ws, segment, rest);
    }
  }

  lemma FirstFails(segment: string, rest: string)
    requires '&' !in segment && ParseSegment(segment).Err? && (rest == "" || rest[0] == '&')
    ensures ParseSegments(segment + rest) == Err(ParseSegment(segment).error)
  {
    hide ParseSegment;
    var query := segment + rest;
    assert query[0..|segment|] == segment && query[..|segment|] == segment;
    FindAt(query, '&', 0, |segment|);
  }

  lemma {:induction false} LaterFails(ws: seq<Written>, segment: string, rest: string)
    requires ws != [] && forall i | 0 <= i < |ws| :: ws[i].Good()
    requires '&' !in segment && ParseSegment(segment).Err? && (rest == "" || rest[0] == '&')
    ensures Join(ws) + "&" + segment + rest != ""
    ensures ParseSegments(Join(ws) + "&" + segment + rest) == Err(ParseSegment(segment).error)
    decreases |ws|
  {
    hide ParseSegment, Written.Good, Written.Segment;
    var first := ws[0].Segment();
    SegmentParses(ws[0]);
    SegmentHasNoAmp(ws[0]);
    var tail: string;
    if |ws| == 1 {
      tail := segment + rest;
      FirstFails(segment, rest);
    } else {
      tail := Join(ws[1..]) + "&" + segment + rest;
      LaterFails(ws[1..], segment, rest);
    }
    assert Join(ws) + "&" + segment + rest == first + "&" + tail;
    JoinParts(first, tail);
    FindAt(first + "&" + tail, '&', 0, |first|);
  }

  /** And nothing else parses: an accepted query is a join of spellings of what it returns. */
  lemma {:induction false} QueryOnlySpellings(query: string) returns (ws: seq<Written>)
    requires query != "" && ParseQuery(query).Ok?
    ensures ws != [] && (forall i | 0 <= i < |ws| :: ws[i].Good())
    ensures Join(ws) == query && PlainOf(ws) == ParseQuery(query).value
    decreases |query|
  {
    hide ParseSegment, Written.Good, Written.Segment;
    var amp := Find(query, '&', 0);
    assert '&' !in query[..amp] by { assert forall i | 0 <= i < amp :: query[..amp][i] == query[i]; }
    var w := SegmentOnly(query[..amp]);
    if amp == |query| {
      ws := [w];
      assert query[..amp] == query;
    } else {
      NonEmptySegments(query[amp + 1..]);
      var more := QueryOnlySpellings(query[amp + 1..]);
      ws := [w] + more;
      assert ws[1..] == more;
      assert query == query[..amp] + "&" + query[amp + 1..];
    }
    assert PlainOf(ws)[0] == w.Plain();
  }

  lemma NonEmptySegments(query: string)
    requires ParseSegments(query).Ok?
    ensures query != ""
  {
  }
}
