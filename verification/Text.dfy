/**
 Byte-string helpers shared by every other module (src/text.cpp), and decimal
 notation (std::to_string and the digit loops that read it back).

 A byte is modelled as a `char`; nothing depends on an upper bound except where a
 lemma asks for `IsByte`.
 */
module Text {

  datatype Option<+T> = None | Some(value: T)

  datatype Result<+T, +E> = Ok(value: T) | Err(error: E)

  /** Index of the first `c` at or after `i`, or `|s|` when there is none. */
  function Find(s: string, c: char, i: nat): (r: nat)
    requires i <= |s|
    ensures i <= r <= |s|
    ensures r < |s| ==> s[r] == c
    ensures forall j | i <= j < r :: s[j] != c
    decreases |s| - i
  {
    if i == |s| || s[i] == c then i else Find(s, c, i + 1)
  }

  /** When `s[i..k]` is free of `c` and `c` follows, `k` is the first `c` from `i` on. */
  lemma FindAt(s: string, c: char, i: nat, k: nat)
    requires i <= k <= |s| && c !in s[i..k]
    requires k < |s| ==> s[k] == c
    ensures Find(s, c, i) == k
  {
  }

  lemma NotInConcat(c: char, a: string, b: string)
    requires c !in a && c !in b
    ensures c !in a + b
  {
  }

  /** `fact`, kept whole: the verifier carries it as one fact where it would otherwise take it apart. */
  ghost predicate Whole(fact: bool) {
    fact == true
  }

  // ---------------------------------------------------------------- occurrences

  /** `text` occurs in `s` at position `i`. */
  predicate At(s: string, i: nat, text: string) {
    i + |text| <= |s| && s[i..i + |text|] == text
  }

  lemma AtSplit(s: string, i: nat, a: string, b: string)
    requires At(s, i, a + b)
    ensures At(s, i, a) && At(s, i + |a|, b)
  {
    var w := s[i..i + |a| + |b|];
    assert w == a + b;
    assert s[i..i + |a|] == w[..|a|];
    assert s[i + |a|..i + |a| + |b|] == w[|a|..];
  }

  lemma AtJoin(s: string, i: nat, a: string, b: string)
    requires At(s, i, a) && At(s, i + |a|, b)
    ensures At(s, i, a + b)
  {
    assert s[i..i + |a| + |b|] == s[i..i + |a|] + s[i + |a|..i + |a| + |b|];
  }

  lemma AtIndex(s: string, i: nat, text: string, j: nat)
    requires At(s, i, text) && j < |text|
    ensures i + j < |s| && s[i + j] == text[j]
  {
    assert s[i..i + |text|][j] == s[i + j];
  }

  lemma AtWithin(s: string, i: nat, text: string)
    requires At(s, i, text)
    ensures i + |text| <= |s|
  {
  }

  lemma AtWhole(s: string)
    ensures At(s, 0, s)
  {
  }

  lemma AtFront(s: string, text: string)
    requires text <= s
    ensures At(s, 0, text)
  {
  }

  lemma AtText(s: string, i: nat, text: string)
    requires At(s, i, text)
    ensures i + |text| <= |s| && s[i..i + |text|] == text
  {
  }

  /** The first occurrence of `pattern` at or after `i`. */
  function FindText(s: string, pattern: string, i: nat): (r: Option<nat>)
    requires i <= |s|
    ensures r.Some? ==> i <= r.value && At(s, r.value, pattern) && forall j | i <= j < r.value :: !At(s, j, pattern)
    ensures r.None? ==> forall j | i <= j <= |s| :: !At(s, j, pattern)
    decreases |s| - i
  {
    if At(s, i, pattern) then Some(i)
    else if i == |s| then None
    else FindText(s, pattern, i + 1)
  }

  /** An occurrence that has been found stays the first when more text follows. */
  lemma FindTextStable(s: string, x: string, pattern: string)
    requires FindText(s, pattern, 0).Some?
    ensures FindText(s + x, pattern, 0) == FindText(s, pattern, 0)
  {
    hide FindText;
    var k := FindText(s, pattern, 0).value;
    forall j | 0 <= j <= k ensures At(s + x, j, pattern) == At(s, j, pattern) {
      assert (s + x)[j..j + |pattern|] == s[j..j + |pattern|];
    }
  }

  // ---------------------------------------------------------------- case

  function ToLower(c: char): char {
    if 'A' <= c <= 'Z' then c - 'A' + 'a' else c
  }

  /** The same letter in either case, or the same character. */
  predicate SameLetter(c: char, d: char) {
    || c == d
    || ('A' <= c <= 'Z' && d as int == c as int + 32)
    || ('A' <= d <= 'Z' && c as int == d as int + 32)
  }

  predicate IEquals(a: string, b: string) {
    |a| == |b| && forall i | 0 <= i < |a| :: ToLower(a[i]) == ToLower(b[i])
  }

  /** Comparing without case: letter by letter, each in either case. */
  lemma IEqualsIff(a: string, b: string)
    ensures IEquals(a, b) <==> |a| == |b| && forall i | 0 <= i < |a| :: SameLetter(a[i], b[i])
  {
    forall c: char, d: char ensures ToLower(c) == ToLower(d) <==> SameLetter(c, d) {
    }
  }

  // ---------------------------------------------------------------- optional whitespace

  predicate IsBlank(c: char) {
    c == ' ' || c == '\t'
  }

  /** Section 5.6.3 of RFC 9110: optional whitespace is spaces and tabs. */
  lemma BlankIff(c: char)
    ensures IsBlank(c) <==> c in " \t"
  {
  }

  /** Nothing but spaces and tabs. */
  predicate AllBlank(s: string) {
    forall i | 0 <= i < |s| :: s[i] == ' ' || s[i] == '\t'
  }

  /** No space or tab at either end. */
  predicate Trimmed(s: string) {
    s != "" ==> s[0] != ' ' && s[0] != '\t' && s[|s| - 1] != ' ' && s[|s| - 1] != '\t'
  }

  /** The first index at or after `lo` that does not hold a blank. */
  function SkipBlanks(s: string, lo: nat): (k: nat)
    requires lo <= |s|
    ensures lo <= k <= |s|
    ensures forall i | lo <= i < k :: IsBlank(s[i])
    ensures k < |s| ==> !IsBlank(s[k])
    decreases |s| - lo
  {
    if lo < |s| && IsBlank(s[lo]) then SkipBlanks(s, lo + 1) else lo
  }

  /** The end of `s[lo..hi]` without its trailing blanks. */
  function DropBlanks(s: string, lo: nat, hi: nat): (k: nat)
    requires lo <= hi <= |s|
    ensures lo <= k <= hi
    ensures forall i | k <= i < hi :: IsBlank(s[i])
    ensures k > lo ==> !IsBlank(s[k - 1])
    decreases hi
  {
    if lo < hi && IsBlank(s[hi - 1]) then DropBlanks(s, lo, hi - 1) else hi
  }

  function Trim(s: string): (r: string)
    ensures Trimmed(r)
  {
    var lo := SkipBlanks(s, 0);
    s[lo..DropBlanks(s, lo, |s|)]
  }

  /** Cutting off what `Trim` drops loses only blanks. */
  lemma TrimDropsBlanks(s: string) returns (before: string, after: string)
    ensures AllBlank(before) && AllBlank(after) && s == before + Trim(s) + after
  {
    var lo := SkipBlanks(s, 0);
    var hi := DropBlanks(s, lo, |s|);
    before, after := s[..lo], s[hi..];
    assert s[..lo] + s[lo..hi] == s[..hi];
  }

  /** `Trim` finds the core of any text written as blanks, a trimmed core, and blanks. */
  lemma TrimIsTheCore(before: string, core: string, after: string)
    requires AllBlank(before) && AllBlank(after) && Trimmed(core)
    ensures Trim(before + core + after) == core
  {
    var s := before + core + after;
    assert forall i | 0 <= i < |before| :: s[i] == before[i];
    assert forall i | 0 <= i < |core| :: s[|before| + i] == core[i];
    assert forall i | |before| + |core| <= i < |s| :: s[i] == after[i - |before| - |core|];
    var lo := SkipBlanks(s, 0);
    assert core != "" ==> !IsBlank(s[|before|]) && !IsBlank(s[|before| + |core| - 1]);
    assert Trim(s) == core;
  }

  method TrimWhitespace(text: string) returns (r: string)
    ensures r == Trim(text)
  {
    var lo, hi := 0, |text|;
    while lo < |text| && IsBlank(text[lo])
      invariant lo <= |text|
      invariant SkipBlanks(text, lo) == SkipBlanks(text, 0)
    {
      lo := lo + 1;
    }
    while hi > lo && IsBlank(text[hi - 1])
      invariant lo <= hi <= |text|
      invariant DropBlanks(text, lo, hi) == DropBlanks(text, lo, |text|)
    {
      hi := hi - 1;
    }
    r := text[lo..hi];
  }

  // ---------------------------------------------------------------- quoting client text

  const EXCERPT_LENGTH: nat := 40

  function Printable(c: char): char {
    if 0x20 <= c as int < 0x7F then c else '?'
  }

  /** Client text made safe to quote: at most `max` characters, then an ellipsis. */
  function Excerpt(text: string, max: nat := EXCERPT_LENGTH): (r: string)
    ensures |r| <= max + 3
    ensures forall c | c in r :: 0x20 <= c as int < 0x7F
  {
    var shown := if |text| < max then |text| else max;
    seq(shown, i requires 0 <= i < shown => Printable(text[i])) + (if |text| > max then "..." else "")
  }

  /**
   Short printable text is quoted as it is; long text is cut and marked; any other character becomes a question mark.
   */
  lemma ExcerptKeeps(text: string, max: nat)
    ensures var cut := |text| > max; var kept := if cut then max else |text|;
            && |Excerpt(text, max)| == kept + (if cut then 3 else 0)
            && (cut ==> Excerpt(text, max)[kept..] == "...")
            && forall i | 0 <= i < kept ::
                 Excerpt(text, max)[i] == if ' ' <= text[i] <= '~' then text[i] else '?'
    ensures |text| <= max && (forall i | 0 <= i < |text| :: ' ' <= text[i] <= '~') ==> Excerpt(text, max) == text
    ensures Excerpt(text) == Excerpt(text, 40)
  {
  }

  method ExcerptLoop(text: string, max: nat) returns (out: string)
    ensures out == Excerpt(text, max)
  {
    out := "";
    var i := 0;
    while i < |text| && i < max
      invariant i <= |text| && i <= max && |out| == i
      invariant forall j | 0 <= j < i :: out[j] == Printable(text[j])
    {
      out := out + [Printable(text[i])];
      i := i + 1;
    }
    if |text| > max {
      out := out + "...";
    }
  }
}

/** Decimal notation of naturals and integers. */
module Decimal {

  predicate IsDigit(c: char) {
    '0' <= c <= '9'
  }

  predicate AllDigits(s: string) {
    forall i | 0 <= i < |s| :: IsDigit(s[i])
  }

  function DigitValue(c: char): (d: nat)
    requires IsDigit(c)
    ensures d < 10 && "0123456789"[d] == c
  {
    c as int - '0' as int
  }

  function DigitChar(d: nat): (c: char)
    requires d < 10
    ensures IsDigit(c) && DigitValue(c) == d
  {
    '0' + d as char
  }

  /** std::to_string of an unsigned value. */
  function OfNat(n: nat): (s: string)
    ensures s != "" && AllDigits(s)
  {
    if n < 10 then [DigitChar(n)] else OfNat(n / 10) + [DigitChar(n % 10)]
  }

  /** std::to_string of a signed value. */
  function OfInt(n: int): (s: string)
    ensures s != ""
  {
    if n < 0 then "-" + OfNat(-n) else OfNat(n)
  }

  /** The number a digit string denotes, of any length and with any leading zeros. */
  function Value(s: string): nat
    requires AllDigits(s)
  {
    if s == "" then 0 else 10 * Value(s[..|s| - 1]) + DigitValue(s[|s| - 1])
  }

  lemma {:induction false} ValueInvertsOfNat(n: nat)
    ensures Value(OfNat(n)) == n
  {
    if n >= 10 {
      ValueInvertsOfNat(n / 10);
      assert OfNat(n)[..|OfNat(n)| - 1] == OfNat(n / 10);
    }
  }

  /** The value is positional: what stands before is worth ten for every digit that follows. */
  lemma {:induction false} ValueJoin(a: string, b: string)
    requires AllDigits(a) && AllDigits(b)
    ensures AllDigits(a + b) && Value(a + b) == Value(a) * Pow10(|b|) + Value(b)
    ensures |b| == 1 ==> Value(b) < 10 && b == ["0123456789"[Value(b)]]
    decreases |b|
  {
    hide Pow10;
    if b == "" {
      assert a + b == a;
      Pow10Is(0);
    } else {
      var n := |b| - 1;
      ValueJoin(a, b[..n]);
      assert (a + b)[..|a + b| - 1] == a + b[..n];
      Pow10Is(n);
      TenTimes(Value(a), Pow10(n));
      assert b[..0] == "";
    }
  }

  lemma Pow10Is(n: nat)
    ensures Pow10(0) == 1 && Pow10(n + 1) == 10 * Pow10(n)
  {
  }

  lemma TenTimes(x: nat, p: nat)
    ensures x * (10 * p) == 10 * (x * p)
  {
  }

  /** `text` is `n` in decimal digits, without a needless zero in front. */
  predicate IsNumeral(text: string, n: nat) {
    text != "" && AllDigits(text) && Value(text) == n && (text[0] == '0' ==> text == "0")
  }

  /** `text` is the decimal notation of `v`. */
  predicate IsDecimal(text: string, v: int) {
    if v < 0 then text != "" && text[0] == '-' && IsNumeral(text[1..], -v) else IsNumeral(text, v)
  }

  /** Numbers are printed without a needless zero, and in no other way. */
  lemma NumeralIff(text: string, n: nat)
    ensures IsNumeral(text, n) <==> text == OfNat(n)
  {
    hide IsNumeral, OfNat;
    PrintedIsNumeral(n);
    if IsNumeral(text, n) {
      NumeralIsPrinted(text, n);
    }
  }

  lemma {:induction false} PrintedIsNumeral(n: nat)
    ensures IsNumeral(OfNat(n), n) && (n > 0 ==> OfNat(n)[0] != '0')
  {
    ValueInvertsOfNat(n);
    if n >= 10 {
      PrintedIsNumeral(n / 10);
      assert OfNat(n)[0] == OfNat(n / 10)[0];
    }
  }

  lemma {:induction false} NumeralIsPrinted(text: string, n: nat)
    requires IsNumeral(text, n)
    ensures text == OfNat(n)
    decreases |text|
  {
    var last := |text| - 1;
    assert text == text[..last] + [text[last]];
    if last == 0 {
      assert text[..0] == "";
      OneDigit(text[0]);
    } else {
      FrontIsPositive(text[..last]);
      NumeralIsPrinted(text[..last], n / 10);
    }
  }

  lemma OneDigit(c: char)
    requires IsDigit(c)
    ensures OfNat(DigitValue(c)) == [c]
  {
  }

  lemma {:induction false} FrontIsPositive(text: string)
    requires text != "" && AllDigits(text) && text[0] != '0'
    ensures Value(text) >= 1
    decreases |text|
  {
    if |text| > 1 {
      FrontIsPositive(text[..|text| - 1]);
    } else {
      assert text[..0] == "";
    }
  }

  lemma DecimalIff(text: string, v: int)
    ensures IsDecimal(text, v) <==> text == OfInt(v)
  {
    hide OfNat, Value;
    if v < 0 {
      NumeralIff(if text == "" then "" else text[1..], -v);
      assert text != "" && text[0] == '-' ==> text == "-" + text[1..];
      assert OfInt(v)[1..] == OfNat(-v);
    } else {
      NumeralIff(text, v);
    }
  }

  /** A number below 10^k prints in at most k digits. */
  lemma {:induction false} OfNatLength(n: nat, k: nat, bound: nat)
    requires k > 0 && bound == Pow10(k) && n < bound
    ensures |OfNat(n)| <= k
  {
    if n >= 10 {
      assert k > 1;
      OfNatLength(n / 10, k - 1, Pow10(k - 1));
    }
  }

  lemma {:induction false} ValueBelow(text: string)
    requires AllDigits(text)
    ensures Value(text) < Pow10(|text|)
  {
    if text != "" {
      ValueBelow(text[..|text| - 1]);
    }
  }

  lemma {:induction false} Pow10Grows(a: nat, b: nat)
    requires a <= b
    ensures Pow10(a) <= Pow10(b)
    decreases b
  {
    if a < b {
      Pow10Grows(a, b - 1);
    }
  }

  function Pow10(k: nat): (p: nat)
    ensures p > 0
  {
    if k == 0 then 1 else 10 * Pow10(k - 1)
  }

  /** Counters are 64-bit, so they print in at most twenty digits. */
  const COUNTER_LIMIT: nat := 100_000_000_000_000_000_000

  lemma CounterDigits(n: nat)
    requires n < COUNTER_LIMIT
    ensures |OfNat(n)| <= 20
  {
    assert Pow10(10) == 10_000_000_000 by { assert Pow10(5) == 100_000; }
    assert Pow10(15) == 1_000_000_000_000_000;
    assert Pow10(20) == COUNTER_LIMIT;
    OfNatLength(n, 20, COUNTER_LIMIT);
  }
}
