/** Overflow-checked 64-bit arithmetic (src/calculator.cpp). */
module Calculator {
  import opened Text
  import opened Decimal

  const INT64_MIN: int := -0x8000_0000_0000_0000
  const INT64_MAX: int := 0x7FFF_FFFF_FFFF_FFFF
  const TWO_TO_THE_64: int := 0x1_0000_0000_0000_0000

  predicate InRange(x: int) {
    INT64_MIN <= x <= INT64_MAX
  }

  /** The values of a 64-bit integer. */
  lemma RangeIff(x: int)
    ensures InRange(x) <==> -9_223_372_036_854_775_808 <= x <= 9_223_372_036_854_775_807
  {
  }

  // ---------------------------------------------------------------- operands

  datatype IntError = IsEmpty | NotAnInteger | OutOfRange

  predicate IsInteger(text: string) {
    if text != "" && text[0] == '-' then |text| > 1 && AllDigits(text[1..]) else text != "" && AllDigits(text)
  }

  function IntegerValue(text: string): int
    requires IsInteger(text)
  {
    if text[0] == '-' then -(Value(text[1..]) as int) else Value(text)
  }

  /** Accepts exactly `-?[0-9]+` that fits in 64 bits. */
  function ParseInt64(text: string): Result<int, IntError> {
    if text == "" then Err(IsEmpty)
    else if !IsInteger(text) then Err(NotAnInteger)
    else if !InRange(IntegerValue(text)) then Err(OutOfRange)
    else Ok(IntegerValue(text))
  }

  method ParseInt64Loop(text: string) returns (r: Result<int, IntError>)
    ensures r == ParseInt64(text)
  {
    if text == "" {
      return Err(IsEmpty);
    }
    var digitsStart := if text[0] == '-' then 1 else 0;
    if digitsStart == |text| {
      return Err(NotAnInteger);
    }
    var i := digitsStart;
    while i < |text|
      invariant digitsStart <= i <= |text|
      invariant forall k | digitsStart <= k < i :: IsDigit(text[k])
    {
      if text[i] < '0' || text[i] > '9' {
        assert text[0] == '-' ==> text[1..][i - 1] == text[i];
        return Err(NotAnInteger);
      }
      i := i + 1;
    }
    // The grammar is checked, so the conversion can only fail on range.
    assert IsInteger(text);
    var value := IntegerValue(text);
    r := if InRange(value) then Ok(value) else Err(OutOfRange);
  }

  lemma IntegerValueInverts(x: int)
    ensures IsInteger(OfInt(x)) && IntegerValue(OfInt(x)) == x
  {
    var magnitude := if x < 0 then -x else x;
    ValueInvertsOfNat(magnitude);
    hide OfNat, Value;
    var text := OfNat(magnitude);
    assert IsDigit(text[0]);
    assert ("-" + text)[1..] == text;
  }

  /** Reading inverts decimal printing. */
  lemma ParseInverts(x: int)
    requires InRange(x)
    ensures ParseInt64(OfInt(x)) == Ok(x)
  {
    hide OfInt, IsInteger, IntegerValue;
    IntegerValueInverts(x);
  }

  /** `text` is a run of digits, perhaps after a minus sign, that denotes `v`. */
  ghost predicate Denotes(text: string, digits: string, v: int) {
    && digits != "" && AllDigits(digits)
    && ((text == digits && v == Value(digits)) || (text == "-" + digits && v == -(Value(digits) as int)))
  }

  lemma DenotesIff(text: string, v: int)
    ensures IsInteger(text) && IntegerValue(text) == v <==> exists digits: string :: Denotes(text, digits, v)
  {
    hide Value;
    if IsInteger(text) {
      var digits := if text[0] == '-' then text[1..] else text;
      assert text[0] == '-' ==> text == "-" + digits;
      assert IntegerValue(text) == v ==> Denotes(text, digits, v);
    }
    forall digits: string | Denotes(text, digits, v) ensures IsInteger(text) && IntegerValue(text) == v {
      assert text == digits ==> IsDigit(text[0]);
      assert text == "-" + digits ==> text[1..] == digits;
    }
  }

  /** A text is read exactly when it denotes a 64-bit integer; one that denotes another is out of range, no other is. */
  lemma ParseInt64Iff(text: string, v: int)
    ensures ParseInt64(text) == Ok(v) <==> InRange(v) && exists digits: string :: Denotes(text, digits, v)
    ensures ParseInt64(text) == Err(OutOfRange) <==>
            exists w: int, digits: string :: Denotes(text, digits, w) && !InRange(w)
    ensures ParseInt64(text) == Err(IsEmpty) <==> text == ""
  {
    hide IntegerValue, IsInteger, Denotes, InRange;
    DenotesIff(text, v);
    if IsInteger(text) {
      DenotesIff(text, IntegerValue(text));
    }
    forall w: int, digits: string | Denotes(text, digits, w) ensures IsInteger(text) && IntegerValue(text) == w {
      DenotesIff(text, w);
    }
    if text == "" {
      EmptyIsNone();
    }
  }

  lemma EmptyIsNone()
    ensures !IsInteger("")
  {
  }

  // ---------------------------------------------------------------- operations

  datatype Operation = Add | Subtract | Multiply | Divide

  function OperationFromPath(path: string): Option<Operation> {
    if path == "/add" then Some(Add)
    else if path == "/sub" then Some(Subtract)
    else if path == "/mul" then Some(Multiply)
    else if path == "/div" then Some(Divide)
    else None
  }

  /** Which path stands for which operation. */
  lemma OperationIff(path: string, op: Operation)
    ensures OperationFromPath(path) == Some(op) <==>
            match op
            case Add => path == "/add"
            case Subtract => path == "/sub"
            case Multiply => path == "/mul"
            case Divide => path == "/div"
  {
  }

  datatype CalcError = DivisionByZero | Overflow

  /** Two's-complement wrap-around. */
  function Wrap(x: int): int {
    (x - INT64_MIN) % TWO_TO_THE_64 + INT64_MIN
  }

  /** The checked builtins: the wrapped result, and whether it differs from the exact one. */
  function Checked(exact: int): Result<int, CalcError> {
    var value := Wrap(exact);
    if value != exact then Err(Overflow) else Ok(value)
  }

  function Magnitude(x: int): nat {
    if x < 0 then -x else x
  }

  /** The machine's division: magnitudes divided, then the sign. */
  function TruncatingDivide(a: int, b: int): int
    requires b != 0
  {
    var q: int := Magnitude(a) / Magnitude(b);
    if (a < 0) != (b < 0) then -q else q
  }

  function Calculate(op: Operation, a: int, b: int): Result<int, CalcError> {
    match op
    case Add => Checked(a + b)
    case Subtract => Checked(a - b)
    case Multiply => Checked(a * b)
    case Divide =>
      if b == 0 then Err(DivisionByZero)
      else if a == INT64_MIN && b == -1 then Err(Overflow)
      else Ok(TruncatingDivide(a, b))
  }

  /** `q` is the quotient whose remainder is smaller than the divisor and has the dividend's sign. */
  ghost predicate IsQuotient(a: int, b: int, q: int) {
    var r := a - q * b;
    Magnitude(r) < Magnitude(b) && (r == 0 || (r < 0 <==> a < 0))
  }

  /** The mathematical meaning of an operation, with division toward zero. */
  ghost predicate Means(op: Operation, a: int, b: int, v: int) {
    match op
    case Add => v == a + b
    case Subtract => v == a - b
    case Multiply => v == a * b
    case Divide => b != 0 && IsQuotient(a, b, v)
  }

  lemma WrapExactIff(x: int)
    ensures Wrap(x) == x <==> InRange(x)
  {
  }

  lemma MulMono(x: nat, y: nat, n: nat)
    requires x <= y
    ensures x * n <= y * n
  {
  }

  lemma DivModNat(a: nat, b: nat)
    requires b > 0
    ensures a == (a / b) * b + a % b && a % b < b
    ensures a / b <= a && (a > 0 && b > 1 ==> a / b < a)
  {
    var q := a / b;
    MulMono(1, b, q);
    if b > 1 {
      MulMono(2, b, q);
    }
    assert q * b == b * q;
  }

  lemma TruncatedRemainder(a: int, b: int)
    requires b != 0
    ensures a - TruncatingDivide(a, b) * b
         == if a < 0 then -((Magnitude(a) % Magnitude(b)) as int) else Magnitude(a) % Magnitude(b)
  {
  }

  lemma TruncatingDivideIsQuotient(a: int, b: int)
    requires b != 0
    ensures IsQuotient(a, b, TruncatingDivide(a, b))
    ensures Magnitude(TruncatingDivide(a, b)) <= Magnitude(a)
    ensures Magnitude(a) > 0 && Magnitude(b) > 1 ==> Magnitude(TruncatingDivide(a, b)) < Magnitude(a)
  {
    hide TruncatingDivide;
    TruncatedRemainder(a, b);
    TruncatedMagnitude(a, b);
    RemainderFits(a, b, a - TruncatingDivide(a, b) * b, Magnitude(a) % Magnitude(b));
  }

  lemma RemainderFits(a: int, b: int, r: int, rest: int)
    requires b != 0 && rest == Magnitude(a) % Magnitude(b) && r == if a < 0 then -rest else rest
    ensures Magnitude(r) < Magnitude(b) && (r == 0 || (r < 0 <==> a < 0))
  {
  }

  lemma TruncatedMagnitude(a: int, b: int)
    requires b != 0
    ensures Magnitude(TruncatingDivide(a, b)) <= Magnitude(a)
    ensures Magnitude(a) > 0 && Magnitude(b) > 1 ==> Magnitude(TruncatingDivide(a, b)) < Magnitude(a)
  {
    DivModNat(Magnitude(a), Magnitude(b));
  }

  lemma QuotientUnique(a: int, b: int, p: int, q: int)
    requires b != 0 && IsQuotient(a, b, p) && IsQuotient(a, b, q)
    ensures p == q
  {
    RemaindersClose(a, b, p * b, q * b);
    Distribute(p, q, b);
    MultipleAtLeast(p - q, b);
  }

  lemma Distribute(p: int, q: int, b: int)
    ensures (p - q) * b == p * b - q * b
  {
  }

  lemma RemaindersClose(a: int, b: int, x: int, y: int)
    requires Magnitude(a - x) < Magnitude(b) && (a - x == 0 || (a - x < 0 <==> a < 0))
    requires Magnitude(a - y) < Magnitude(b) && (a - y == 0 || (a - y < 0 <==> a < 0))
    ensures Magnitude(x - y) < Magnitude(b)
  {
  }

  /** A multiple smaller than its factor is zero. */
  lemma MultipleAtLeast(d: int, b: int)
    requires b != 0
    ensures d != 0 ==> Magnitude(d * b) >= Magnitude(b)
  {
  }

  /** The calculator answers with the exact result if and only if there is one and it fits. */
  lemma CalculateIff(op: Operation, a: int, b: int, v: int)
    requires InRange(a) && InRange(b)
    ensures Calculate(op, a, b) == Ok(v) <==> Means(op, a, b, v) && InRange(v)
  {
    match op
    case Add => WrapExactIff(a + b);
    case Subtract => WrapExactIff(a - b);
    case Multiply => WrapExactIff(a * b);
    case Divide =>
      if b != 0 {
        hide TruncatingDivide, IsQuotient;
        TruncatingDivideIsQuotient(a, b);
        var q := TruncatingDivide(a, b);
        if IsQuotient(a, b, v) {
          QuotientUnique(a, b, v, q);
        }
        DivisionOverflow(a, b);
      }
  }

  /** Each way a calculation can fail: nothing to divide by, or an exact result that does not fit. */
  lemma CalculateErrors(op: Operation, a: int, b: int)
    requires InRange(a) && InRange(b)
    ensures Calculate(op, a, b) == Err(DivisionByZero) <==> op == Divide && b == 0
    ensures Calculate(op, a, b) == Err(Overflow) <==> exists v: int :: Means(op, a, b, v) && !InRange(v)
  {
    match op
    case Add => WrapExactIff(a + b);
      assert Means(op, a, b, a + b);
    case Subtract => WrapExactIff(a - b);
      assert Means(op, a, b, a - b);
    case Multiply => WrapExactIff(a * b);
      assert Means(op, a, b, a * b);
    case Divide =>
      if b != 0 {
        hide TruncatingDivide, IsQuotient;
        var q := TruncatingDivide(a, b);
        TruncatingDivideIsQuotient(a, b);
        DivisionOverflow(a, b);
        assert Means(op, a, b, q);
        forall v: int | Means(op, a, b, v) ensures v == q {
          QuotientUnique(a, b, v, q);
        }
      }
  }

  /** The one division that does not fit. */
  lemma DivisionOverflow(a: int, b: int)
    requires InRange(a) && InRange(b) && b != 0
    ensures InRange(TruncatingDivide(a, b)) <==> !(a == INT64_MIN && b == -1)
  {
  }
}
