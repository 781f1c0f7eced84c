/** JavaScript numbers as the dashboard meets them: the result of unary `+`
    or `Number(...)` on a CSV cell, and the comparisons and subtraction applied
    to it. Finite values are exact reals (no IEEE-754 rounding). The
    conversion follows StringToNumber, section 7.1.4.1.1 of ECMA-262: surrounding
    white space is ignored, the empty string is 0, and any text that is not a
    StrNumericLiteral is NaN. */
module JsNumber {
  import opened Wrappers
  import opened JsString

  datatype Num = NaN | NegInf | PosInf | Finite(value: real)

  /** The order of the extended reals, for two non-NaN numbers. */
  predicate ExtLe(a: Num, b: Num)
    requires !a.NaN? && !b.NaN?
  {
    match (a, b)
    case (NegInf, _) => true
    case (_, PosInf) => true
    case (Finite(x), Finite(y)) => x <= y
    case _ => false
  }

  /** JavaScript `a <= b`: false whenever either side is NaN. */
  predicate Le(a: Num, b: Num) {
    !a.NaN? && !b.NaN? && ExtLe(a, b)
  }

  /** JavaScript `a >= b`. */
  predicate Ge(a: Num, b: Num) {
    Le(b, a)
  }

  /** JavaScript `a > b`. */
  predicate Gt(a: Num, b: Num) {
    Le(b, a) && a != b
  }

  /** A strict total order on all numbers (NaN first) used to sort numeric
      option lists, which never contain NaN. */
  predicate NumLt(a: Num, b: Num) {
    if a.NaN? then !b.NaN?
    else if b.NaN? then false
    else ExtLe(a, b) && a != b
  }

  /** JavaScript `a - b`. */
  function Sub(a: Num, b: Num): (r: Num)
    ensures a.Finite? && b.Finite? ==> r == Finite(a.value - b.value)
    ensures a.NaN? || b.NaN? ==> r.NaN?
  {
    match (a, b)
    case (Finite(x), Finite(y)) => Finite(x - y)
    case (NaN, _) => NaN
    case (_, NaN) => NaN
    case (PosInf, PosInf) => NaN
    case (NegInf, NegInf) => NaN
    case (PosInf, _) => PosInf
    case (NegInf, _) => NegInf
    case (_, PosInf) => NegInf
    case (_, NegInf) => PosInf
  }

  function Negate(a: Num): Num {
    match a
    case NaN => NaN
    case PosInf => NegInf
    case NegInf => PosInf
    case Finite(x) => Finite(-x)
  }

  predicate IsDigit(c: char) {
    '0' <= c <= '9'
  }

  predicate AllDigits(s: string) {
    forall i :: 0 <= i < |s| ==> IsDigit(s[i])
  }

  function Pow(base: nat, n: nat): (r: nat)
    ensures base > 0 ==> r > 0
  {
    if n == 0 then 1 else base * Pow(base, n - 1)
  }

  /** Value of a digit in the given radix (2, 8, 10 or 16), if it is one. */
  function DigitValue(c: char, radix: nat): Option<nat> {
    var v: int :=
      if '0' <= c <= '9' then c as int - '0' as int
      else if 'a' <= c <= 'f' then c as int - 'a' as int + 10
      else if 'A' <= c <= 'F' then c as int - 'A' as int + 10
      else -1;
    if 0 <= v < radix then Some(v) else None
  }

  /** The value of a non-empty digit string in the given radix; `None` when a
      character is not a digit of that radix. */
  function RadixValue(s: string, radix: nat): Option<nat>
    requires |s| > 0
  {
    var last := DigitValue(s[|s| - 1], radix);
    if last.None? then None
    else if |s| == 1 then last
    else
      match RadixValue(s[..|s| - 1], radix)
      case None => None
      case Some(hi) => Some(hi * radix + last.value)
  }

  /** Value of a string of decimal digits (`0` for the empty string). */
  function DecimalValue(s: string): nat
    requires AllDigits(s)
  {
    if |s| == 0 then 0
    else DecimalValue(s[..|s| - 1]) * 10 + (s[|s| - 1] as int - '0' as int)
  }

  /** `ExponentPart` after the `e`: an optional sign and at least one digit. */
  function ParseExponent(e: string): Option<int> {
    var negative := |e| > 0 && e[0] == '-';
    var digits := if |e| > 0 && (e[0] == '+' || e[0] == '-') then e[1..] else e;
    if |digits| == 0 || !AllDigits(digits) then None
    else if negative then Some(-(DecimalValue(digits) as int))
    else Some(DecimalValue(digits))
  }

  function IndexOfExponentMark(s: string): (i: nat)
    ensures i <= |s|
    ensures i < |s| ==> s[i] == 'e' || s[i] == 'E'
    ensures forall j :: 0 <= j < i ==> s[j] != 'e' && s[j] != 'E'
  {
    if |s| == 0 then 0
    else if s[0] == 'e' || s[0] == 'E' then 0
    else 1 + IndexOfExponentMark(s[1..])
  }

  function Scale(x: real, e: int): real {
    if e >= 0 then x * Pow(10, e) as real else x / Pow(10, -e) as real
  }

  /** `StrUnsignedDecimalLiteral` without `Infinity`: digits with an optional
      fraction (at least one digit overall) and an optional exponent. */
  function ParseUnsignedDecimal(u: string): Option<real> {
    var ei := IndexOfExponentMark(u);
    var mantissa := u[..ei];
    var exponent := if ei == |u| then Some(0) else ParseExponent(u[ei + 1..]);
    var di := IndexOf(mantissa, '.');
    var intPart := mantissa[..di];
    var fracPart := if di < |mantissa| then mantissa[di + 1..] else "";
    if exponent.None? || !AllDigits(intPart) || !AllDigits(fracPart) || |intPart| + |fracPart| == 0 then None
    else
      var digits := intPart + fracPart;
      Some(Scale(DecimalValue(digits) as real / Pow(10, |fracPart|) as real, exponent.value))
  }

  function ParseUnsigned(u: string): Num {
    if u == "Infinity" then PosInf
    else
      match ParseUnsignedDecimal(u)
      case None => NaN
      case Some(v) => Finite(v)
  }

  /** `StrNumericLiteral` on a trimmed, non-empty text: a `0x`/`0o`/`0b`
      integer (no sign allowed) or a signed decimal literal. */
  function ParseNumericLiteral(t: string): Num
    requires |t| > 0
  {
    var radix :=
      if |t| >= 3 && t[0] == '0' && (t[1] == 'x' || t[1] == 'X') then 16
      else if |t| >= 3 && t[0] == '0' && (t[1] == 'o' || t[1] == 'O') then 8
      else if |t| >= 3 && t[0] == '0' && (t[1] == 'b' || t[1] == 'B') then 2
      else 10;
    if radix != 10 then
      match RadixValue(t[2..], radix)
      case None => NaN
      case Some(v) => Finite(v as real)
    else if t[0] == '+' then ParseUnsigned(t[1..])
    else if t[0] == '-' then Negate(ParseUnsigned(t[1..]))
    else ParseUnsigned(t)
  }

  /** Unary `+s` / `Number(s)` on a string. */
  function ToNumber(s: string): (n: Num)
    ensures AllSpace(s) ==> n == Finite(0.0)
  {
    var t := Trim(s);
    if |t| == 0 then Finite(0.0)
    else
      TrimKeepsNonSpace(s, t);
      ParseNumericLiteral(t)
  }

  /** Only an all-space text trims to nothing. */
  lemma TrimKeepsNonSpace(s: string, t: string)
    requires t == Trim(s) && |t| > 0
    ensures !AllSpace(s)
  {
    var k :| OccursAt(s, t, k) && AllSpace(s[..k]) && AllSpace(s[k + |t|..]);
    assert s[k] == t[0];
  }

  /** Unary `+` on a possibly absent field: `+undefined` is NaN. */
  function ToNumberOpt(v: Option<string>): (n: Num)
    ensures v.None? ==> n.NaN?
  {
    match v
    case None => NaN
    case Some(s) => ToNumber(s)
  }

  /** Decimal rendering of a natural number (no leading zeros). */
  function NatToString(n: nat): (s: string)
    ensures |s| > 0 && AllDigits(s)
    ensures |s| > 1 ==> s[0] != '0'
  {
    if n < 10 then [(n + '0' as int) as char]
    else NatToString(n / 10) + [(n % 10 + '0' as int) as char]
  }

  lemma {:induction false} DecimalValueOfNatToString(n: nat)
    ensures DecimalValue(NatToString(n)) == n
  {
    if n >= 10 {
      DecimalValueOfNatToString(n / 10);
      var s := NatToString(n);
      assert s[..|s| - 1] == NatToString(n / 10);
    }
  }

  /** Printing a natural number and reading it back with unary `+` gives
      the number. */
  lemma NatToStringRoundTrip(n: nat)
    ensures ToNumber(NatToString(n)) == Finite(n as real)
  {
    var s := NatToString(n);
    DigitsParse(s);
    DecimalValueOfNatToString(n);
    NoSpaceInDigits(s);
    TrimNoSpace(s);
    assert ToNumber(s) == ParseNumericLiteral(s);
  }

  /** A leading minus sign negates. */
  lemma NegativeNatRoundTrip(n: nat)
    ensures ToNumber("-" + NatToString(n)) == Finite(-(n as real))
  {
    var d := NatToString(n);
    var s := "-" + d;
    DigitsParseUnsigned(d);
    assert d != "Infinity" by { assert IsDigit(d[0]); }
    assert ParseUnsigned(d) == Finite(DecimalValue(d) as real);
    DecimalValueOfNatToString(n);
    NoSpaceInDigits(d);
    assert s[|s| - 1] == d[|d| - 1];
    TrimNoSpace(s);
    assert s[1..] == d;
    assert ParseNumericLiteral(s) == Negate(ParseUnsigned(d));
    assert ToNumber(s) == ParseNumericLiteral(s);
  }

  /** A digit string without a superfluous leading zero is parsed as a
      decimal integer. */
  lemma DigitsParse(s: string)
    requires |s| > 0 && AllDigits(s)
    requires |s| > 1 ==> s[0] != '0'
    ensures ParseNumericLiteral(s) == Finite(DecimalValue(s) as real)
  {
    DigitsParseUnsigned(s);
    assert s != "Infinity" by { assert IsDigit(s[0]); }
    assert ParseUnsigned(s) == Finite(DecimalValue(s) as real);
    assert IsDigit(s[0]);
  }

  lemma DigitsParseUnsigned(s: string)
    requires |s| > 0 && AllDigits(s)
    ensures ParseUnsignedDecimal(s) == Some(DecimalValue(s) as real)
  {
    var ei := IndexOfExponentMark(s);
    assert ei == |s| by { NoExponentMark(s); }
    var mantissa := s[..ei];
    assert mantissa == s;
    var di := IndexOf(mantissa, '.');
    assert di == |s| by { NotInDigits(s, '.'); IndexOfAbsent(s, '.'); }
    var intPart := mantissa[..di];
    assert intPart == s;
    var fracPart: string := "";
    assert intPart + fracPart == s;
    var x := DecimalValue(s) as real;
    assert Pow(10, 0) == 1;
    assert Scale(x / Pow(10, 0) as real, 0) == x;
  }

  /** Text whose first non-blank character cannot start a numeric literal
      (such as `"Unknown"`) converts to NaN. */
  lemma NonNumericTextIsNaN(s: string)
    requires |Trim(s)| > 0
    requires var c := Trim(s)[0]; !IsDigit(c) && c != '+' && c != '-' && c != '.' && c != 'I'
    ensures ToNumber(s).NaN?
  {
    var t := Trim(s);
    var ei := IndexOfExponentMark(t);
    var mantissa := t[..ei];
    if ei > 0 {
      var di := IndexOf(mantissa, '.');
      assert di > 0;
      assert mantissa[..di][0] == t[0];
    }
  }

  lemma NoSpaceInDigits(s: string)
    requires AllDigits(s)
    ensures forall i :: 0 <= i < |s| ==> !IsJsSpace(s[i])
  {
  }

  lemma NotInDigits(s: string, c: char)
    requires AllDigits(s) && !IsDigit(c)
    ensures c !in s
  {
  }

  lemma NoExponentMark(s: string)
    requires AllDigits(s)
    ensures IndexOfExponentMark(s) == |s|
  {
    if |s| > 0 {
      NoExponentMark(s[1..]);
    }
  }
}
