/** JavaScript number conversions used by the repository: `parseInt(s)` with
    no radix (the controller's `page` / `limit` query parameters) and the
    decimal rendering of a non-negative integer inside a template literal
    (`${Date.now()}` in the upload file names).  Numbers are mathematical
    integers here; a parse result of NaN is `None`. */
module JsNumber {
  import opened Common
  import opened Text

  /** The white space and line terminators `parseInt` skips before the number. */
  predicate IsJsSpace(c: char) {
    c == ' ' || c == '\t' || c == '\n' || c == '\r' || c == '\U{000B}' || c == '\U{000C}'
    || c == '\U{00A0}' || c == '\U{1680}' || ('\U{2000}' <= c <= '\U{200A}')
    || c == '\U{2028}' || c == '\U{2029}' || c == '\U{202F}' || c == '\U{205F}'
    || c == '\U{3000}' || c == '\U{FEFF}'
  }

  function TrimStart(s: string): (r: string)
    ensures |r| <= |s| && r == s[|s| - |r|..]
    ensures r == [] || !IsJsSpace(r[0])
  {
    if |s| > 0 && IsJsSpace(s[0]) then TrimStart(s[1..]) else s
  }

  predicate IsHexDigit(c: char) {
    IsDigit(c) || ('a' <= c <= 'f') || ('A' <= c <= 'F')
  }

  predicate IsRadixDigit(c: char, radix: nat) {
    if radix == 16 then IsHexDigit(c) else IsDigit(c)
  }

  function DigitValue(c: char): nat {
    if IsDigit(c) then c as nat - '0' as nat
    else if 'a' <= c <= 'f' then c as nat - 'a' as nat + 10
    else if 'A' <= c <= 'F' then c as nat - 'A' as nat + 10
    else 0
  }

  /** The longest prefix of s made of digits of the radix. */
  function DigitPrefix(s: string, radix: nat): (r: string)
    ensures |r| <= |s| && r == s[..|r|]
    ensures forall i :: 0 <= i < |r| ==> IsRadixDigit(r[i], radix)
    ensures |r| < |s| ==> !IsRadixDigit(s[|r|], radix)
  {
    if |s| > 0 && IsRadixDigit(s[0], radix) then [s[0]] + DigitPrefix(s[1..], radix) else []
  }

  /** The value of a digit string, most significant digit first. */
  function DigitsValue(ds: string, radix: nat): nat {
    if |ds| == 0 then 0
    else DigitsValue(ds[..|ds| - 1], radix) * radix + DigitValue(ds[|ds| - 1])
  }

  /** The number after the sign: hexadecimal after "0x" / "0X", decimal
      otherwise, up to the first character that is not a digit; NaN when
      there is no digit. */
  function ParseUnsigned(u: string): Option<nat> {
    if |u| >= 2 && u[0] == '0' && (u[1] == 'x' || u[1] == 'X') then
      var ds := DigitPrefix(u[2..], 16);
      if |ds| == 0 then None else Some(DigitsValue(ds, 16))
    else
      var ds := DigitPrefix(u, 10);
      if |ds| == 0 then None else Some(DigitsValue(ds, 10))
  }

  /** `parseInt(s)`: skip leading white space, read an optional sign, then
      the unsigned number. */
  function ParseInt(s: string): Option<int> {
    var t := TrimStart(s);
    var negative := |t| > 0 && t[0] == '-';
    var body := if |t| > 0 && (t[0] == '-' || t[0] == '+') then t[1..] else t;
    match ParseUnsigned(body)
    case None => None
    case Some(v) => Some(if negative then -(v as int) else v as int)
  }

  function DigitChar(d: nat): char
    requires d < 10
  {
    ('0' as nat + d) as char
  }

  /** The decimal rendering of n, as `String(n)` gives it. */
  function Decimal(n: nat): (r: string)
    ensures |r| > 0 && AllDigits(r)
  {
    if n < 10 then [DigitChar(n)] else Decimal(n / 10) + [DigitChar(n % 10)]
  }

  // ---- lemmas ----

  lemma {:induction false} DecimalValue(n: nat)
    ensures DigitsValue(Decimal(n), 10) == n
  {
    var d := Decimal(n);
    if n >= 10 {
      DecimalValue(n / 10);
      assert d[..|d| - 1] == Decimal(n / 10);
    }
  }

  /** Only zero is rendered with a leading '0'. */
  lemma {:induction false} DecimalLeadingDigit(n: nat)
    ensures Decimal(n)[0] == '0' <==> n == 0
  {
    if n >= 10 {
      DecimalLeadingDigit(n / 10);
    }
  }

  /** Reading digits stops where the digits stop. */
  lemma {:induction false} DigitPrefixOfDigits(d: string, t: string)
    requires AllDigits(d)
    requires t == [] || !IsDigit(t[0])
    ensures DigitPrefix(d + t, 10) == d
    decreases |d|
  {
    if |d| > 0 {
      assert (d + t)[1..] == d[1..] + t;
      DigitPrefixOfDigits(d[1..], t);
      assert d == [d[0]] + d[1..];
    } else {
      assert d + t == t;
    }
  }

  lemma {:induction false} ParseUnsignedOfDecimal(n: nat, t: string)
    requires t == [] || (!IsDigit(t[0]) && (n != 0 || (t[0] != 'x' && t[0] != 'X')))
    ensures ParseUnsigned(Decimal(n) + t) == Some(n)
  {
    var s := Decimal(n) + t;
    assert s[0] == Decimal(n)[0];
    DecimalLeadingDigit(n);
    if n == 0 {
      assert Decimal(n) == "0";
      assert |s| >= 2 ==> s[1] == t[0];
    }
    DigitPrefixOfDigits(Decimal(n), t);
    DecimalValue(n);
  }

  /** parseInt reads back a rendered number followed by anything that does
      not extend it: `parseInt("3abc")` is 3.  After a lone "0" an 'x' or 'X'
      would turn the text into a hexadecimal literal, so it is excluded. */
  lemma {:induction false} ParseIntOfDecimal(n: nat, t: string)
    requires t == [] || (!IsDigit(t[0]) && (n != 0 || (t[0] != 'x' && t[0] != 'X')))
    ensures ParseInt(Decimal(n) + t) == Some(n as int)
  {
    var s := Decimal(n) + t;
    assert s[0] == Decimal(n)[0];
    ParseIntOfDigit(s);
    ParseUnsignedOfDecimal(n, t);
  }

  /** Text starting with a digit has no space or sign to skip. */
  lemma ParseIntOfDigit(s: string)
    requires |s| > 0 && IsDigit(s[0])
    ensures ParseUnsigned(s).None? ==> ParseInt(s) == None
    ensures ParseUnsigned(s).Some? ==> ParseInt(s) == Some(ParseUnsigned(s).value as int)
  {
    assert !IsJsSpace(s[0]);
    assert TrimStart(s) == s;
  }

  /** The same with a minus sign: negative numbers come back unchanged. */
  lemma {:induction false} ParseIntOfNegativeDecimal(n: nat, t: string)
    requires t == [] || (!IsDigit(t[0]) && (n != 0 || (t[0] != 'x' && t[0] != 'X')))
    ensures ParseInt("-" + Decimal(n) + t) == Some(-(n as int))
  {
    var s := "-" + Decimal(n) + t;
    assert TrimStart(s) == s;
    assert s[1..] == Decimal(n) + t;
    ParseUnsignedOfDecimal(n, t);
  }

  /** Text that does not start (after white space and a sign) with a digit
      is NaN. */
  lemma {:induction false} ParseIntNaN(s: string)
    requires s == [] || (!IsDigit(s[0]) && !IsJsSpace(s[0]) && s[0] != '-' && s[0] != '+')
    ensures ParseInt(s) == None
  {
  }
}
