/**
 Decimal text for byte counts: Python's `str(n)` for a non-negative integer
 and Python's `int(text)` (base 10) for the text the receiver gets back.
 */
module Decimal {
  import opened Wrappers

  predicate IsDigit(c: char) {
    '0' <= c <= '9'
  }

  predicate AllDigits(s: string) {
    forall i :: 0 <= i < |s| ==> IsDigit(s[i])
  }

  function DigitValue(c: char): nat
    requires IsDigit(c)
  {
    c as int - '0' as int
  }

  function DigitChar(d: nat): (c: char)
    requires d < 10
    ensures IsDigit(c) && DigitValue(c) == d
  {
    ('0' as int + d) as char
  }

  /** The number a string of decimal digits denotes, most significant digit first. */
  function DigitsValue(ds: string): nat
    requires AllDigits(ds)
  {
    if |ds| == 0 then 0 else DigitsValue(ds[..|ds| - 1]) * 10 + DigitValue(ds[|ds| - 1])
  }

  /** Python's `str(n)` for `n >= 0`: the shortest decimal spelling of `n`. */
  function FromNat(n: nat): (s: string)
    ensures |s| >= 1 && AllDigits(s)
    ensures s[0] == '0' ==> s == "0"
    ensures DigitsValue(s) == n
  {
    if n < 10 then [DigitChar(n)]
    else
      var s := FromNat(n / 10) + [DigitChar(n % 10)];
      assert s[..|s| - 1] == FromNat(n / 10);
      s
  }

  /** The ASCII characters `int()` skips around a number: space and the
      controls tab, line feed, vertical tab, form feed and carriage return.
      The information separators 0x1C through 0x1F, which `str.isspace`
      accepts, are not among them. */
  predicate IsSpace(c: char) {
    c == ' ' || '\t' <= c <= '\r'
  }

  /** `s` with its leading white space removed. */
  function TrimLeft(s: string): (t: string)
    ensures |t| <= |s| && t == s[|s| - |t|..]
    ensures forall i :: 0 <= i < |s| - |t| ==> IsSpace(s[i])
    ensures |t| > 0 ==> !IsSpace(t[0])
  {
    if |s| > 0 && IsSpace(s[0]) then TrimLeft(s[1..]) else s
  }

  /** `s` with its trailing white space removed. */
  function TrimRight(s: string): (t: string)
    ensures |t| <= |s| && t == s[..|t|]
    ensures forall i :: |t| <= i < |s| ==> IsSpace(s[i])
    ensures |t| > 0 ==> !IsSpace(t[|t| - 1])
  {
    if |s| > 0 && IsSpace(s[|s| - 1]) then TrimRight(s[..|s| - 1]) else s
  }

  /** Digits, with single underscores allowed only between two digits. */
  predicate DigitGroups(b: string) {
    && |b| > 0
    && IsDigit(b[0])
    && IsDigit(b[|b| - 1])
    && (forall i :: 0 <= i < |b| ==> IsDigit(b[i]) || b[i] == '_')
    && (forall i :: 0 <= i < |b| - 1 ==> b[i] == '_' ==> b[i + 1] != '_')
  }

  /** The digits of `b`, underscores dropped. */
  function DropUnderscores(b: string): (d: string)
    requires forall i :: 0 <= i < |b| ==> IsDigit(b[i]) || b[i] == '_'
    ensures AllDigits(d) && |d| <= |b|
  {
    if |b| == 0 then ""
    else if b[0] == '_' then DropUnderscores(b[1..])
    else [b[0]] + DropUnderscores(b[1..])
  }

  /** Digit groups read as a number; anything else is refused. */
  function ParseDigits(body: string): (r: Option<int>)
    ensures r.Some? ==> |body| > 0 && IsDigit(body[0]) && r.value >= 0
  {
    if DigitGroups(body) then Some(DigitsValue(DropUnderscores(body))) else None
  }

  /** An optional sign followed by digit groups, the sign applied. */
  function ParseSigned(t: string): Option<int> {
    if |t| > 0 && t[0] == '-' then
      match ParseDigits(t[1..])
      case None => None
      case Some(v) => Some(-v)
    else if |t| > 0 && t[0] == '+' then ParseDigits(t[1..])
    else ParseDigits(t)
  }

  /** Python's `int(text)` in base 10 over ASCII text: optional white space,
      an optional sign, digit groups, optional white space; anything else
      raises, which is `None` here. */
  function ParseInt(text: string): Option<int> {
    ParseSigned(TrimRight(TrimLeft(text)))
  }

  /** `int()` refuses any text without a decimal digit. */
  lemma ParseIntNeedsDigit(text: string)
    ensures ParseInt(text).Some? ==> exists i :: 0 <= i < |text| && IsDigit(text[i])
  {
    var left := TrimLeft(text);
    var t := TrimRight(left);
    if ParseInt(text).Some? {
      var j := if |t| > 0 && (t[0] == '-' || t[0] == '+') then 1 else 0;
      assert IsDigit(t[j]);
      assert t[j] == left[j] == text[|text| - |left| + j];
    }
  }

  lemma {:induction false} DropNoUnderscores(d: string)
    requires AllDigits(d)
    ensures DropUnderscores(d) == d
  {
    if |d| > 0 {
      DropNoUnderscores(d[1..]);
    }
  }

  lemma TrimDigits(s: string)
    requires |s| > 0 && IsDigit(s[0]) && IsDigit(s[|s| - 1])
    ensures TrimRight(TrimLeft(s)) == s
  {
  }

  /** A minus sign directly before plain digits: `int()` accepts the text
      and its value is the negated value of the digits. */
  lemma SignedDigits(s: string)
    requires |s| > 1 && s[0] == '-' && AllDigits(s[1..])
    ensures ParseInt(s) == Some(-(DigitsValue(s[1..]) as int))
  {
    var d := s[1..];
    assert IsDigit(d[|d| - 1]);
    assert TrimLeft(s) == s;
    assert TrimRight(s) == s;
    DropNoUnderscores(d);
    assert DigitGroups(d);
  }

  lemma ParseDigitsFromNat(n: nat)
    ensures ParseDigits(FromNat(n)) == Some(n)
  {
    DropNoUnderscores(FromNat(n));
  }

  /** `int(str(n)) == n`: the receiver reads back the size the sender wrote. */
  lemma ParseFromNat(n: nat)
    ensures ParseInt(FromNat(n)) == Some(n)
  {
    TrimDigits(FromNat(n));
    ParseDigitsFromNat(n);
  }

  lemma SignPrefix(d: string)
    ensures |"-" + d| == |d| + 1 && ("-" + d)[0] == '-' && ("-" + d)[1..] == d
  {
  }

  /** A minus sign in front of a decimal is accepted and negates it: a header
      may declare a negative size. */
  lemma ParseNegative(n: nat)
    ensures ParseInt("-" + FromNat(n)) == Some(0 - n)
  {
    var d := FromNat(n);
    SignPrefix(d);
    SignedDigits("-" + d);
  }

  /** The file separator 0x1C is not white space to `int()`: a size
      preceded by it is refused. */
  lemma LeadingSeparatorRefused()
    ensures ParseInt("\U{1C}5").None?
  {
    var s := "\U{1C}5";
    assert !IsSpace(s[0]) && !IsSpace(s[1]);
    assert TrimLeft(s) == s;
    assert TrimRight(s) == s;
    assert !IsDigit(s[0]);
  }

  /** Likewise the unit separator 0x1F after the digits is refused. */
  lemma TrailingSeparatorRefused()
    ensures ParseInt("5\U{1F}").None?
  {
    var s := "5\U{1F}";
    assert !IsSpace(s[0]) && !IsSpace(s[1]);
    assert TrimLeft(s) == s;
    assert TrimRight(s) == s;
    assert !IsDigit(s[1]);
  }
}
