/** Decimal text for the delimited v2.0 records: `operator<<` on an int,
    `std::fixed << std::setprecision(2)` on a price, `std::stoi`, and the
    decimal prefix that `std::stod` and `>>` on a double accept. Prices are
    integer cents throughout; exponent notation and binary floating point are
    not modelled. */
module Decimal {
  import opened Common

  predicate IsDigit(c: char) { '0' <= c <= '9' }

  /** The characters isspace accepts in the C locale. */
  predicate IsSpace(c: char) {
    c == ' ' || c == '\t' || c == '\n' || c == '\r' || c as int == 11 || c as int == 12
  }

  predicate AllDigits(s: string) { forall i :: 0 <= i < |s| ==> IsDigit(s[i]) }

  function DigitChar(d: int): (c: char)
    requires 0 <= d < 10
    ensures IsDigit(c)
  {
    (48 + d) as char
  }

  function DigitValue(c: char): (d: int)
    requires IsDigit(c)
    ensures 0 <= d < 10
  {
    c as int - 48
  }

  /** Decimal digits of a natural number, most significant first. */
  function NatToString(n: nat): (s: string)
    ensures |s| >= 1 && AllDigits(s)
    decreases n
  {
    if n < 10 then [DigitChar(n)] else NatToString(n / 10) + [DigitChar(n % 10)]
  }

  /** `os << n` for an int: a minus sign for negatives, then the digits. */
  function IntToString(n: int): string {
    if n < 0 then "-" + NatToString(-n) else NatToString(n)
  }

  /** The value of a string of digits, read left to right. */
  function DigitsValue(s: string): nat
    requires AllDigits(s)
  {
    if s == [] then 0 else DigitsValue(s[..|s| - 1]) * 10 + DigitValue(s[|s| - 1])
  }

  lemma {:induction false} NatToStringValue(n: nat)
    ensures DigitsValue(NatToString(n)) == n
    decreases n
  {
    if n >= 10 {
      var s := NatToString(n);
      assert s[..|s| - 1] == NatToString(n / 10);
      NatToStringValue(n / 10);
    }
  }

  /** Length of the longest prefix of digits. */
  function DigitRun(s: string): (k: nat)
    ensures k <= |s| && AllDigits(s[..k])
    ensures k < |s| ==> !IsDigit(s[k])
  {
    if s == [] || !IsDigit(s[0]) then 0
    else
      var k := 1 + DigitRun(s[1..]);
      assert s[..k] == [s[0]] + s[1..][..k - 1];
      k
  }

  /** Length of the longest prefix of white space. */
  function SpaceRun(s: string): (k: nat)
    ensures k <= |s|
    ensures k < |s| ==> !IsSpace(s[k])
  {
    if s == [] || !IsSpace(s[0]) then 0 else 1 + SpaceRun(s[1..])
  }

  lemma {:induction false} DigitRunOf(ds: string, t: string)
    requires AllDigits(ds)
    requires t == [] || !IsDigit(t[0])
    ensures DigitRun(ds + t) == |ds|
  {
    if ds != [] {
      assert (ds + t)[1..] == ds[1..] + t;
      DigitRunOf(ds[1..], t);
    } else {
      assert ds + t == t;
    }
  }

  lemma SpaceRunNone(s: string)
    requires s == [] || !IsSpace(s[0])
    ensures SpaceRun(s) == 0
  {
  }

  /** The outcome of std::stoi: a value, or one of the two exceptions it throws. */
  datatype IntParse = IntValue(v: int) | InvalidArgument | OutOfRange

  /** Splits an optional sign off the front. */
  function SplitSign(t: string): (r: (bool, string))
    ensures |r.1| <= |t|
  {
    if t != [] && (t[0] == '-' || t[0] == '+') then (t[0] == '-', t[1..]) else (false, t)
  }

  /** std::stoi: skip white space, optional sign, at least one digit; the rest
      of the text is ignored. No digit throws invalid_argument, a value beyond
      int throws out_of_range. */
  function Stoi(s: string): (r: IntParse)
    ensures r.IntValue? ==> IsInt32(r.v)
  {
    var t := s[SpaceRun(s)..];
    var (neg, u) := SplitSign(t);
    var k := DigitRun(u);
    if k == 0 then InvalidArgument
    else
      var mag: int := DigitsValue(u[..k]);
      var v := if neg then -mag else mag;
      if IsInt32(v) then IntValue(v) else OutOfRange
  }

  /** Writing an int and reading it back with stoi gives the int. */
  lemma StoiRoundTrip(n: int)
    requires IsInt32(n)
    ensures Stoi(IntToString(n)) == IntValue(n)
  {
    var s := IntToString(n);
    var m := if n < 0 then -n else n;
    var ds := NatToString(m);
    SpaceRunNone(s);
    assert s[0..] == s;
    var (neg, u) := SplitSign(s);
    assert u == ds && neg == (n < 0);
    DigitRunOf(ds, "");
    assert ds + "" == ds;
    assert u[..|ds|] == ds;
    NatToStringValue(m);
  }

  /** A price in cents as `std::fixed << std::setprecision(2)` prints it. */
  function CentsToString(c: int): string {
    var m := if c < 0 then -c else c;
    (if c < 0 then "-" else "") + NatToString(m / 100) + "." + TwoDigits(m)
  }

  /** The cents denoted by the first two fraction digits (missing ones are 0). */
  function FracCents(f: string): (c: nat)
    requires AllDigits(f)
    ensures c < 100
  {
    (if |f| >= 1 then DigitValue(f[0]) * 10 else 0) + (if |f| >= 2 then DigitValue(f[1]) else 0)
  }

  /** The decimal prefix a double extraction accepts: white space, optional
      sign, then an unsigned decimal. */
  function ParseCents(s: string): Option<int> {
    var (neg, u) := SplitSign(s[SpaceRun(s)..]);
    match UnsignedCents(u)
    case None => None
    case Some(c) => Some(if neg then -(c as int) else c)
  }

  /** Digits, optionally a point and more digits, at least one digit in all.
      Fraction digits past the second are dropped (prices are cents). */
  function UnsignedCents(u: string): Option<nat> {
    var k1 := DigitRun(u);
    var after := u[k1..];
    var frac := if after != [] && after[0] == '.' then after[1..][..DigitRun(after[1..])] else "";
    if k1 + |frac| == 0 then None
    else Some(DigitsValue(u[..k1]) * 100 + FracCents(frac))
  }

  function TwoDigits(m: nat): (f: string)
    ensures |f| == 2 && AllDigits(f)
  {
    [DigitChar(m % 100 / 10), DigitChar(m % 10)]
  }

  lemma TwoDigitsValue(m: nat)
    ensures FracCents(TwoDigits(m)) == m % 100
  {
    var f := TwoDigits(m);
    assert DigitValue(f[0]) == m % 100 / 10;
    assert DigitValue(f[1]) == m % 10;
  }

  lemma UnsignedRoundTrip(m: nat)
    ensures UnsignedCents(NatToString(m / 100) + "." + TwoDigits(m)) == Some(m)
  {
    var ds := NatToString(m / 100);
    var f := TwoDigits(m);
    var u := ds + "." + f;
    assert u == ds + ("." + f);
    DigitRunOf(ds, "." + f);
    var k1 := DigitRun(u);
    assert k1 == |ds|;
    assert u[..k1] == ds;
    var after := u[k1..];
    assert after == "." + f;
    assert after[1..] == f;
    DigitRunOf(f, "");
    assert f + "" == f;
    assert DigitRun(after[1..]) == 2;
    var frac := after[1..][..DigitRun(after[1..])];
    assert frac == f;
    NatToStringValue(m / 100);
    TwoDigitsValue(m);
    assert DigitsValue(u[..k1]) * 100 + FracCents(frac) == m;
  }

  /** Printing a price with two decimals and parsing it back gives the price. */
  lemma CentsRoundTrip(c: int)
    ensures ParseCents(CentsToString(c)) == Some(c)
  {
    var m := if c < 0 then -c else c;
    var u := NatToString(m / 100) + "." + TwoDigits(m);
    var s := CentsToString(c);
    assert s == (if c < 0 then "-" else "") + u;
    SpaceRunNone(s);
    assert s[0..] == s;
    assert SplitSign(s) == (c < 0, u);
    UnsignedRoundTrip(m);
  }

  /** Decimal text never contains the field separator or a line break. */
  lemma NumbersHaveNoSeparators(n: int, c: int)
    ensures '|' !in IntToString(n) && '\n' !in IntToString(n)
    ensures '|' !in CentsToString(c) && '\n' !in CentsToString(c)
  {
    var m := if n < 0 then -n else n;
    assert forall i :: 0 <= i < |NatToString(m)| ==> IsDigit(NatToString(m)[i]);
    var p := if c < 0 then -c else c;
    assert forall i :: 0 <= i < |NatToString(p / 100)| ==> IsDigit(NatToString(p / 100)[i]);
  }
}
