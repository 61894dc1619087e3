/** Currency display (app.py, format_currency): a sign, a dollar sign,
    whole dollars and exactly two decimals. Amounts are whole cents here,
    so the rendering is exact. */
module Formatting {
  import opened Wrappers
  import opened Decimal

  /** "<dollars>.<cc>" for a non-negative number of cents. */
  function Unsigned(cents: nat): (s: string)
    ensures |s| >= 4 && s[|s| - 3] == '.'
    ensures Canonical(s[..|s| - 3]) && |s[|s| - 2..]| == 2 && AllDigits(s[|s| - 2..])
  {
    PaddedRoundTrip(cents % 100, 2);
    var whole := NatToString(cents / 100);
    var frac := Padded(cents % 100, 2);
    var s := whole + "." + frac;
    assert s[..|s| - 3] == whole && s[|s| - 2..] == frac;
    s
  }

  /** A negative amount is shown as "-$" and its magnitude, any other as
      "$" and the amount. */
  function FormatCurrency(cents: int): (s: string)
    ensures |s| >= 5
    ensures s[0] == '-' <==> cents < 0
    ensures cents < 0 ==> s[1] == '$' && s[2..] == Unsigned(-cents)
    ensures cents >= 0 ==> s[0] == '$' && s[1..] == Unsigned(cents)
  {
    if cents < 0 then "-$" + Unsigned(-cents) else "$" + Unsigned(cents)
  }

  /** The number of cents "<dollars>.<cc>" denotes, when it is written as
      Unsigned writes it. */
  function ParseUnsigned(t: string): Option<nat> {
    if |t| >= 4 && t[|t| - 3] == '.' && Canonical(t[..|t| - 3]) && AllDigits(t[|t| - 2..])
    then Some(DigitsValue(t[..|t| - 3]) * 100 + DigitsValue(t[|t| - 2..]))
    else None
  }

  /** The amount a displayed currency string denotes, when it is written
      as FormatCurrency writes it. */
  function ParseCurrency(s: string): Option<int> {
    if |s| >= 2 && s[0] == '-' && s[1] == '$' then
      var u := ParseUnsigned(s[2..]);
      if u.Some? && u.value > 0 then Some(-(u.value as int)) else None
    else if |s| >= 1 && s[0] == '$' then
      var u := ParseUnsigned(s[1..]);
      if u.Some? then Some(u.value as int) else None
    else None
  }

  lemma UnsignedRoundTrip(cents: nat)
    ensures ParseUnsigned(Unsigned(cents)) == Some(cents)
  {
    var s := Unsigned(cents);
    var whole := NatToString(cents / 100);
    var frac := Padded(cents % 100, 2);
    assert s[..|s| - 3] == whole && s[|s| - 2..] == frac;
    NatToStringRoundTrip(cents / 100);
    PaddedRoundTrip(cents % 100, 2);
  }

  lemma UnsignedFromParse(t: string)
    requires ParseUnsigned(t).Some?
    ensures Unsigned(ParseUnsigned(t).value) == t
  {
    var whole := t[..|t| - 3];
    var frac := t[|t| - 2..];
    var w := DigitsValue(whole);
    var f := DigitsValue(frac);
    TwoDigitsRoundTrip(frac);
    CanonicalRoundTrip(whole);
    var v := w * 100 + f;
    assert v / 100 == w && v % 100 == f;
    assert t == whole + "." + frac;
  }

  /** Displaying an amount and reading the display back gives the
      amount. */
  lemma FormatRoundTrip(cents: int)
    ensures ParseCurrency(FormatCurrency(cents)) == Some(cents)
  {
    var s := FormatCurrency(cents);
    if cents < 0 {
      UnsignedRoundTrip(-cents);
    } else {
      UnsignedRoundTrip(cents);
    }
  }

  /** A string that reads as an amount is that amount's display. */
  lemma ParseSound(s: string)
    requires ParseCurrency(s).Some?
    ensures FormatCurrency(ParseCurrency(s).value) == s
  {
    if |s| >= 2 && s[0] == '-' && s[1] == '$' {
      ParseNegativeSound(s);
    } else {
      var t := s[1..];
      UnsignedFromParse(t);
      assert s == "$" + t;
    }
  }

  lemma ParseNegativeSound(s: string)
    requires |s| >= 2 && s[0] == '-' && s[1] == '$' && ParseCurrency(s).Some?
    ensures FormatCurrency(ParseCurrency(s).value) == s
  {
    var t := s[2..];
    var u := ParseUnsigned(t).value;
    assert ParseCurrency(s).value == -(u as int);
    UnsignedFromParse(t);
    assert s == "-$" + t;
  }

  /** A string reads as an amount exactly when it is that amount's
      display. */
  lemma ParseExact(s: string, cents: int)
    ensures ParseCurrency(s) == Some(cents) <==> FormatCurrency(cents) == s
  {
    if FormatCurrency(cents) == s {
      FormatRoundTrip(cents);
    }
    if ParseCurrency(s) == Some(cents) {
      ParseSound(s);
    }
  }

  /** Two amounts never share a display. */
  lemma FormatInjective(a: int, b: int)
    requires FormatCurrency(a) == FormatCurrency(b)
    ensures a == b
  {
    FormatRoundTrip(a);
    FormatRoundTrip(b);
  }

  /** Scenario: minus twelve dollars fifty. */
  lemma FormatNegativeScenario()
    ensures FormatCurrency(-1250) == "-$12.50"
  {
    assert NatToString(12) == "12" by {
      assert NatToString(1) == "1";
    }
    assert Padded(50, 2) == "50" by {
      assert NatToString(5) == "5";
    }
    assert Unsigned(1250) == "12" + "." + "50";
  }

  /** Scenario: five cents get a leading zero in the fraction. */
  lemma FormatCentsScenario()
    ensures FormatCurrency(5) == "$0.05"
  {
    assert NatToString(0) == "0";
    assert Padded(5, 2) == "05" by {
      assert Zeros(1) == "0";
      assert NatToString(5) == "5";
    }
    assert Unsigned(5) == "0" + "." + "05";
  }

  /** Scenario: zero is shown as "$0.00". */
  lemma FormatZeroScenario()
    ensures FormatCurrency(0) == "$0.00"
  {
    assert NatToString(0) == "0";
    assert Padded(0, 2) == "00" by {
      assert Zeros(1) == "0";
    }
    assert Unsigned(0) == "0" + "." + "00";
  }
}
