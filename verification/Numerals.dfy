/** Decimal numerals: how numbers are written into texts and read back. */
module Numerals {
  import opened Wrappers

  predicate Digit(c: char) { '0' <= c <= '9' }

  /** Decimal digits only. */
  function ParseDigits(s: string): Option<nat> {
    if s == "" then None
    else
      var c := s[|s| - 1];
      if !Digit(c) then None
      else
        var low := c as int - '0' as int;
        if |s| == 1 then Some(low)
        else
          var high := ParseDigits(s[..|s| - 1]);
          if high.None? then None else Some(10 * high.value + low)
  }

  function Decimal(n: nat): string {
    (if n < 10 then "" else Decimal(n / 10)) + ['0' + (n % 10) as char]
  }

  /** Filled up with zeros in front. */
  function ZeroFilled(s: string, width: nat): (t: string)
    ensures |t| == if |s| < width then width else |s|
    decreases width - |s|
  {
    if |s| >= width then s else ZeroFilled("0" + s, width)
  }

  function PowerOfTen(n: nat): nat {
    if n == 0 then 1 else 10 * PowerOfTen(n - 1)
  }

  lemma {:induction false} ParseDecimal(n: nat)
    ensures ParseDigits(Decimal(n)) == Some(n) && Digit(Decimal(n)[0])
  {
    var s := Decimal(n);
    if n >= 10 {
      ParseDecimal(n / 10);
      assert s[..|s| - 1] == Decimal(n / 10);
    }
  }

  lemma {:induction false} DecimalLength(n: nat, width: nat)
    requires width > 0 && n < PowerOfTen(width)
    ensures |Decimal(n)| <= width
  {
    if n >= 10 {
      DecimalLength(n / 10, width - 1);
    }
  }

  /** A text of digits is a number with at most that many digits. */
  lemma {:induction false} ParseRange(s: string)
    requires s != "" && forall c <- s :: Digit(c)
    ensures ParseDigits(s).Some? && ParseDigits(s).value < PowerOfTen(|s|)
  {
    var init := s[..|s| - 1];
    assert s[|s| - 1] in s && forall c :: c in init ==> c in s;
    if init != "" {
      ParseRange(init);
    }
  }

  lemma {:induction false} LeadingZero(s: string)
    requires ParseDigits(s).Some?
    ensures ParseDigits("0" + s) == ParseDigits(s)
  {
    var t := "0" + s;
    assert t[..|t| - 1] == "0" + s[..|s| - 1];
    if |s| > 1 {
      LeadingZero(s[..|s| - 1]);
    }
  }

  lemma {:induction false} ParseZeroFilled(s: string, width: nat)
    requires ParseDigits(s).Some?
    ensures ParseDigits(ZeroFilled(s, width)) == ParseDigits(s)
    decreases width - |s|
  {
    if |s| < width {
      LeadingZero(s);
      ParseZeroFilled("0" + s, width);
    }
  }

  lemma LowDigit(a: nat, low: nat, b: nat, low': nat)
    requires low < 10 && low' < 10 && 10 * a + low == 10 * b + low'
    ensures a == b && low == low'
  {
  }

  /** Texts of one length that read as the same number are the same. */
  lemma {:induction false} ParseInjective(s: string, t: string)
    requires |s| == |t| && ParseDigits(s).Some? && ParseDigits(s) == ParseDigits(t)
    ensures s == t
  {
    var last := |s| - 1;
    assert s == s[..last] + [s[last]] && t == t[..last] + [t[last]];
    if last > 0 {
      LowDigit(
        ParseDigits(s[..last]).value, s[last] as int - '0' as int,
        ParseDigits(t[..last]).value, t[last] as int - '0' as int);
      ParseInjective(s[..last], t[..last]);
    }
  }
}
