/**
 * `strconv.Atoi` from Go's standard library on a 64-bit platform, with
 * `strconv.Itoa` as its inverse: the parser GetHours applies to the hour
 * and the minute.
 */
module Numbers {
  import opened Wrappers

  /** Bounds of Go's `int` on a 64-bit platform. */
  const MinInt: int := -0x8000_0000_0000_0000
  const MaxInt: int := 0x7FFF_FFFF_FFFF_FFFF

  predicate IsDigit(c: char)
  {
    '0' <= c <= '9'
  }

  predicate AllDigits(s: string)
  {
    forall i :: 0 <= i < |s| ==> IsDigit(s[i])
  }

  function DigitValue(c: char): nat
    requires IsDigit(c)
  {
    c as int - '0' as int
  }

  /** The value of a string of decimal digits, most significant first. */
  function DigitsValue(s: string): nat
    requires AllDigits(s)
  {
    if s == [] then 0 else DigitsValue(s[..|s| - 1]) * 10 + DigitValue(s[|s| - 1])
  }

  /** `s` without one leading '+' or '-'. */
  function Unsigned(s: string): (u: string)
    ensures |u| <= |s| && u == s[|s| - |u|..]
  {
    if |s| > 0 && (s[0] == '+' || s[0] == '-') then s[1..] else s
  }

  /**
   * `strconv.Atoi(s)`: an optional sign followed by one or more decimal
   * digits (leading zeros allowed, nothing else: no spaces, no underscores),
   * whose value fits in a 64-bit `int`; anything else is an error (None).
   */
  function Atoi(s: string): (r: Option<int>)
    ensures r.Some? ==> MinInt <= r.value <= MaxInt
    ensures r.Some? ==> Unsigned(s) != [] && AllDigits(Unsigned(s))
    ensures r.Some? ==> (r.value < 0 ==> s[0] == '-')
  {
    var digits := Unsigned(s);
    if digits == [] || !AllDigits(digits) then None
    else
      var magnitude: int := DigitsValue(digits);
      var v := if s[0] == '-' then -magnitude else magnitude;
      if MinInt <= v <= MaxInt then Some(v) else None
  }

  function DigitChar(d: nat): (c: char)
    requires d < 10
    ensures IsDigit(c) && DigitValue(c) == d
  {
    ('0' as int + d) as char
  }

  /** Decimal digits of `n`, most significant first, without leading zeros. */
  function NatDigits(n: nat): (s: string)
    ensures |s| >= 1 && AllDigits(s)
    decreases n
  {
    if n < 10 then [DigitChar(n)] else NatDigits(n / 10) + [DigitChar(n % 10)]
  }

  /** `strconv.Itoa(n)`: a '-' for negative numbers, then the digits of |n|. */
  function Itoa(n: int): (s: string)
    ensures |s| >= 1
  {
    if n < 0 then "-" + NatDigits(-n) else NatDigits(n)
  }

  lemma {:induction false} NatDigitsValue(n: nat)
    ensures DigitsValue(NatDigits(n)) == n
    decreases n
  {
    if n >= 10 {
      NatDigitsValue(n / 10);
      var s := NatDigits(n);
      assert s[..|s| - 1] == NatDigits(n / 10);
    }
  }

  /** Atoi of a signed digit string whose value is in range. */
  lemma AtoiOfDigits(s: string, d: string, negative: bool)
    requires d != [] && AllDigits(d) && Unsigned(s) == d
    requires negative <==> s[0] == '-'
    requires MinInt <= (if negative then 0 - DigitsValue(d) as int else DigitsValue(d) as int) <= MaxInt
    ensures Atoi(s) == Some(if negative then 0 - DigitsValue(d) as int else DigitsValue(d) as int)
  {
  }

  /** Atoi reads back every 64-bit integer that Itoa writes. */
  lemma AtoiItoa(n: int)
    requires MinInt <= n <= MaxInt
    ensures Atoi(Itoa(n)) == Some(n)
  {
    var m: nat := if n < 0 then -n else n;
    var d := NatDigits(m);
    NatDigitsValue(m);
    assert IsDigit(d[0]);
    var s := Itoa(n);
    if n < 0 {
      assert s == "-" + d && s[0] == '-';
      assert s[1..] == d;
      AtoiOfDigits(s, d, true);
    } else {
      assert s == d;
      AtoiOfDigits(s, d, false);
    }
  }

  /** What Itoa writes never contains a colon, so it survives a Split on ':'. */
  lemma ItoaHasNoColon(n: int)
    ensures ':' !in Itoa(n)
  {
    var d := NatDigits(if n < 0 then -n else n);
    assert forall i :: 0 <= i < |d| ==> d[i] != ':' by {
      assert AllDigits(d);
    }
  }

  /** Hours and minutes out of a clock's range still parse. */
  lemma AtoiAcceptsOutOfRange()
    ensures Atoi("25") == Some(25) && Atoi("99") == Some(99)
  {
    TwoDigits('2', '5');
    TwoDigits('9', '9');
    AtoiOfDigits("25", "25", false);
    AtoiOfDigits("99", "99", false);
  }

  lemma TwoDigits(a: char, b: char)
    requires IsDigit(a) && IsDigit(b)
    ensures AllDigits([a, b]) && DigitsValue([a, b]) == DigitValue(a) * 10 + DigitValue(b)
  {
    assert AllDigits([a, b]);
    assert [a, b][..1] == [a];
    assert [a][..0] == [];
    assert DigitsValue([a]) == DigitValue(a);
    assert DigitsValue([a, b]) == DigitsValue([a]) * 10 + DigitValue(b);
  }

  /** Signs and leading zeros are accepted. */
  lemma AtoiAcceptsSignsAndZeros()
    ensures Atoi("007") == Some(7) && Atoi("+7") == Some(7) && Atoi("-7") == Some(-7)
  {
    assert "7"[..0] == "";
    assert DigitsValue("7") == 7;
    TwoDigits('0', '0');
    assert "007"[..2] == "00";
    assert DigitsValue("007") == 7;
    AtoiOfDigits("007", "007", false);
    AtoiOfDigits("+7", "7", false);
    AtoiOfDigits("-7", "7", true);
  }

  /** Atoi refuses a string with nothing after its optional sign. */
  lemma AtoiRefusesNoDigits(s: string)
    requires Unsigned(s) == []
    ensures Atoi(s) == None
  {
  }

  /** Atoi refuses a string with anything but a digit after its optional sign. */
  lemma AtoiRefusesNonDigit(s: string, i: nat)
    requires i < |Unsigned(s)| && !IsDigit(Unsigned(s)[i])
    ensures Atoi(s) == None
  {
  }

  /** The empty string and a sign on its own are refused. */
  lemma AtoiRefusesBareSign(c: char)
    requires c == '+' || c == '-'
    ensures Atoi("") == None && Atoi([c]) == None
  {
    assert Unsigned([c]) == [];
  }

  /** A second sign after the first is refused. */
  lemma AtoiRefusesDoubleSign(c: char, d: char, rest: string)
    requires c == '+' || c == '-'
    requires d == '+' || d == '-'
    ensures Atoi([c, d] + rest) == None
  {
    var s := [c, d] + rest;
    assert Unsigned(s) == [d] + rest;
    AtoiRefusesNonDigit(s, 0);
  }

  /** Letters, blanks and digit-group underscores are refused. */
  lemma AtoiRefusesStrayCharacters(s: string)
    requires s == "1a" || s == " 1" || s == "1_0"
    ensures Atoi(s) == None
  {
    assert Unsigned(s) == s;
    AtoiRefusesNonDigit(s, if s == " 1" then 0 else 1);
  }

  /** A signed digit string whose value lies outside the 64-bit range is a range error. */
  lemma AtoiRefusesOutOfRange(s: string)
    requires Unsigned(s) != [] && AllDigits(Unsigned(s))
    requires var v := DigitsValue(Unsigned(s)) as int;
             var signed := if s[0] == '-' then 0 - v else v;
             signed < MinInt || MaxInt < signed
    ensures Atoi(s) == None
  {
  }

  /** A value just past the 64-bit range is a range error. */
  lemma AtoiRefusesOverflow()
    ensures Atoi(Itoa(MaxInt + 1)) == None
  {
    var d := NatDigits(MaxInt + 1);
    NatDigitsValue(MaxInt + 1);
    assert IsDigit(d[0]);
    assert Unsigned(d) == d;
  }
}
