/** Base-10 printing and parsing of integers, as strconv does it. */
module Decimal {
  import opened Wrappers

  const MAX_INT64 := 0x7FFF_FFFF_FFFF_FFFF

  predicate IsDigit(c: char) { '0' <= c <= '9' }

  function DigitOf(n: nat): (c: char)
    requires n < 10
    ensures IsDigit(c) && DigitValue(c) == n && c as int == '0' as int + n
  {
    ['0', '1', '2', '3', '4', '5', '6', '7', '8', '9'][n]
  }

  function DigitValue(c: char): (n: nat)
    requires IsDigit(c)
    ensures n < 10
  {
    c as int - '0' as int
  }

  function FormatNat(n: nat): (s: string)
    ensures s != [] && forall i :: 0 <= i < |s| ==> IsDigit(s[i])
    decreases n
  {
    if n < 10 then [DigitOf(n)] else FormatNat(n / 10) + [DigitOf(n % 10)]
  }

  function FormatInt(n: int): (s: string)
    ensures s != "" && (s[0] == '-' <==> n < 0)
  {
    if n < 0 then "-" + FormatNat(-n) else FormatNat(n)
  }

  function ParseNat(s: string): Option<nat> {
    if s == "" || !IsDigit(s[|s| - 1]) then None
    else if |s| == 1 then Some(DigitValue(s[0]))
    else
      match ParseNat(s[..|s| - 1])
      case None => None
      case Some(n) => Some(10 * n + DigitValue(s[|s| - 1]))
  }

  /** strconv.ParseInt(s, 10, 64): an optional sign, then digits, within int64. */
  function ParseInt64(s: string): Option<int> {
    if s != "" && s[0] == '-' then
      var n := ParseNat(s[1..]);
      if n.Some? && n.value <= MAX_INT64 + 1 then Some(0 - n.value) else None
    else
      var n := ParseNat(if s != "" && s[0] == '+' then s[1..] else s);
      if n.Some? && n.value <= MAX_INT64 then Some(n.value) else None
  }

  lemma {:induction false} ParseFormatNat(n: nat)
    ensures ParseNat(FormatNat(n)) == Some(n)
    decreases n
  {
    if n >= 10 {
      ParseFormatNat(n / 10);
      var s := FormatNat(n);
      assert s[..|s| - 1] == FormatNat(n / 10);
    }
  }

  /** How a string counts: no leading zero but in "0" itself. */
  predicate Plain(s: string) { |s| == 1 || (s != "" && s[0] != '0') }

  lemma {:induction false} FormatNatPlain(n: nat)
    ensures Plain(FormatNat(n)) && (n > 0 ==> FormatNat(n)[0] != '0')
    decreases n
  {
    if n >= 10 {
      FormatNatPlain(n / 10);
    }
  }

  lemma {:induction false} ParsePlain(s: string, n: nat)
    requires ParseNat(s) == Some(n) && Plain(s)
    ensures s == FormatNat(n) && (s != "0" ==> n > 0)
    decreases |s|
  {
    if |s| > 1 {
      var front := s[..|s| - 1];
      ParsePlain(front, ParseNat(front).value);
      assert s == front + [s[|s| - 1]];
    } else {
      assert s == [s[0]];
    }
  }

  /** The one plain string that parses to n. */
  lemma FormatNatExactly(n: nat, s: string)
    ensures s == FormatNat(n) <==> ParseNat(s) == Some(n) && Plain(s)
  {
    ParseFormatNat(n);
    FormatNatPlain(n);
    if ParseNat(s) == Some(n) && Plain(s) {
      ParsePlain(s, n);
    }
  }

  /** Digits and nothing else are a number. */
  lemma {:induction false} ParseNatExactly(s: string)
    ensures ParseNat(s).Some? <==> s != "" && forall i :: 0 <= i < |s| ==> IsDigit(s[i])
    decreases |s|
  {
    if |s| > 1 {
      ParseNatExactly(s[..|s| - 1]);
    }
  }

  /** What a string of digits says, the most significant first. */
  lemma {:induction false} ParseNatPlaces(s: string, c: char)
    requires ParseNat(s).Some? && IsDigit(c)
    ensures ParseNat(s + [c]) == Some(10 * ParseNat(s).value + (c as int - '0' as int))
  {
    assert (s + [c])[..|s|] == s;
  }

  /** Signs and limits. */
  lemma ParseInt64Exactly(s: string, n: int)
    ensures ParseInt64(s) == Some(n) <==>
            && -0x8000_0000_0000_0000 <= n <= 0x7FFF_FFFF_FFFF_FFFF
            && if s != "" && s[0] == '-' then n <= 0 && ParseNat(s[1..]) == Some(-n)
               else n >= 0 && ParseNat(if s != "" && s[0] == '+' then s[1..] else s) == Some(n)
  {
    hide ParseNat;
  }

  lemma ParseFormatInt(n: int)
    requires -MAX_INT64 - 1 <= n <= MAX_INT64
    ensures ParseInt64(FormatInt(n)) == Some(n)
  {
    var m: nat := if n < 0 then -n else n;
    ParseFormatNat(m);
    assert IsDigit(FormatNat(m)[0]);
    hide FormatNat, ParseNat;
    if n < 0 {
      assert FormatInt(n)[1..] == FormatNat(m);
    }
  }

  lemma FormatIntPlain(n: int)
    ensures FormatInt(n) != "" && '.' !in FormatInt(n)
  {
  }

  lemma {:induction false} FormatNatLength(n: nat, digits: nat)
    requires digits >= 1
    requires Power10(digits - 1) <= n < Power10(digits) || (digits == 1 && n == 0)
    ensures |FormatNat(n)| == digits
    decreases digits
  {
    if digits > 1 {
      assert Power10(digits) == 10 * Power10(digits - 1);
      assert Power10(digits - 1) == 10 * Power10(digits - 2);
      FormatNatLength(n / 10, digits - 1);
    }
  }

  function Power10(k: nat): (p: nat)
    ensures p >= 1
  {
    if k == 0 then 1 else 10 * Power10(k - 1)
  }
}
