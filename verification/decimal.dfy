/** The `u32` scalar: `Display` writes the shortest decimal form, and
    `FromStr` accepts an optional leading `+` followed by at least one
    decimal digit, rejecting a value of 2^32 or more. */
module Decimal {
  import opened Results
  import opened Text
  import Value

  const Limit: int := 0x1_0000_0000

  type U32 = n: int | 0 <= n < Limit

  predicate IsDigit(c: char) {
    '0' <= c <= '9'
  }

  predicate AllDigits(s: string) {
    forall i | 0 <= i < |s| :: IsDigit(s[i])
  }

  function DigitChar(d: nat): (c: char)
    requires d < 10
    ensures IsDigit(c)
  {
    ('0' as int + d) as char
  }

  function DigitValue(c: char): nat
    requires IsDigit(c)
  {
    c as int - '0' as int
  }

  /** The number the digits spell, most significant first. */
  function Number(s: string): nat
    requires AllDigits(s)
    decreases |s|
  {
    if |s| == 0 then 0 else Number(s[..|s| - 1]) * 10 + DigitValue(s[|s| - 1])
  }

  /** `to_string` of an unsigned integer. */
  function Show(n: nat): (s: string)
    ensures |s| >= 1 && AllDigits(s)
    ensures |s| > 1 ==> s[0] != '0'
    decreases n
  {
    if n < 10 then [DigitChar(n)] else Show(n / 10) + [DigitChar(n % 10)]
  }

  /** `u32::from_str(s).ok()`. The accepted texts are exactly a run of
      one or more digits, with or without one leading `+`, spelling a
      number below 2^32 (leading zeros allowed); the result is the number
      the run spells. */
  function Parse(s: string): (r: Option<U32>)
    ensures r.Some? ==>
      (|s| >= 1 && AllDigits(s) && Number(s) == r.value) ||
      (|s| >= 2 && s[0] == '+' && AllDigits(s[1..]) && Number(s[1..]) == r.value)
    ensures |s| >= 1 && AllDigits(s) && Number(s) < Limit ==> r == Some(Number(s))
    ensures |s| >= 2 && s[0] == '+' && AllDigits(s[1..]) && Number(s[1..]) < Limit ==> r == Some(Number(s[1..]))
  {
    if |s| == 0 then None
    else
      var digits := if s[0] == '+' then s[1..] else s;
      if |digits| == 0 || !AllDigits(digits) then None
      else if Number(digits) < Limit then Some(Number(digits))
      else None
  }

  lemma {:induction false} NumberOfShow(n: nat)
    ensures Number(Show(n)) == n
    decreases n
  {
    if n >= 10 {
      NumberOfShow(n / 10);
      var s := Show(n);
      assert s[..|s| - 1] == Show(n / 10);
    }
  }

  /** Parsing the decimal form gives the number back. */
  lemma ParseShow(n: U32)
    ensures Parse(Show(n)) == Some(n)
  {
    NumberOfShow(n);
  }

  /** A leading `+` and leading zeros are accepted. */
  lemma ParseSignAndZeros(n: U32)
    ensures Parse(['+'] + Show(n)) == Some(n)
    ensures Parse(['0'] + Show(n)) == Some(n)
  {
    NumberOfShow(n);
    var s := Show(n);
    assert (['+'] + s)[1..] == s;
    assert Number(['0'] + s) == n by {
      LeadingZero(s);
    }
  }

  lemma {:induction false} LeadingZero(s: string)
    requires AllDigits(s)
    ensures AllDigits(['0'] + s) && Number(['0'] + s) == Number(s)
    decreases |s|
  {
    var t := ['0'] + s;
    if |s| > 0 {
      LeadingZero(s[..|s| - 1]);
      assert t[..|t| - 1] == ['0'] + s[..|s| - 1];
    }
  }

  /** The empty text and a lone sign are refused. */
  lemma ParseRejectsEmpty()
    ensures Parse("") == None
    ensures Parse("+") == None
  {
  }

  /** A minus sign is refused, whatever follows: the type is unsigned. */
  lemma ParseRejectsMinus(s: string)
    requires |s| >= 1 && s[0] == '-'
    ensures Parse(s) == None
  {
    assert !IsDigit(s[0]);
  }

  /** The decimal form of any number from 2^32 on is refused, with or
      without a sign. */
  lemma ParseRejectsLarge(n: nat)
    requires n >= Limit
    ensures Parse(Show(n)) == None
    ensures Parse(['+'] + Show(n)) == None
  {
    NumberOfShow(n);
    assert (['+'] + Show(n))[1..] == Show(n);
  }

  /** Decimal digits never clash with the table's separators. */
  lemma ShowFieldSafe(n: nat)
    ensures FieldSafe(Show(n))
  {
    var s := Show(n);
    assert forall i | 0 <= i < |s| :: IsDigit(s[i]);
  }

  function Codec(): Value.Codec<U32> {
    Value.Codec(n => Show(n), Parse)
  }

  lemma CodecFaithful(n: U32)
    ensures Value.Faithful(Codec(), n)
  {
    ParseShow(n);
    ShowFieldSafe(n);
  }
}
