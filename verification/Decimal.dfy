/** `std::to_string` and `std::stoi`. */
module Decimal {
  import opened Common

  const INT_MAX: nat := 0x7FFF_FFFF
  const INT_MIN: int := -0x8000_0000

  function Digit(d: nat): char
    requires d < 10
  {
    '0' + d as char
  }

  function ToDecimal(n: nat): string {
    if n < 10 then [Digit(n)] else ToDecimal(n / 10) + [Digit(n % 10)]
  }

  predicate IsDigit(c: char) {
    '0' <= c <= '9'
  }

  function LeadingDigits(s: string): string {
    if s != "" && IsDigit(s[0]) then [s[0]] + LeadingDigits(s[1..]) else ""
  }

  function Number(digits: string): nat {
    if digits == "" then 0
    else
      var last := digits[|digits| - 1];
      Number(digits[..|digits| - 1]) * 10 + (if IsDigit(last) then (last - '0') as nat else 0)
  }

  /** Leading spaces, a sign and digits; `None` where an exception is thrown. */
  function Stoi(s: string): Option<int> {
    var t := DropSpaces(s);
    var signed := t != "" && (t[0] == '-' || t[0] == '+');
    var digits := LeadingDigits(if signed then t[1..] else t);
    var n: int := Number(digits);
    var value := if signed && t[0] == '-' then -n else n;
    if digits == "" || !(INT_MIN <= value <= INT_MAX) then None else Some(value)
  }

  predicate AllDigits(s: string) {
    forall i :: 0 <= i < |s| ==> IsDigit(s[i])
  }

  lemma NumberSnoc(s: string, d: nat)
    requires d < 10
    ensures IsDigit(Digit(d)) && Number(s + [Digit(d)]) == Number(s) * 10 + d
  {
    assert (s + [Digit(d)])[..|s|] == s;
  }

  lemma {:induction false} ToDecimalIsReadBack(n: nat)
    ensures AllDigits(ToDecimal(n)) && ToDecimal(n) != "" && Number(ToDecimal(n)) == n
  {
    if n < 10 {
      NumberSnoc("", n);
      assert "" + [Digit(n)] == [Digit(n)];
    } else {
      ToDecimalIsReadBack(n / 10);
      NumberSnoc(ToDecimal(n / 10), n % 10);
    }
  }

  lemma {:induction false} LeadingDigitsOfAll(s: string)
    requires AllDigits(s)
    ensures LeadingDigits(s) == s
  {
    if s != "" {
      LeadingDigitsOfAll(s[1..]);
    }
  }

  /** Reading a printed number back succeeds exactly when it fits an int. */
  lemma StoiReadsToDecimal(n: nat)
    ensures Stoi(ToDecimal(n)) == if n <= INT_MAX then Some(n) else None
  {
    var s := ToDecimal(n);
    ToDecimalIsReadBack(n);
    LeadingDigitsOfAll(s);
    assert IsDigit(s[0]);
  }

  lemma {:induction false} DigitsAreLeading(digits: string, rest: string)
    requires AllDigits(digits) && (rest == "" || !IsDigit(rest[0]))
    ensures LeadingDigits(digits + rest) == digits
  {
    if digits == "" {
      assert digits + rest == rest;
    } else {
      assert (digits + rest)[1..] == digits[1..] + rest;
      DigitsAreLeading(digits[1..], rest);
    }
  }

  lemma Signed(sign: string, digits: string, rest: string)
    requires (sign == "" || sign == "+" || sign == "-") && AllDigits(digits) && (rest == "" || !IsDigit(rest[0]))
    requires digits == "" ==> rest == "" || (!Blank(rest[..1]) && rest[0] != '+' && rest[0] != '-')
    ensures var t := sign + (digits + rest);
            && (t == "" || !Blank(t[..1]))
            && (sign != "" ==> t != "" && t[0] == sign[0] && t[1..] == digits + rest)
            && (sign == "" ==> t == digits + rest && (t != "" ==> t[0] != '+' && t[0] != '-'))
  {
    var t := sign + (digits + rest);
    if t != "" {
      assert t[..1][0] == t[0];
      if sign == "" && digits == "" {
        assert t[..1] == rest[..1];
      } else if sign == "" {
        assert t[0] == digits[0] && IsDigit(digits[0]);
      }
    }
  }

  function WithSign(sign: string, n: nat): int {
    if sign == "-" then 0 - n else n
  }

  /**
   `stoi` on blanks, a sign, digits and anything behind them: the number with its sign, if
   there are digits and it fits an int.
   */
  lemma StoiExactly(blanks: string, sign: string, digits: string, rest: string)
    requires Blank(blanks) && (sign == "" || sign == "+" || sign == "-")
    requires AllDigits(digits) && (rest == "" || !IsDigit(rest[0]))
    requires digits == "" ==> rest == "" || (!Blank(rest[..1]) && rest[0] != '+' && rest[0] != '-')
    ensures var value := WithSign(sign, Number(digits));
            Stoi(blanks + (sign + (digits + rest)))
            == if digits != "" && -0x8000_0000 <= value <= 0x7FFF_FFFF then Some(value) else None
  {
    Signed(sign, digits, rest);
    BlanksAreDropped(blanks, sign + (digits + rest));
    DigitsAreLeading(digits, rest);
    hide DropSpaces, LeadingDigits, Number, Blank, AllDigits;
  }
}
