/**
 * Label lookup: the label text of a class index, falling back to the index
 * written in decimal (`std::to_string`) when the label table has no entry.
 */
module Labels {
  import opened Wrappers

  predicate IsDigit(c: char) {
    '0' <= c <= '9'
  }

  predicate AllDigits(s: string) {
    forall i :: 0 <= i < |s| ==> IsDigit(s[i])
  }

  function DigitChar(d: int): (c: char)
    requires 0 <= d < 10
    ensures IsDigit(c)
  {
    (('0' as int) + d) as char
  }

  function DigitValue(c: char): (d: int)
    requires IsDigit(c)
    ensures 0 <= d < 10
  {
    c as int - '0' as int
  }

  /** The decimal digits of `n`, most significant first, without leading zeros. */
  function Digits(n: nat): (s: string)
    ensures |s| >= 1 && AllDigits(s)
    ensures s[0] == '0' <==> n == 0
    decreases n
  {
    if n < 10 then [DigitChar(n)] else Digits(n / 10) + [DigitChar(n % 10)]
  }

  /** `std::to_string` of an integer: an optional minus sign, then its digits. */
  function DecimalString(n: int): (s: string)
    ensures |s| >= 1
    ensures s[0] == '-' <==> n < 0
  {
    if n < 0 then "-" + Digits(-n) else Digits(n)
  }

  /** The value of a non-empty digit string. */
  function ParseDigits(s: string): (n: nat)
    requires |s| >= 1 && AllDigits(s)
    decreases |s|
  {
    if |s| == 1 then DigitValue(s[0])
    else 10 * ParseDigits(s[..|s| - 1]) + DigitValue(s[|s| - 1])
  }

  /** Reads back an optional minus sign followed by digits; `None` for anything else. */
  function ParseDecimal(s: string): Option<int> {
    if |s| >= 2 && s[0] == '-' && AllDigits(s[1..]) then Some(-(ParseDigits(s[1..]) as int))
    else if |s| >= 1 && AllDigits(s) then Some(ParseDigits(s))
    else None
  }

  lemma {:induction false} DigitsRoundTrip(n: nat)
    ensures ParseDigits(Digits(n)) == n
    decreases n
  {
    if n >= 10 {
      var s := Digits(n);
      DigitsRoundTrip(n / 10);
      assert s[..|s| - 1] == Digits(n / 10);
    }
  }

  /** The decimal string of every integer reads back as that integer. */
  lemma DecimalRoundTrip(n: int)
    ensures ParseDecimal(DecimalString(n)) == Some(n)
  {
    var s := DecimalString(n);
    if n < 0 {
      DigitsRoundTrip(-n);
      assert s[1..] == Digits(-n);
      assert |s| >= 2 && s[0] == '-' && AllDigits(s[1..]);
    } else {
      DigitsRoundTrip(n);
      assert s == Digits(n) && IsDigit(s[0]);
    }
  }

  /**
   * `GetLabel`: the table entry when the index is in bounds; otherwise a
   * string that reads back as the index itself. It never fails.
   */
  function GetLabel(labels: seq<string>, index: int): (r: string)
    ensures 0 <= index < |labels| ==> r == labels[index]
    ensures !(0 <= index < |labels|) ==> r == DecimalString(index) && ParseDecimal(r) == Some(index)
  {
    if 0 <= index < |labels| then labels[index]
    else
      DecimalRoundTrip(index);
      DecimalString(index)
  }
}
