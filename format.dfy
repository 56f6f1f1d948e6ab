/**
 * `parseDigits` of src/utils/format.ts: drop every character that is not
 * an ASCII digit and read what is left as a base-10 number; an empty
 * input, or one without digits, reads as 0.
 */
module Format {

  predicate IsDigit(c: char)
  {
    '0' <= c <= '9'
  }

  predicate AllDigits(s: string)
  {
    forall i :: 0 <= i < |s| ==> IsDigit(s[i])
  }

  /** `input.replace(/[^\d]/g, '')`: the digits of `s`, in order. */
  function OnlyDigits(s: string): (d: string)
    ensures AllDigits(d)
    ensures |d| <= |s|
  {
    if s == [] then []
    else if IsDigit(s[0]) then [s[0]] + OnlyDigits(s[1..])
    else OnlyDigits(s[1..])
  }

  function DigitValue(c: char): nat
    requires IsDigit(c)
  {
    (c as int) - ('0' as int)
  }

  /** The base-10 value of a digit string (`Number(digits)`); 0 for "". */
  function DecimalValue(d: string): nat
    requires AllDigits(d)
  {
    if d == [] then 0 else DecimalValue(d[..|d| - 1]) * 10 + DigitValue(d[|d| - 1])
  }

  function Pow10(n: nat): nat
  {
    if n == 0 then 1 else 10 * Pow10(n - 1)
  }

  /** `parseDigits(input)`. */
  function ParseDigits(input: string): nat
  {
    if input == "" then 0
    else
      var digits := OnlyDigits(input);
      if digits == "" then 0 else DecimalValue(digits)
  }

  /** A string without ASCII digits, the empty string included, parses to 0. */
  lemma {:induction false} ParseDigitsNoDigits(s: string)
    requires forall i :: 0 <= i < |s| ==> !IsDigit(s[i])
    ensures OnlyDigits(s) == ""
    ensures ParseDigits(s) == 0
  {
    if s != [] {
      ParseDigitsNoDigits(s[1..]);
    }
  }

  lemma {:induction false} OnlyDigitsOfDigits(d: string)
    requires AllDigits(d)
    ensures OnlyDigits(d) == d
  {
    if d != [] {
      OnlyDigitsOfDigits(d[1..]);
    }
  }

  lemma {:induction false} OnlyDigitsConcat(a: string, b: string)
    ensures OnlyDigits(a + b) == OnlyDigits(a) + OnlyDigits(b)
  {
    if a == [] {
      assert a + b == b;
    } else {
      assert (a + b)[1..] == a[1..] + b;
      OnlyDigitsConcat(a[1..], b);
    }
  }

  /** Non-digit characters are ignored: parsing only the digits gives the same number. */
  lemma ParseDigitsIgnoresNonDigits(s: string)
    ensures ParseDigits(s) == ParseDigits(OnlyDigits(s))
  {
    OnlyDigitsOfDigits(OnlyDigits(s));
  }

  /** On a digit string parseDigits is its base-10 value. */
  lemma ParseDigitsOfDigits(d: string)
    requires AllDigits(d)
    ensures ParseDigits(d) == DecimalValue(d)
  {
    OnlyDigitsOfDigits(d);
  }

  lemma {:induction false} DecimalValueConcat(x: string, y: string)
    requires AllDigits(x) && AllDigits(y)
    ensures AllDigits(x + y)
    ensures DecimalValue(x + y) == DecimalValue(x) * Pow10(|y|) + DecimalValue(y)
  {
    if y == [] {
      assert x + y == x;
    } else {
      var y' := y[..|y| - 1];
      var xy := x + y;
      assert xy[..|xy| - 1] == x + y';
      assert xy[|xy| - 1] == y[|y| - 1];
      DecimalValueConcat(x, y');
      assert DecimalValue(xy) == DecimalValue(x + y') * 10 + DigitValue(y[|y| - 1]);
      assert DecimalValue(y) == DecimalValue(y') * 10 + DigitValue(y[|y| - 1]);
      ShiftDecimal(DecimalValue(x), Pow10(|y'|), DecimalValue(y'), DigitValue(y[|y| - 1]));
    }
  }

  lemma ShiftDecimal(vx: int, p: int, vy: int, c: int)
    ensures (vx * p + vy) * 10 + c == vx * (10 * p) + (vy * 10 + c)
  {
  }

  /** Leading zeros do not change the value. */
  lemma LeadingZero(d: string)
    requires AllDigits(d)
    ensures AllDigits("0" + d)
    ensures DecimalValue("0" + d) == DecimalValue(d)
  {
    DecimalValueConcat("0", d);
    assert "0"[..0] == "";
  }

  /**
   * Digit groups separated by other characters concatenate: the digits of
   * `b` are appended to those of `a`.
   */
  lemma ParseDigitsConcat(a: string, b: string)
    ensures ParseDigits(a + b) == ParseDigits(a) * Pow10(|OnlyDigits(b)|) + ParseDigits(b)
  {
    OnlyDigitsConcat(a, b);
    DecimalValueConcat(OnlyDigits(a), OnlyDigits(b));
  }

  /** "18,000" reads as 18000 and "007" as 7. */
  lemma ParseDigitsExamples()
    ensures ParseDigits("18,000") == 18000
    ensures ParseDigits("007") == 7
    ensures ParseDigits("") == 0
  {
    assert OnlyDigits("18,000") == "18000";
    assert "1"[..0] == "" && DecimalValue("1") == 1;
    assert "18"[..1] == "1" && DecimalValue("18") == 18;
    assert "180"[..2] == "18" && DecimalValue("180") == 180;
    assert "1800"[..3] == "180" && DecimalValue("1800") == 1800;
    assert "18000"[..4] == "1800" && DecimalValue("18000") == 18000;
    assert OnlyDigits("007") == "007";
    var z := "007";
    assert z[..2] == "00" && z[..2][..1] == "0" && z[..2][..1][..0] == "";
  }

  /** The decimal numeral of `n`, most significant digit first ("0" for 0). */
  function Numeral(n: nat): (d: string)
    ensures AllDigits(d) && |d| >= 1
    decreases n
  {
    var last := ['0' + (n % 10) as char];
    if n < 10 then last else Numeral(n / 10) + last
  }

  /** Reading a numeral back gives the number: parseDigits inverts Numeral. */
  lemma {:induction false} ParseNumeral(n: nat)
    ensures ParseDigits(Numeral(n)) == n
    decreases n
  {
    var d := Numeral(n);
    ParseDigitsOfDigits(d);
    if n >= 10 {
      ParseNumeral(n / 10);
      ParseDigitsOfDigits(Numeral(n / 10));
      assert d[..|d| - 1] == Numeral(n / 10);
    }
  }
}
