/**
 * The recording timer readout: elapsed milliseconds shown as `mm:ss`.
 *
 * main.js computes `seconds = Math.floor(elapsed / 1000)`,
 * `minutes = Math.floor(seconds / 60)`, `remainingSeconds = seconds % 60`
 * and writes each field with `toString().padStart(2, '0')`, joined by ':'.
 * Elapsed time is an integer number of milliseconds (a difference of two
 * `Date.now()` values), so it may be any integer; the JavaScript operators
 * are modelled as JavaScript evaluates them, negative operands included.
 */
module Readout {
  import opened Wrappers

  /** The text the stop handler writes into the timer element. */
  const ResetText: string := "00:00"

  predicate IsDigit(c: char) {
    '0' <= c <= '9'
  }

  predicate AllDigits(s: string) {
    forall i :: 0 <= i < |s| ==> IsDigit(s[i])
  }

  function DigitChar(d: nat): (c: char)
    requires d < 10
    ensures IsDigit(c) && c as int - '0' as int == d
  {
    (d + '0' as int) as char
  }

  /** Decimal digits of `n`, most significant first, with no leading zero. */
  function NatToDecimal(n: nat): (r: string)
    ensures AllDigits(r) && |r| >= 1
  {
    if n < 10 then [DigitChar(n)] else NatToDecimal(n / 10) + [DigitChar(n % 10)]
  }

  /** `Number.prototype.toString()` of an integer: a '-' then the digits of its magnitude. */
  function IntToString(n: int): string
  {
    if n < 0 then "-" + NatToDecimal(-n) else NatToDecimal(n)
  }

  /** The number a string of decimal digits denotes; the inverse of NatToDecimal. */
  function DecimalValue(s: string): nat
    requires AllDigits(s)
  {
    if |s| == 0 then 0
    else DecimalValue(s[..|s| - 1]) * 10 + (s[|s| - 1] as int - '0' as int)
  }

  /** `n` copies of `c`. */
  function Fill(n: nat, c: char): (r: string)
    ensures |r| == n && forall i :: 0 <= i < n ==> r[i] == c
  {
    seq(n, _ => c)
  }

  function Zeros(n: nat): (z: string)
    ensures |z| == n && AllDigits(z)
  {
    Fill(n, '0')
  }

  /** `String.prototype.padStart(width, c)` with a one-character filler. */
  function PadStart(s: string, width: nat, c: char): (r: string)
    ensures |r| == if |s| >= width then |s| else width
    ensures r[|r| - |s|..] == s
    ensures forall i :: 0 <= i < |r| - |s| ==> r[i] == c
  {
    if |s| >= width then s else Fill(width - |s|, c) + s
  }

  /** Integer division truncated toward zero, the quotient JavaScript's `%` goes with. */
  function TruncDiv(a: int, b: int): int
    requires b > 0
  {
    if a >= 0 then a / b else -((-a) / b)
  }

  /** JavaScript's `%` on integers: the remainder of division truncated toward zero. */
  function JsRem(a: int, b: int): (r: int)
    requires b > 0
    ensures -b < r < b
    ensures a >= 0 ==> r >= 0
    ensures a < 0 ==> r <= 0
  {
    if a >= 0 then a % b else -((-a) % b)
  }

  /** JsRem is what is left after taking away the truncated quotient, with the dividend's sign. */
  lemma JsRemTruncates(a: int, b: int)
    requires b > 0
    ensures a == b * TruncDiv(a, b) + JsRem(a, b)
    ensures a >= 0 ==> JsRem(a, b) == a % b
  {
  }

  /** The two numbers the readout shows: whole minutes and the seconds past them. */
  function Fields(elapsed: int): (f: (int, int))
  {
    // Math.floor(x / 1000): Dafny's division by a positive divisor rounds down, too
    var seconds := elapsed / 1000;
    (seconds / 60, JsRem(seconds, 60))
  }

  /** One field of the readout: the number's text, padded with '0' to two characters. */
  function Field(n: int): string
  {
    PadStart(IntToString(n), 2, '0')
  }

  /** The text the timer interval writes for `elapsed` milliseconds. */
  function Format(elapsed: int): string
  {
    Field(Fields(elapsed).0) + ":" + Field(Fields(elapsed).1)
  }

  /**
   * Reads a readout back: a ':' three characters from the end, digits on
   * both sides, at least two of them before it and a seconds field below 60;
   * yields the whole seconds it stands for.
   */
  function Parse(text: string): (r: Option<nat>)
    ensures r.Some? ==> |text| >= 5 && text[|text| - 3] == ':'
  {
    if |text| < 5 || text[|text| - 3] != ':' then None
    else ParseFieldTexts(text[..|text| - 3], text[|text| - 2..])
  }

  /** The whole seconds a minutes text and a seconds text stand for, if both are digits and seconds < 60. */
  function ParseFieldTexts(mm: string, ss: string): Option<nat>
  {
    if !AllDigits(mm) || !AllDigits(ss) || DecimalValue(ss) >= 60 then None
    else Some(DecimalValue(mm) * 60 + DecimalValue(ss))
  }

  /** One digit below 10, at most two below 100, and no leading zero. */
  lemma {:induction false} DecimalLength(n: nat)
    ensures |NatToDecimal(n)| == 1 <==> n < 10
    ensures |NatToDecimal(n)| <= 2 <==> n < 100
    ensures NatToDecimal(n)[0] == '0' ==> n == 0
  {
    if n >= 10 {
      DecimalLength(n / 10);
    }
  }

  lemma {:induction false} DecimalRoundTrip(n: nat)
    ensures DecimalValue(NatToDecimal(n)) == n
  {
    if n >= 10 {
      DecimalRoundTrip(n / 10);
      var r := NatToDecimal(n);
      assert r[..|r| - 1] == NatToDecimal(n / 10);
    }
  }

  /**
   * The text of an integer: its digits read back as its magnitude, with a
   * single '-' in front exactly when it is negative.
   */
  lemma IntToStringValue(n: int)
    ensures |IntToString(n)| >= 1
    ensures IntToString(n)[0] == '-' <==> n < 0
    ensures n >= 0 ==> AllDigits(IntToString(n)) && DecimalValue(IntToString(n)) == n
    ensures n < 0 ==> AllDigits(IntToString(n)[1..]) && DecimalValue(IntToString(n)[1..]) == -n
  {
    if n < 0 {
      assert IntToString(n)[1..] == NatToDecimal(-n);
      DecimalRoundTrip(-n);
    } else {
      DecimalRoundTrip(n);
    }
  }

  lemma {:induction false} ZerosValue(n: nat)
    ensures DecimalValue(Zeros(n)) == 0
  {
    if n > 0 {
      assert Zeros(n)[..n - 1] == Zeros(n - 1);
      ZerosValue(n - 1);
    }
  }

  /** Leading zeros do not change the value of a digit string. */
  lemma {:induction false} LeadingZerosValue(n: nat, s: string)
    requires AllDigits(s)
    ensures AllDigits(Zeros(n) + s)
    ensures DecimalValue(Zeros(n) + s) == DecimalValue(s)
  {
    var t := Zeros(n) + s;
    assert AllDigits(t) by {
      forall i | 0 <= i < |t| ensures IsDigit(t[i]) {
        if i >= n { assert t[i] == s[i - n]; }
      }
    }
    if |s| == 0 {
      assert t == Zeros(n);
      ZerosValue(n);
    } else {
      assert t[..|t| - 1] == Zeros(n) + s[..|s| - 1];
      LeadingZerosValue(n, s[..|s| - 1]);
    }
  }

  /** Padding digits with '0' keeps them digits and keeps their value. */
  lemma PaddedValue(s: string, width: nat)
    requires AllDigits(s)
    ensures AllDigits(PadStart(s, width, '0'))
    ensures DecimalValue(PadStart(s, width, '0')) == DecimalValue(s)
  {
    if |s| < width {
      assert PadStart(s, width, '0') == Zeros(width - |s|) + s;
      LeadingZerosValue(width - |s|, s);
    }
  }

  /**
   * A readout field of a non-negative number: at least two digits, exactly
   * two below 100, reading back as the number.
   */
  lemma NatField(n: nat)
    ensures |Field(n)| >= 2 && AllDigits(Field(n)) && DecimalValue(Field(n)) == n
    ensures |Field(n)| == 2 <==> n < 100
  {
    var d := NatToDecimal(n);
    assert Field(n) == PadStart(d, 2, '0');
    DecimalRoundTrip(n);
    DecimalLength(n);
    PaddedValue(d, 2);
  }

  lemma MinutesOfMilliseconds(elapsed: nat)
    ensures elapsed / 1000 / 60 == elapsed / 60000
  {
    var q, r := elapsed / 60000, elapsed % 60000;
    assert elapsed == 60000 * q + r;
    assert elapsed / 1000 == 60 * q + r / 1000;
  }

  /**
   * For a non-negative elapsed time the minutes field is elapsed / 60000,
   * the seconds field is (elapsed / 1000) % 60, below 60, and together they
   * make up the whole seconds elapsed.
   */
  lemma FieldsOfElapsed(elapsed: int)
    requires elapsed >= 0
    ensures Fields(elapsed).0 == elapsed / 60000
    ensures Fields(elapsed).1 == (elapsed / 1000) % 60
    ensures 0 <= Fields(elapsed).1 < 60
    ensures (elapsed / 60000) * 60 + (elapsed / 1000) % 60 == elapsed / 1000
  {
    MinutesOfMilliseconds(elapsed);
  }

  /** Two digit strings joined by ':', the second of two digits, and the parts read back from it. */
  lemma JoinDigits(mm: string, ss: string)
    requires AllDigits(mm) && AllDigits(ss) && |ss| == 2
    ensures var text := mm + ":" + ss;
      |text| == |mm| + 3 && text[|text| - 3] == ':' &&
      text[..|text| - 3] == mm && text[|text| - 2..] == ss
  {
    var text := mm + ":" + ss;
    assert text[..|text| - 3] == mm;
    assert text[|text| - 2..] == ss;
  }

  /** A minutes field and a seconds field below 60, joined by ':'. */
  lemma FieldsText(minutes: nat, seconds: nat)
    requires seconds < 60
    ensures var text := Field(minutes) + ":" + Field(seconds);
      |text| >= 5 && text[|text| - 3] == ':' &&
      AllDigits(text[..|text| - 3]) && AllDigits(text[|text| - 2..]) &&
      DecimalValue(text[..|text| - 3]) == minutes &&
      DecimalValue(text[|text| - 2..]) == seconds &&
      (minutes < 100 <==> |text| == 5)
  {
    NatField(minutes);
    NatField(seconds);
    JoinDigits(Field(minutes), Field(seconds));
  }

  /** Format unfolded one level; stated as a lemma so callers unfold it only where they need to. */
  lemma FormatFields(elapsed: int)
    ensures Format(elapsed) == Field(Fields(elapsed).0) + ":" + Field(Fields(elapsed).1)
  {
  }

  /**
   * The step towards FormatShape, in terms of Fields: a ':' three places
   * from the end, at least two digits before it that read back as the
   * minutes field, exactly two after it that read back as the seconds field,
   * and five characters while the minutes stay below 100.
   */
  lemma FormatText(elapsed: int)
    requires elapsed >= 0
    ensures var text := Format(elapsed);
      |text| >= 5 && text[|text| - 3] == ':' &&
      AllDigits(text[..|text| - 3]) && AllDigits(text[|text| - 2..]) &&
      DecimalValue(text[..|text| - 3]) == Fields(elapsed).0 &&
      DecimalValue(text[|text| - 2..]) == Fields(elapsed).1 &&
      (Fields(elapsed).0 < 100 <==> |text| == 5)
  {
    FormatFields(elapsed);
    FieldsText(Fields(elapsed).0, Fields(elapsed).1);
  }

  /**
   * The same in the readout's own terms: minutes elapsed / 60000 before the
   * ':', seconds (elapsed / 1000) % 60 after it.
   */
  lemma FormatShape(elapsed: int)
    requires elapsed >= 0
    ensures var text := Format(elapsed);
      |text| >= 5 && text[|text| - 3] == ':' &&
      AllDigits(text[..|text| - 3]) && AllDigits(text[|text| - 2..]) &&
      DecimalValue(text[..|text| - 3]) == elapsed / 60000 &&
      DecimalValue(text[|text| - 2..]) == (elapsed / 1000) % 60 &&
      (elapsed / 60000 < 100 <==> |text| == 5)
  {
    FormatText(elapsed);
    FieldsOfElapsed(elapsed);
  }

  /** Two digit fields joined by ':' read back as the seconds they stand for. */
  lemma ParseJoin(mm: string, ss: string, minutes: nat, seconds: nat)
    requires |mm| >= 2 && |ss| == 2 && AllDigits(mm) && AllDigits(ss)
    requires DecimalValue(mm) == minutes && DecimalValue(ss) == seconds < 60
    ensures Parse(mm + ":" + ss) == Some(minutes * 60 + seconds)
  {
    ParseConcat(mm, ss);
    ParseDigitFields(mm, ss);
  }

  /**
   * Parse splits the text at the ':' three places from the end. This is the
   * else-branch of Parse, stated as a lemma so callers unfold Parse only here.
   */
  lemma ParseSplit(text: string)
    requires |text| >= 5 && text[|text| - 3] == ':'
    ensures Parse(text) == ParseFieldTexts(text[..|text| - 3], text[|text| - 2..])
  {
  }

  /** Joining two fields by ':' and splitting again gives back the fields. */
  lemma ParseConcat(mm: string, ss: string)
    requires |mm| >= 2 && |ss| == 2 && AllDigits(mm) && AllDigits(ss)
    ensures Parse(mm + ":" + ss) == ParseFieldTexts(mm, ss)
  {
    JoinDigits(mm, ss);
    ParseSplit(mm + ":" + ss);
  }

  /** Digit fields with seconds below 60 stand for minutes * 60 + seconds. */
  lemma ParseDigitFields(mm: string, ss: string)
    requires AllDigits(mm) && AllDigits(ss) && DecimalValue(ss) < 60
    ensures ParseFieldTexts(mm, ss) == Some(DecimalValue(mm) * 60 + DecimalValue(ss))
  {
  }

  lemma ParseFields(minutes: nat, seconds: nat)
    requires seconds < 60
    ensures Parse(Field(minutes) + ":" + Field(seconds)) == Some(minutes * 60 + seconds)
  {
    NatField(minutes);
    NatField(seconds);
    ParseJoin(Field(minutes), Field(seconds), minutes, seconds);
  }

  /** Reading a readout back recovers the whole seconds elapsed. */
  lemma ParseFormat(elapsed: int)
    requires elapsed >= 0
    ensures Parse(Format(elapsed)) == Some(elapsed / 1000)
  {
    FieldsOfElapsed(elapsed);
    FormatFields(elapsed);
    ParseFields(Fields(elapsed).0, Fields(elapsed).1);
  }

  /** Two elapsed times in different seconds never show the same text. */
  lemma FormatDistinguishesSeconds(e1: int, e2: int)
    requires e1 >= 0 && e2 >= 0 && e1 / 1000 != e2 / 1000
    ensures Format(e1) != Format(e2)
  {
    ParseFormat(e1);
    ParseFormat(e2);
  }

  /** During the first second the readout shows the same text stopping resets it to. */
  lemma FormatAtStart(elapsed: int)
    requires 0 <= elapsed < 1000
    ensures Format(elapsed) == ResetText
  {
    assert NatToDecimal(0) == "0";
  }
}
