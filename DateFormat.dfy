/**
 * The `dd/mm/yyyy` validator of the request handler: the PCRE pattern
 *   ^(0[1-9]|[12][0-9]|3[01])\/(0[1-9]|1[0-2])\/\d{4}$
 * as PHP's preg_match applies it, together with an independent numeric
 * reading of the same shape (a day 1..31, a month 1..12 and a year of
 * exactly four digits) and the proofs that the two agree.
 */
module DateFormat {

  /** What PCRE's `\d` matches when the pattern has no `u` modifier: an ASCII digit. */
  predicate IsDigit(c: char) {
    '0' <= c <= '9'
  }

  function DigitValue(c: char): (n: nat)
    requires IsDigit(c)
    ensures n < 10
  {
    c as int - '0' as int
  }

  function DigitChar(n: nat): (c: char)
    requires n < 10
    ensures IsDigit(c) && DigitValue(c) == n
  {
    ('0' as int + n) as char
  }

  predicate AllDigits(s: string) {
    forall i | 0 <= i < |s| :: IsDigit(s[i])
  }

  function Pow10(w: nat): (p: nat)
    ensures p >= 1
  {
    if w == 0 then 1 else 10 * Pow10(w - 1)
  }

  /** The decimal value of a string of digits, most significant digit first. */
  function Number(s: string): (n: nat)
    requires AllDigits(s)
    ensures n < Pow10(|s|)
  {
    if s == [] then 0 else 10 * Number(s[..|s| - 1]) + DigitValue(s[|s| - 1])
  }

  /** `n` written with exactly `w` decimal digits, padded with leading zeros. */
  function Digits(n: nat, w: nat): (s: string)
    ensures |s| == w && AllDigits(s)
  {
    if w == 0 then [] else Digits(n / 10, w - 1) + [DigitChar(n % 10)]
  }

  lemma {:induction false} NumberOfDigits(n: nat, w: nat)
    requires n < Pow10(w)
    ensures Number(Digits(n, w)) == n
  {
    if w > 0 {
      var t := Digits(n / 10, w - 1);
      NumberOfDigits(n / 10, w - 1);
      assert (t + [DigitChar(n % 10)])[..w - 1] == t;
    }
  }

  lemma {:induction false} DigitsOfNumber(s: string)
    requires AllDigits(s)
    ensures Digits(Number(s), |s|) == s
  {
    if s != [] {
      var p := s[..|s| - 1];
      DigitsOfNumber(p);
      assert Number(s) / 10 == Number(p) && Number(s) % 10 == DigitValue(s[|s| - 1]);
      assert s == p + [s[|s| - 1]];
    }
  }

  // ---- The pattern, alternative by alternative --------------------------------

  /** `(0[1-9]|[12][0-9]|3[01])` on the two characters `a b`. */
  predicate DayAlternatives(a: char, b: char) {
    || (a == '0' && '1' <= b <= '9')
    || ((a == '1' || a == '2') && IsDigit(b))
    || (a == '3' && (b == '0' || b == '1'))
  }

  /** `(0[1-9]|1[0-2])` on the two characters `a b`. */
  predicate MonthAlternatives(a: char, b: char) {
    || (a == '0' && '1' <= b <= '9')
    || (a == '1' && '0' <= b <= '2')
  }

  /** The pattern when `^` anchors at the start and `$` only at the very end of `s`. */
  predicate MatchesExactly(s: string) {
    && |s| == 10
    && DayAlternatives(s[0], s[1]) && s[2] == '/'
    && MonthAlternatives(s[3], s[4]) && s[5] == '/'
    && IsDigit(s[6]) && IsDigit(s[7]) && IsDigit(s[8]) && IsDigit(s[9])
  }

  /**
   * preg_match of the pattern. Without the `D` modifier PCRE's `$` also
   * matches just before a newline that is the last character of the subject,
   * so one trailing "\n" is accepted as well: a subject matches when the
   * anchored pattern matches it, or matches what is left of it once its final
   * newline is taken off.
   */
  predicate PregMatch(s: string): (b: bool)
    ensures b <==> MatchesExactly(s) || exists t :: s == t + "\n" && MatchesExactly(t)
  {
    assert |s| == 11 && s[10] == '\n' ==> s == s[..10] + "\n";
    || MatchesExactly(s)
    || (|s| == 11 && s[10] == '\n' && MatchesExactly(s[..10]))
  }

  // ---- The same shape as numbers --------------------------------------------

  /** `dd/mm/yyyy` read as numbers: day 01..31, month 01..12, any four-digit year. */
  predicate IsDayMonthYear(s: string) {
    && |s| == 10 && s[2] == '/' && s[5] == '/'
    && AllDigits(s[0..2]) && AllDigits(s[3..5]) && AllDigits(s[6..10])
    && 1 <= Number(s[0..2]) <= 31
    && 1 <= Number(s[3..5]) <= 12
  }

  /** The text `dd/mm/yyyy` for a day, a month and a year, each padded with zeros. */
  function Spell(d: nat, m: nat, y: nat): (s: string)
    requires d < 100 && m < 100 && y < 10000
    ensures |s| == 10 && s[2] == '/' && s[5] == '/'
    ensures s[0..2] == Digits(d, 2) && s[3..5] == Digits(m, 2) && s[6..10] == Digits(y, 4)
  {
    Digits(d, 2) + "/" + Digits(m, 2) + "/" + Digits(y, 4)
  }

  lemma NumberOfPair(s: string)
    requires |s| == 2 && AllDigits(s)
    ensures Number(s) == 10 * DigitValue(s[0]) + DigitValue(s[1])
  {
  }

  lemma DayAlternativesAreOneToThirtyOne(a: char, b: char)
    ensures DayAlternatives(a, b) <==> IsDigit(a) && IsDigit(b) && 1 <= 10 * DigitValue(a) + DigitValue(b) <= 31
  {
  }

  lemma MonthAlternativesAreOneToTwelve(a: char, b: char)
    ensures MonthAlternatives(a, b) <==> IsDigit(a) && IsDigit(b) && 1 <= 10 * DigitValue(a) + DigitValue(b) <= 12
  {
  }

  /** The pattern accepts exactly the strings that read as day 1..31 / month 1..12 / four-digit year. */
  lemma PatternIsDayMonthYear(s: string)
    ensures MatchesExactly(s) <==> IsDayMonthYear(s)
  {
    if |s| == 10 {
      DayAlternativesAreOneToThirtyOne(s[0], s[1]);
      MonthAlternativesAreOneToTwelve(s[3], s[4]);
      var day, month := s[0..2], s[3..5];
      if AllDigits(day) { NumberOfPair(day); }
      if AllDigits(month) { NumberOfPair(month); }
      assert AllDigits(s[6..10]) <==> IsDigit(s[6]) && IsDigit(s[7]) && IsDigit(s[8]) && IsDigit(s[9]) by {
        assert forall i | 0 <= i < 4 :: s[6..10][i] == s[6 + i];
      }
    }
  }

  /**
   * Spelling a day, a month and a year (day and month below 100, year below
   * 10000) gives a string the pattern accepts exactly when the day is in
   * 1..31 and the month in 1..12: day 00 and days 32..99, month 00 and
   * months 13..99 are rejected, and every year 0000..9999 is accepted.
   */
  lemma SpelledDateMatches(d: nat, m: nat, y: nat)
    requires d < 100 && m < 100 && y < 10000
    ensures MatchesExactly(Spell(d, m, y)) <==> 1 <= d <= 31 && 1 <= m <= 12
  {
    var s := Spell(d, m, y);
    PatternIsDayMonthYear(s);
    NumberOfDigits(d, 2);
    NumberOfDigits(m, 2);
  }

  /** Every string the pattern accepts is the spelling of its own day, month and year. */
  lemma MatchIsSpelled(s: string)
    requires MatchesExactly(s)
    ensures IsDayMonthYear(s) && Number(s[6..10]) < 10000
    ensures s == Spell(Number(s[0..2]), Number(s[3..5]), Number(s[6..10]))
  {
    PatternIsDayMonthYear(s);
    var day, month, year := s[0..2], s[3..5], s[6..10];
    DigitsOfNumber(day);
    DigitsOfNumber(month);
    DigitsOfNumber(year);
    var t := Spell(Number(day), Number(month), Number(year));
    assert t[0..2] == day && t[3..5] == month && t[6..10] == year;
    assert forall i | 0 <= i < 10 :: s[i] == t[i] by {
      forall i | 0 <= i < 10 ensures s[i] == t[i] {
        if i < 2 { assert s[i] == day[i] && t[i] == t[0..2][i]; }
        else if 3 <= i < 5 { assert s[i] == month[i - 3] && t[i] == t[3..5][i - 3]; }
        else if 6 <= i { assert s[i] == year[i - 6] && t[i] == t[6..10][i - 6]; }
      }
    }
  }

  /** The pattern accepts `s` exactly when it is `dd/mm/yyyy` for some day 1..31, month 1..12, year 0..9999. */
  lemma MatchesExactlyIffSpelled(s: string)
    ensures MatchesExactly(s) <==>
      exists d: nat, m: nat, y: nat :: 1 <= d <= 31 && 1 <= m <= 12 && y < 10000 && s == Spell(d, m, y)
  {
    if MatchesExactly(s) {
      MatchIsSpelled(s);
      var d, m, y := Number(s[0..2]), Number(s[3..5]), Number(s[6..10]);
      assert 1 <= d <= 31 && 1 <= m <= 12 && y < 10000 && s == Spell(d, m, y);
    }
    if exists d: nat, m: nat, y: nat :: 1 <= d <= 31 && 1 <= m <= 12 && y < 10000 && s == Spell(d, m, y) {
      var d: nat, m: nat, y: nat :| 1 <= d <= 31 && 1 <= m <= 12 && y < 10000 && s == Spell(d, m, y);
      SpelledDateMatches(d, m, y);
    }
  }

  /**
   * What preg_match accepts, with the `$` quirk: an accepted subject is a
   * `dd/mm/yyyy` date, optionally followed by one final newline and nothing else.
   */
  lemma PregMatchShape(s: string)
    ensures PregMatch(s) <==>
      || IsDayMonthYear(s)
      || (|s| == 11 && s[10] == '\n' && IsDayMonthYear(s[..10]))
  {
    PatternIsDayMonthYear(s);
    if |s| >= 10 { PatternIsDayMonthYear(s[..10]); }
  }

  /** A date followed by one newline is accepted exactly when the date is; a second newline is not. */
  lemma TrailingNewline(s: string)
    ensures PregMatch(s + "\n") <==> MatchesExactly(s)
    ensures !PregMatch(s + "\n\n")
  {
  }

  /** Typical valid and invalid inputs. */
  lemma SampleDates()
    ensures PregMatch("27/07/2025")
    ensures PregMatch("31/02/2025")
    ensures PregMatch("01/01/0000")
    ensures !PregMatch("2025-07-27")
    ensures !PregMatch("32/01/2025")
    ensures !PregMatch("01/13/2025")
    ensures !PregMatch("1/1/2025")
    ensures !PregMatch("01/01/25")
    ensures !PregMatch("01/01/20250")
  {
  }
}
