/** Wall-clock times: the "HH:MM" strings the tasks carry and the minute
    counts the placement engines compute with. */
module Clock {

  predicate IsDigit(c: char) { '0' <= c <= '9' }

  function DigitValue(c: char): (d: nat)
    requires IsDigit(c)
    ensures d < 10
  {
    (c as int) - ('0' as int)
  }

  function DigitChar(d: nat): (c: char)
    requires d < 10
    ensures IsDigit(c) && DigitValue(c) == d
  {
    (('0' as int) + d) as char
  }

  /** The number two decimal digits spell, as `Number("07")` reads it. */
  function TwoDigits(a: char, b: char): nat
    requires IsDigit(a) && IsDigit(b)
  {
    10 * DigitValue(a) + DigitValue(b)
  }

  /** A zero-padded 24-hour wall-clock time "HH:MM". */
  predicate IsTime(s: string)
  {
    |s| == 5 && IsDigit(s[0]) && IsDigit(s[1]) && s[2] == ':' && IsDigit(s[3]) && IsDigit(s[4]) &&
    TwoDigits(s[0], s[1]) < 24 && TwoDigits(s[3], s[4]) < 60
  }

  /** `timeToMinutes` (and `toMinutes` in the main screen): split at ':' and
      compute hours * 60 + minutes; a well-formed time lies within one day. */
  function TimeToMinutes(s: string): (m: int)
    requires IsTime(s)
    ensures 0 <= m < 24 * 60
  {
    TwoDigits(s[0], s[1]) * 60 + TwoDigits(s[3], s[4])
  }

  /** Decimal digits of a natural number, without leading zeros. */
  function NatToString(n: nat): (s: string)
    ensures |s| >= 1
    ensures forall k :: 0 <= k < |s| ==> IsDigit(s[k])
  {
    if n < 10 then [DigitChar(n)] else NatToString(n / 10) + [DigitChar(n % 10)]
  }

  /** `String(n)` for an integer `n`. */
  function IntToString(n: int): string
  {
    if n < 0 then "-" + NatToString(-n) else NatToString(n)
  }

  /** `s.padStart(2, "0")`. */
  function PadStart2(s: string): (r: string)
    ensures |r| >= 2
  {
    if |s| >= 2 then s else if |s| == 1 then "0" + s else "00"
  }

  /** JavaScript's `%` on integers: the remainder takes the sign of the dividend. */
  function JsRemainder(a: int, b: int): int
    requires b > 0
  {
    if a >= 0 then a % b else -((-a) % b)
  }

  /** `minutesToTime` (and `toTimeStr` in the main screen):
      `Math.floor(m / 60)` and `m % 60`, each padded to two characters.
      Dafny's `/` by a positive divisor rounds down, as `Math.floor` does. */
  function MinutesToTime(m: int): string
  {
    PadStart2(IntToString(m / 60)) + ":" + PadStart2(IntToString(JsRemainder(m, 60)))
  }

  /** Below 100 the padded decimal form is exactly two digits. */
  lemma TwoDigitForm(n: nat)
    requires n < 100
    ensures PadStart2(IntToString(n)) == [DigitChar(n / 10), DigitChar(n % 10)]
  {
    if n < 10 {
      assert IntToString(n) == [DigitChar(n)];
    } else {
      assert NatToString(n / 10) == [DigitChar(n / 10)];
    }
  }

  /** Formatting a minute of the day gives a well-formed time that parses back to it. */
  lemma FormatThenParse(m: int)
    requires 0 <= m < 24 * 60
    ensures IsTime(MinutesToTime(m))
    ensures TimeToMinutes(MinutesToTime(m)) == m
  {
    TwoDigitForm(m / 60);
    TwoDigitForm(m % 60);
    var s := MinutesToTime(m);
    assert s == [DigitChar(m / 60 / 10), DigitChar(m / 60 % 10), ':', DigitChar(m % 60 / 10), DigitChar(m % 60 % 10)];
    assert TwoDigits(s[0], s[1]) == m / 60;
    assert TwoDigits(s[3], s[4]) == m % 60;
  }

  /** Parsing a well-formed time and formatting the result gives the same string. */
  lemma ParseThenFormat(s: string)
    requires IsTime(s)
    ensures MinutesToTime(TimeToMinutes(s)) == s
  {
    var h, mm := TwoDigits(s[0], s[1]), TwoDigits(s[3], s[4]);
    var m := TimeToMinutes(s);
    assert m / 60 == h && m % 60 == mm;
    TwoDigitForm(h);
    TwoDigitForm(mm);
    assert DigitChar(h / 10) == s[0] && DigitChar(h % 10) == s[1];
    assert DigitChar(mm / 10) == s[3] && DigitChar(mm % 10) == s[4];
  }

  /** Lexicographic order on character codes, the order `localeCompare`
      gives strings made of ASCII digits and ':'. */
  predicate LexLess(a: string, b: string)
  {
    if a == [] then b != []
    else b != [] && (a[0] < b[0] || (a[0] == b[0] && LexLess(a[1..], b[1..])))
  }

  /** On well-formed times, comparing the strings and comparing the minute
      counts agree, so sorting by `localeCompare` is sorting by minutes. */
  lemma {:induction false} LexLessIsMinuteOrder(a: string, b: string)
    requires IsTime(a) && IsTime(b)
    ensures LexLess(a, b) <==> TimeToMinutes(a) < TimeToMinutes(b)
  {
    var a1, b1 := a[1..], b[1..];
    var a3, b3 := a1[1..][1..], b1[1..][1..];
    assert a1[0] == a[1] && b1[0] == b[1] && a1[1..][0] == a[2] && b1[1..][0] == b[2];
    assert a3[0] == a[3] && b3[0] == b[3] && a3[1..][0] == a[4] && b3[1..][0] == b[4];
    assert a3[1..][1..] == [] && b3[1..][1..] == [];
    assert LexLess(a3[1..], b3[1..]) <==> a[4] < b[4];
    assert LexLess(a3, b3) <==> a[3] < b[3] || (a[3] == b[3] && a[4] < b[4]);
    assert LexLess(a1[1..], b1[1..]) <==> LexLess(a3, b3);
  }
}
