/**
 * The "next hold available in" countdown of `useNextMidnightCountdown`: the
 * seconds left until local midnight, split into hours, minutes and seconds,
 * each written with `toString().padStart(2, '0')` and joined by colons.
 */
module Countdown {
  import opened Wrappers
  import opened Clock

  predicate IsDigit(c: char) {
    '0' <= c <= '9'
  }

  predicate AllDigits(s: string) {
    forall i :: 0 <= i < |s| ==> IsDigit(s[i])
  }

  function DigitChar(d: nat): (c: char)
    requires d < 10
    ensures IsDigit(c)
  {
    ('0' as int + d) as char
  }

  function DigitValue(c: char): (d: nat)
    requires IsDigit(c)
    ensures d < 10 && DigitChar(d) == c
  {
    c as int - '0' as int
  }

  /** `n.toString()` for a non-negative integer: its decimal digits, most significant first. */
  function Decimal(n: nat): (r: string)
    ensures 1 <= |r| && AllDigits(r)
    ensures n < 10 <==> |r| == 1
    ensures 10 <= n < 100 <==> |r| == 2
    ensures r[0] == '0' ==> n == 0
  {
    if n < 10 then [DigitChar(n)] else Decimal(n / 10) + [DigitChar(n % 10)]
  }

  /** The number a string of decimal digits denotes (leading zeros allowed). */
  function ValueOf(s: string): nat
    requires AllDigits(s)
  {
    if s == [] then 0 else ValueOf(s[..|s| - 1]) * 10 + DigitValue(s[|s| - 1])
  }

  /** `toString` and reading the digits back are inverse. */
  lemma {:induction false} DecimalRoundTrip(n: nat)
    ensures ValueOf(Decimal(n)) == n
  {
    if n >= 10 {
      var r := Decimal(n);
      assert r[..|r| - 1] == Decimal(n / 10);
      DecimalRoundTrip(n / 10);
    }
  }

  /** JavaScript's `s.padStart(width, fill)` for a one-character `fill`. */
  function PadStart(s: string, width: nat, fill: char): (r: string)
    ensures |r| == if |s| >= width then |s| else width
    ensures r[|r| - |s|..] == s
    ensures forall i :: 0 <= i < |r| - |s| ==> r[i] == fill
  {
    if |s| >= width then s else seq(width - |s|, _ => fill) + s
  }

  /** The source's `pad`: `n.toString().padStart(2, '0')`. */
  function Pad(n: nat): (r: string)
    ensures AllDigits(r)
    ensures n < 100 <==> |r| == 2
    ensures |r| >= 2
  {
    PadStart(Decimal(n), 2, '0')
  }

  /** Below 100 the padded field is exactly the tens digit followed by the units digit. */
  lemma PadTwoDigits(n: nat)
    requires n < 100
    ensures Pad(n) == [DigitChar(n / 10), DigitChar(n % 10)]
  {
    if n >= 10 {
      assert Decimal(n) == Decimal(n / 10) + [DigitChar(n % 10)];
    }
  }

  /** Hours, minutes and seconds of a duration. */
  datatype Hms = Hms(hours: nat, minutes: nat, seconds: nat)

  /** `Math.floor(d / 3600)`, `Math.floor((d % 3600) / 60)` and `d % 60`, for `d >= 0`. */
  function Split(d: nat): (r: Hms)
    ensures r.hours * 3600 + r.minutes * 60 + r.seconds == d
    ensures r.minutes < 60 && r.seconds < 60
    ensures d <= DAY_SECONDS ==> r.hours <= 24
  {
    var rest := d % 3600;
    assert rest % 60 == d % 60 by {
      assert d == (d / 3600) * 3600 + rest;
      assert d == ((d / 3600) * 60 + rest / 60) * 60 + rest % 60;
    }
    Hms(d / 3600, rest / 60, d % 60)
  }

  /** A decomposition with minutes and seconds below 60 is the one `Split` computes. */
  lemma SplitUnique(d: nat, h: nat, m: nat, s: nat)
    requires h * 3600 + m * 60 + s == d && m < 60 && s < 60
    ensures Split(d) == Hms(h, m, s)
  {
    var r := Split(d);
    assert r.minutes * 60 + r.seconds < 3600;
    assert m * 60 + s < 3600;
    assert r.hours == h;
    assert r.minutes * 60 + r.seconds == m * 60 + s;
    assert r.minutes == m;
  }

  /** The displayed `HH:MM:SS` string for a duration of `d` seconds. */
  function Format(d: nat): (r: string)
    ensures d < 100 * 3600 ==> WellFormed(r)
  {
    var t := Split(d);
    var r := Join(Pad(t.hours), Pad(t.minutes), Pad(t.seconds));
    if d < 100 * 3600 then
      JoinWellFormed(Pad(t.hours), Pad(t.minutes), Pad(t.seconds));
      r
    else r
  }

  /** Three two-digit fields joined by colons form a well-formed countdown. */
  lemma JoinWellFormed(h: string, m: string, s: string)
    requires |h| == 2 && |m| == 2 && |s| == 2
    requires AllDigits(h) && AllDigits(m) && AllDigits(s)
    ensures WellFormed(Join(h, m, s))
  {
  }

  /** `${h}:${m}:${s}`. */
  function Join(h: string, m: string, s: string): (r: string)
    ensures |h| == 2 && |m| == 2 && |s| == 2 ==>
      r == [h[0], h[1], ':', m[0], m[1], ':', s[0], s[1]]
  {
    h + ":" + m + ":" + s
  }

  /** The countdown the page shows at `now`. */
  function MidnightCountdown(now: Instant): (r: string)
    ensures WellFormed(r)
    ensures Parse(r) == Some(SecondsUntilMidnight(now))
  {
    FormatParse(SecondsUntilMidnight(now));
    Format(SecondsUntilMidnight(now))
  }

  /** Eight characters: two digits, a colon, two digits, a colon, two digits. */
  predicate WellFormed(s: string) {
    && |s| == 8 && s[2] == ':' && s[5] == ':'
    && IsDigit(s[0]) && IsDigit(s[1]) && IsDigit(s[3])
    && IsDigit(s[4]) && IsDigit(s[6]) && IsDigit(s[7])
  }

  /** The number a two-digit field denotes. */
  function Field(hi: char, lo: char): (n: nat)
    requires IsDigit(hi) && IsDigit(lo)
    ensures n < 100
  {
    DigitValue(hi) * 10 + DigitValue(lo)
  }

  /** Reads an `HH:MM:SS` string back into a number of seconds; `None` when it is not of that shape. */
  function Parse(s: string): (r: Option<nat>)
    ensures r.Some? <==> WellFormed(s)
  {
    if WellFormed(s)
    then Some(Field(s[0], s[1]) * 3600 + Field(s[3], s[4]) * 60 + Field(s[6], s[7]))
    else None
  }

  /** Reading a padded field back gives the number it was printed from. */
  lemma FieldOfPad(n: nat)
    requires n < 100
    ensures |Pad(n)| == 2 && Field(Pad(n)[0], Pad(n)[1]) == n
  {
    PadTwoDigits(n);
  }

  /** Every two-digit field is the padded form of the number it denotes. */
  lemma PadOfField(hi: char, lo: char)
    requires IsDigit(hi) && IsDigit(lo)
    ensures Pad(Field(hi, lo)) == [hi, lo]
  {
    var a, b := DigitValue(hi), DigitValue(lo);
    TensAndUnits(a, b);
    PadTwoDigits(a * 10 + b);
  }

  lemma TensAndUnits(a: nat, b: nat)
    requires a < 10 && b < 10
    ensures (a * 10 + b) / 10 == a && (a * 10 + b) % 10 == b
  {
  }

  /** Formatting then parsing gives back the duration, for every duration under 100 hours. */
  lemma FormatParse(d: nat)
    requires d < 100 * 3600
    ensures Parse(Format(d)) == Some(d)
  {
    var t := Split(d);
    assert t.hours < 100;
    var h, m, s := Pad(t.hours), Pad(t.minutes), Pad(t.seconds);
    assert Format(d) == Join(h, m, s);
    FieldOfPad(t.hours);
    FieldOfPad(t.minutes);
    FieldOfPad(t.seconds);
    ParseJoin(h, m, s);
  }

  /** Parsing joined fields reads each field back. */
  lemma ParseJoin(h: string, m: string, s: string)
    requires |h| == 2 && |m| == 2 && |s| == 2
    requires AllDigits(h) && AllDigits(m) && AllDigits(s)
    ensures Parse(Join(h, m, s)) == Some(Field(h[0], h[1]) * 3600 + Field(m[0], m[1]) * 60 + Field(s[0], s[1]))
  {
    JoinWellFormed(h, m, s);
  }

  /**
   * Conversely, a well-formed countdown whose minute and second fields are
   * below 60 is exactly what `Format` prints for the value it denotes.
   */
  lemma ParseFormat(s: string, d: nat)
    requires Parse(s) == Some(d)
    requires Field(s[3], s[4]) < 60 && Field(s[6], s[7]) < 60
    ensures Format(d) == s
  {
    SplitUnique(d, Field(s[0], s[1]), Field(s[3], s[4]), Field(s[6], s[7]));
    PadOfField(s[0], s[1]);
    PadOfField(s[3], s[4]);
    PadOfField(s[6], s[7]);
    FieldsJoin(s);
  }

  /** A well-formed countdown is its three fields joined by colons. */
  lemma FieldsJoin(s: string)
    requires WellFormed(s)
    ensures s == Join([s[0], s[1]], [s[3], s[4]], [s[6], s[7]])
  {
  }

  /** One second before midnight the page reads `00:00:01`. */
  lemma OneSecondLeft(day: int)
    ensures MidnightCountdown(Instant(day, 86399)) == "00:00:01"
  {
    ParseFormat("00:00:01", 1);
  }

  /** At exactly midnight the next reset is a full day away and the page reads `24:00:00`. */
  lemma AtMidnight(day: int)
    ensures MidnightCountdown(Instant(day, 0)) == "24:00:00"
  {
    ParseFormat("24:00:00", 86400);
  }

  /** One second after midnight the page reads `23:59:59`. */
  lemma OneSecondPastMidnight(day: int)
    ensures MidnightCountdown(Instant(day, 1)) == "23:59:59"
  {
    ParseFormat("23:59:59", 86399);
  }
}
