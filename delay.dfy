/**
 * The delay parser of the reminder service: a token such as "30m", "4h" or
 * "2d" becomes the absolute instant, in integer milliseconds since the
 * epoch, at which the reminder falls due.
 *
 * The magnitude is what JavaScript's parseInt(token, 10) reads: optional
 * leading white space, an optional sign, then the longest run of decimal
 * digits. With no digit it is NaN (None here). The last character picks the
 * unit; any other last character, and the empty token, mean 24 hours, and
 * then the magnitude is not used at all. The resulting Date is invalid
 * (None here) when the magnitude was NaN or the instant lies outside the
 * range of JavaScript dates.
 */
module Delay {
  import opened Wrappers

  /** One minute, one hour and one day, in ms. */
  const MinuteMs: int := 60_000
  const HourMs: int := 3_600_000
  const DayMs: int := 86_400_000

  /** The largest distance from the epoch, in ms, that a JavaScript Date can hold. */
  const MaxTimeMs: int := 8_640_000_000_000_000

  // ---------------------------------------------------------------------------
  // parseInt(s, 10)
  // ---------------------------------------------------------------------------

  /** The characters JavaScript's parseInt skips before the number. */
  predicate IsWhiteSpace(c: char)
  {
    c == ' ' || '\t' <= c <= '\r' ||
    ('\U{A0}' <= c &&
     (c == '\U{A0}' || c == '\U{1680}' || '\U{2000}' <= c <= '\U{200A}' ||
      c == '\U{2028}' || c == '\U{2029}' || c == '\U{202F}' || c == '\U{205F}' ||
      c == '\U{3000}' || c == '\U{FEFF}'))
  }

  predicate IsDigit(c: char)
  {
    '0' <= c <= '9'
  }

  predicate AllDigits(s: string)
  {
    forall i :: 0 <= i < |s| ==> IsDigit(s[i])
  }

  function DigitValue(c: char): (d: nat)
    requires IsDigit(c)
    ensures d < 10
  {
    c as int - '0' as int
  }

  function DigitChar(d: nat): (c: char)
    requires d < 10
    ensures IsDigit(c) && DigitValue(c) == d
  {
    ('0' as int + d) as char
  }

  /** The decimal rendering of n, without leading zeros. */
  function Decimal(n: nat): (s: string)
    ensures |s| > 0 && AllDigits(s)
    ensures s[0] != '0' || n == 0
  {
    if n < 10 then [DigitChar(n)] else Decimal(n / 10) + [DigitChar(n % 10)]
  }

  /** s without its leading white space. */
  function TrimStart(s: string): (t: string)
    ensures |t| <= |s| && t == s[|s| - |t|..]
    ensures t == [] || !IsWhiteSpace(t[0])
  {
    if s != [] && IsWhiteSpace(s[0]) then TrimStart(s[1..]) else s
  }

  /**
   * The value of the run of digits at the start of s, read one digit at a
   * time onto the value acc of the digits read before.
   */
  function ReadDigits(s: string, acc: nat): nat
  {
    if s == [] || !IsDigit(s[0]) then acc
    else ReadDigits(s[1..], 10 * acc + DigitValue(s[0]))
  }

  /** parseInt(s, 10), with None for NaN. */
  function ParseInt(s: string): Option<int>
  {
    ParseSigned(TrimStart(s))
  }

  /** parseInt on a string that no longer starts with white space. */
  function ParseSigned(t: string): Option<int>
  {
    var signed := t != [] && (t[0] == '-' || t[0] == '+');
    var body := if signed then t[1..] else t;
    var magnitude: int := ReadDigits(body, 0);
    if body == [] || !IsDigit(body[0]) then None
    else if signed && t[0] == '-' then Some(-magnitude)
    else Some(magnitude)
  }

  // ---------------------------------------------------------------------------
  // getDelayTime
  // ---------------------------------------------------------------------------

  /** new Date(t): valid only within the range of JavaScript dates. */
  function TimeClip(t: int): Option<int>
  {
    if -MaxTimeMs <= t <= MaxTimeMs then Some(t) else None
  }

  /** now moved by magnitude units of unitMs ms; invalid when the magnitude is NaN. */
  function Shift(now: int, magnitude: Option<int>, unitMs: int): Option<int>
  {
    match magnitude
    case None => None
    case Some(v) => TimeClip(now + v * unitMs)
  }

  /** The due instant getDelayTime computes for token when the clock reads now. */
  function DueTime(token: string, now: int): Option<int>
  {
    if token == [] then TimeClip(now + DayMs)
    else
      match token[|token| - 1]
      case 'm' => Shift(now, ParseInt(token), MinuteMs)
      case 'h' => Shift(now, ParseInt(token), HourMs)
      case 'd' => Shift(now, ParseInt(token), DayMs)
      case _ => TimeClip(now + DayMs)
  }

  // ---------------------------------------------------------------------------
  // Properties
  // ---------------------------------------------------------------------------

  /** Reading stops at the first character that is not a digit. */
  lemma {:induction false} ReadDigitsStops(ds: string, rest: string, acc: nat)
    requires rest == [] || !IsDigit(rest[0])
    ensures ReadDigits(ds + rest, acc) == ReadDigits(ds, acc)
  {
    if ds == [] {
      assert ds + rest == rest;
    } else if IsDigit(ds[0]) {
      assert (ds + rest)[0] == ds[0];
      assert (ds + rest)[1..] == ds[1..] + rest;
      ReadDigitsStops(ds[1..], rest, 10 * acc + DigitValue(ds[0]));
    } else {
      assert (ds + rest)[0] == ds[0];
    }
  }

  /** One more digit at the end multiplies the value read by ten and adds the digit. */
  lemma {:induction false} ReadDigitsAppend(ds: string, c: char, acc: nat)
    requires AllDigits(ds) && IsDigit(c)
    ensures ReadDigits(ds + [c], acc) == 10 * ReadDigits(ds, acc) + DigitValue(c)
  {
    if ds == [] {
      assert ReadDigits([c], acc) == ReadDigits([], 10 * acc + DigitValue(c));
    } else {
      assert (ds + [c])[0] == ds[0];
      assert (ds + [c])[1..] == ds[1..] + [c];
      ReadDigitsAppend(ds[1..], c, 10 * acc + DigitValue(ds[0]));
    }
  }

  /** Reading back a rendered number gives the number. */
  lemma {:induction false} ReadDecimal(n: nat)
    ensures ReadDigits(Decimal(n), 0) == n
  {
    if n >= 10 {
      ReadDecimal(n / 10);
      ReadDigitsAppend(Decimal(n / 10), DigitChar(n % 10), 0);
    } else {
      assert ReadDigits(Decimal(n), 0) == ReadDigits([], DigitValue(DigitChar(n)));
    }
  }

  /** A string that starts with a digit is read as the value of its leading digits. */
  lemma ParseIntOfDigits(t: string)
    requires t != [] && IsDigit(t[0])
    ensures ParseInt(t) == Some(ReadDigits(t, 0))
  {
    assert !IsWhiteSpace(t[0]);
    assert TrimStart(t) == t;
    assert t[0] != '-' && t[0] != '+';
  }

  /** A minus sign followed by a digit is read as the negated value of the digits that follow. */
  lemma ParseIntOfNegated(t: string)
    requires t != [] && IsDigit(t[0])
    ensures ParseInt(['-'] + t) == Some(-(ReadDigits(t, 0) as int))
  {
    var s := ['-'] + t;
    assert s[0] == '-' && s[1..] == t;
    assert !IsWhiteSpace(s[0]);
    assert TrimStart(s) == s;
  }

  /** parseInt reads back a rendered number followed by anything that is not a digit. */
  lemma ParseIntOfDecimal(n: nat, rest: string)
    requires rest == [] || !IsDigit(rest[0])
    ensures ParseInt(Decimal(n) + rest) == Some(n)
  {
    var t := Decimal(n) + rest;
    assert t[0] == Decimal(n)[0];
    ParseIntOfDigits(t);
    ReadDigitsStops(Decimal(n), rest, 0);
    ReadDecimal(n);
  }

  /** parseInt reads back a negated rendered number. */
  lemma ParseIntOfNegatedDecimal(n: nat, rest: string)
    requires rest == [] || !IsDigit(rest[0])
    ensures ParseInt("-" + Decimal(n) + rest) == Some(-(n as int))
  {
    var t := Decimal(n) + rest;
    assert t[0] == Decimal(n)[0];
    assert "-" + Decimal(n) + rest == ['-'] + t;
    ParseIntOfNegated(t);
    ReadDigitsStops(Decimal(n), rest, 0);
    ReadDecimal(n);
  }

  /** A string that starts with neither white space, a sign nor a digit reads as NaN. */
  lemma NoDigitNoMagnitude(t: string)
    requires t != [] && !IsWhiteSpace(t[0]) && !IsDigit(t[0]) && t[0] != '-' && t[0] != '+'
    ensures ParseInt(t) == None
  {
    assert TrimStart(t) == t;
  }

  /** Leading white space is dropped whole. */
  lemma {:induction false} TrimStartSkipsWhiteSpace(ws: string, s: string)
    requires forall i :: 0 <= i < |ws| ==> IsWhiteSpace(ws[i])
    ensures TrimStart(ws + s) == TrimStart(s)
  {
    if ws != [] {
      assert IsWhiteSpace((ws + s)[0]);
      assert (ws + s)[1..] == ws[1..] + s;
      calc {
        TrimStart(ws + s);
        TrimStart((ws + s)[1..]);
        TrimStart(ws[1..] + s);
        { TrimStartSkipsWhiteSpace(ws[1..], s); }
        TrimStart(s);
      }
    } else {
      assert ws + s == s;
    }
  }

  /** parseInt skips leading white space. */
  lemma ParseIntSkipsWhiteSpace(ws: string, s: string)
    requires forall i :: 0 <= i < |ws| ==> IsWhiteSpace(ws[i])
    ensures ParseInt(ws + s) == ParseInt(s)
  {
    TrimStartSkipsWhiteSpace(ws, s);
  }

  /** A token ending in a unit, whose magnitude parses as v, falls due v units after now. */
  lemma UnitTokenDueTime(token: string, v: int, now: int)
    requires token != [] && token[|token| - 1] in {'m', 'h', 'd'}
    requires ParseInt(token) == Some(v)
    ensures token[|token| - 1] == 'm' ==> DueTime(token, now) == TimeClip(now + v * 60_000)
    ensures token[|token| - 1] == 'h' ==> DueTime(token, now) == TimeClip(now + v * 3_600_000)
    ensures token[|token| - 1] == 'd' ==> DueTime(token, now) == TimeClip(now + v * 86_400_000)
  {
  }

  /** A token "<n>m", "<n>h" or "<n>d" falls due n units after now. */
  lemma UnitTokenDue(n: nat, unit: char, now: int)
    requires unit in {'m', 'h', 'd'}
    ensures unit == 'm' ==> DueTime(Decimal(n) + [unit], now) == TimeClip(now + n * 60_000)
    ensures unit == 'h' ==> DueTime(Decimal(n) + [unit], now) == TimeClip(now + n * 3_600_000)
    ensures unit == 'd' ==> DueTime(Decimal(n) + [unit], now) == TimeClip(now + n * 86_400_000)
  {
    var token := Decimal(n) + [unit];
    assert token[|token| - 1] == unit;
    ParseIntOfDecimal(n, [unit]);
    UnitTokenDueTime(token, n, now);
  }

  /** "-<n>" followed by a unit ends in that unit and parses as -n. */
  lemma NegatedUnitToken(n: nat, unit: char)
    requires unit in {'m', 'h', 'd'}
    ensures "-" + Decimal(n) + [unit] != []
    ensures ("-" + Decimal(n) + [unit])[|"-" + Decimal(n) + [unit]| - 1] == unit
    ensures ParseInt("-" + Decimal(n) + [unit]) == Some(-(n as int))
  {
    ParseIntOfNegatedDecimal(n, [unit]);
  }

  /** A token ending in unit whose magnitude parses as -n falls due n units before now. */
  lemma NegativeMagnitudeDue(token: string, unit: char, n: nat, now: int)
    requires unit in {'m', 'h', 'd'}
    requires token != [] && token[|token| - 1] == unit
    requires ParseInt(token) == Some(-(n as int))
    ensures unit == 'm' ==> DueTime(token, now) == TimeClip(now - n * 60_000)
    ensures unit == 'h' ==> DueTime(token, now) == TimeClip(now - n * 3_600_000)
    ensures unit == 'd' ==> DueTime(token, now) == TimeClip(now - n * 86_400_000)
  {
    var v := -(n as int);
    UnitTokenDueTime(token, v, now);
    assert v * 60_000 == -(n * 60_000);
    assert v * 3_600_000 == -(n * 3_600_000);
    assert v * 86_400_000 == -(n * 86_400_000);
  }

  /** A negative magnitude moves the due instant into the past. */
  lemma NegativeUnitTokenDue(n: nat, unit: char, now: int)
    requires unit in {'m', 'h', 'd'}
    ensures unit == 'm' ==> DueTime("-" + Decimal(n) + [unit], now) == TimeClip(now - n * 60_000)
    ensures unit == 'h' ==> DueTime("-" + Decimal(n) + [unit], now) == TimeClip(now - n * 3_600_000)
    ensures unit == 'd' ==> DueTime("-" + Decimal(n) + [unit], now) == TimeClip(now - n * 86_400_000)
  {
    NegatedUnitToken(n, unit);
    NegativeMagnitudeDue("-" + Decimal(n) + [unit], unit, n, now);
  }

  /**
   * Any token whose last character is not a unit, the empty token included,
   * falls due 24 hours after now, whatever its magnitude.
   */
  lemma DefaultTokenDue(token: string, now: int)
    requires token == [] || token[|token| - 1] !in {'m', 'h', 'd'}
    ensures DueTime(token, now) == TimeClip(now + 86_400_000)
  {
  }

  /** A unit without any magnitude gives an invalid date. */
  lemma UnitWithoutMagnitude(token: string, now: int)
    requires token != [] && token[|token| - 1] in {'m', 'h', 'd'}
    requires ParseInt(token) == None
    ensures DueTime(token, now) == None
  {
  }

  /** "30m" falls due half an hour after now. */
  lemma ThirtyMinutes(now: int)
    requires -MaxTimeMs <= now && now + 1_800_000 <= MaxTimeMs
    ensures DueTime("30m", now) == Some(now + 1_800_000)
  {
    assert Decimal(3) == "3";
    assert Decimal(30) == "30";
    assert "30m" == Decimal(30) + ['m'];
    UnitTokenDue(30, 'm', now);
  }

  /** "4h" falls due four hours after now. */
  lemma FourHours(now: int)
    requires -MaxTimeMs <= now && now + 14_400_000 <= MaxTimeMs
    ensures DueTime("4h", now) == Some(now + 14_400_000)
  {
    assert Decimal(4) == "4";
    assert "4h" == Decimal(4) + ['h'];
    UnitTokenDue(4, 'h', now);
  }

  /** "2d" falls due two days after now. */
  lemma TwoDays(now: int)
    requires -MaxTimeMs <= now && now + 172_800_000 <= MaxTimeMs
    ensures DueTime("2d", now) == Some(now + 172_800_000)
  {
    assert Decimal(2) == "2";
    assert "2d" == Decimal(2) + ['d'];
    UnitTokenDue(2, 'd', now);
  }

  /** Units are case-sensitive: "2H" and the empty token take the 24-hour default. */
  lemma DefaultExamples(now: int)
    requires -MaxTimeMs <= now && now + 86_400_000 <= MaxTimeMs
    ensures DueTime("2H", now) == Some(now + 86_400_000)
    ensures DueTime("", now) == Some(now + 86_400_000)
  {
    DefaultTokenDue("2H", now);
    DefaultTokenDue("", now);
  }

  /** A bare unit has no magnitude, so the date is invalid. */
  lemma BareUnit(now: int)
    ensures DueTime("m", now) == None
  {
    NoDigitNoMagnitude("m");
  }
}
