/** The timestamps of log lines and their order as text. */
module Timestamps {
  import opened Calendar
  import opened Decimals

  function Pow10(n: nat): (p: nat)
    ensures p > 0
  {
    if n == 0 then 1 else 10 * Pow10(n - 1)
  }

  /** The last `width` decimal digits of `n`. */
  function Digits(n: nat, width: nat): (s: string)
    ensures |s| == width
  {
    if width == 0 then "" else Digits(n / 10, width - 1) + [Digit(n % 10)]
  }

  /** Formatting with a minimum width filled up with zeros. */
  function Padded(n: nat, width: nat): string {
    if n < Pow10(width) then Digits(n, width) else Decimal(n)
  }

  function DateText(date: Date): string
    requires date.year >= 0 && ValidDate(date)
  {
    Padded(date.year, 4) + "-" + Padded(date.month, 2) + "-" + Padded(date.day, 2)
  }

  function TimeText(secondsOfDay: nat, millis: nat): string {
    Padded(secondsOfDay / 3600, 2) + ":" + Padded((secondsOfDay % 3600) / 60, 2) + ":" + Padded(secondsOfDay % 60, 2)
    + "." + Padded(millis, 3)
  }

  /** The timestamp of a clock reading, in milliseconds since 1970. */
  function Timestamp(now: nat): string {
    var totalSeconds := now / 1000;
    var days := totalSeconds / 86400;
    DateAfterEpoch(days);
    DateText(CivilFromDays(days)) + "T" + TimeText(totalSeconds % 86400, now % 1000)
  }

  lemma DateAfterEpoch(days: nat)
    ensures CivilFromDays(days).year >= 1970 && ValidDate(CivilFromDays(days))
  {
    hide CivilFromDays;
    CivilIsFromMarch(days);
    EpochDate();
    if days > 0 {
      DatesFollowDays(0, days);
    }
  }

  /** The first millisecond of the year 10000. */
  const YEAR_10000: nat := 253_402_300_800_000

  lemma FourDigitYears(now: nat)
    requires now < YEAR_10000
    ensures CivilFromDays(now / 1000 / 86400).year <= 9999
  {
    hide CivilFromDays;
    var days := now / 1000 / 86400;
    FirstDayOf10000();
    DatesFollowDays(days, 2_932_897);
    CivilIsFromMarch(days);
  }

  lemma FirstDayOf10000()
    ensures CivilFromDays(2_932_897) == Date(10000, 1, 1)
  {
    hide CivilFromDays;
    assert DayNumber(Date(10000, 1, 1)) == 2_932_897;
    CountedCivil(Date(10000, 1, 1));
  }

  // ---- Order of texts -----------------------------------------------------

  /** `a` comes before `b` in lexicographic order. */
  ghost predicate Less(a: string, b: string) {
    exists k :: 0 <= k <= |a| && k <= |b| && DiffersAt(a, b, k)
  }

  ghost predicate DiffersAt(a: string, b: string, k: nat)
    requires k <= |a| && k <= |b|
  {
    a[..k] == b[..k] && if k < |a| then k < |b| && a[k] < b[k] else k < |b|
  }

  lemma LessIsStrict(a: string, b: string)
    requires Less(a, b)
    ensures a != b && !Less(b, a)
  {
    var k :| 0 <= k <= |a| && k <= |b| && DiffersAt(a, b, k);
    forall j | 0 <= j <= |b| && j <= |a| ensures !DiffersAt(b, a, j) {
      if j < k {
        assert a[..k][j] == a[j] && b[..k][j] == b[j];
      } else if k < j {
        assert a[..j][k] == a[k] && b[..j][k] == b[k];
      }
    }
  }

  lemma LessAppended(a: string, b: string, c: string, d: string)
    requires Less(a, b) && |a| == |b|
    ensures Less(a + c, b + d)
  {
    var k :| 0 <= k <= |a| && k <= |b| && DiffersAt(a, b, k);
    assert (a + c)[..k] == a[..k] && (b + d)[..k] == b[..k];
    assert DiffersAt(a + c, b + d, k);
  }

  lemma LessPrefixed(p: string, a: string, b: string)
    requires Less(a, b)
    ensures Less(p + a, p + b)
  {
    var k :| 0 <= k <= |a| && k <= |b| && DiffersAt(a, b, k);
    var n := |p| + k;
    assert (p + a)[..n] == p + a[..k] && (p + b)[..n] == p + b[..k];
    assert DiffersAt(p + a, p + b, n);
  }

  lemma {:induction false} DigitsFollowNumbers(m: nat, n: nat, width: nat)
    requires m < n < Pow10(width)
    ensures Less(Digits(m, width), Digits(n, width))
  {
    if m / 10 < n / 10 {
      DigitsFollowNumbers(m / 10, n / 10, width - 1);
      LessAppended(Digits(m / 10, width - 1), Digits(n / 10, width - 1), [Digit(m % 10)], [Digit(n % 10)]);
    } else {
      assert m / 10 == n / 10;
      var k := width - 1;
      assert Digits(m, width)[..k] == Digits(m / 10, k) && Digits(n, width)[..k] == Digits(n / 10, k);
      assert DiffersAt(Digits(m, width), Digits(n, width), k);
    }
  }

  lemma PaddedInOrder(m: nat, n: nat, width: nat)
    requires m < n < Pow10(width)
    ensures Less(Padded(m, width), Padded(n, width)) && |Padded(m, width)| == |Padded(n, width)| == width
  {
    DigitsFollowNumbers(m, n, width);
  }

  lemma PaddedLength(n: nat, width: nat)
    requires n < Pow10(width)
    ensures |Padded(n, width)| == width
  {
  }

  lemma Powers()
    ensures Pow10(2) == 100 && Pow10(3) == 1000 && Pow10(4) == 10000
  {
    assert Pow10(1) == 10;
  }

  /** A first field that decides, or two equal first fields and a rest that decides. */
  lemma FieldsInOrder(a: string, b: string, separator: string, c: string, d: string)
    requires |a| == |b| && (Less(a, b) || (a == b && Less(c, d)))
    ensures Less(a + separator + c, b + separator + d)
  {
    assert a + separator + c == a + (separator + c) && b + separator + d == b + (separator + d);
    if Less(a, b) {
      LessAppended(a, b, separator + c, separator + d);
    } else {
      LessPrefixed(separator, c, d);
      LessPrefixed(a, separator + c, separator + d);
    }
  }

  lemma DateTextInOrder(a: Date, b: Date)
    requires ValidDate(a) && ValidDate(b) && 0 <= a.year && b.year <= 9999 && Earlier(a, b)
    ensures Less(DateText(a), DateText(b)) && |DateText(a)| == |DateText(b)| == 10
  {
    hide Less, Padded, Leap;
    Powers();
    PaddedLength(a.year, 4);
    PaddedLength(b.year, 4);
    PaddedLength(a.month, 2);
    PaddedLength(b.month, 2);
    PaddedLength(a.day, 2);
    PaddedLength(b.day, 2);
    var y1, m1, d1 := Padded(a.year, 4), Padded(a.month, 2), Padded(a.day, 2);
    var y2, m2, d2 := Padded(b.year, 4), Padded(b.month, 2), Padded(b.day, 2);
    if a.year < b.year {
      PaddedInOrder(a.year, b.year, 4);
    } else if a.month < b.month {
      PaddedInOrder(a.month, b.month, 2);
      FieldsInOrder(m1, m2, "-", d1, d2);
    } else {
      PaddedInOrder(a.day, b.day, 2);
      FieldsInOrder(m1, m2, "-", d1, d2);
    }
    FieldsInOrder(y1, y2, "-", m1 + "-" + d1, m2 + "-" + d2);
    assert DateText(a) == y1 + "-" + (m1 + "-" + d1) && DateText(b) == y2 + "-" + (m2 + "-" + d2);
  }

  lemma TimeTextInOrder(s: nat, ms: nat, t: nat, mt: nat)
    requires s < 86400 && t < 86400 && ms < 1000 && mt < 1000 && (s < t || (s == t && ms < mt))
    ensures Less(TimeText(s, ms), TimeText(t, mt))
  {
    hide Less, Padded;
    Powers();
    var h, m, c, f := Padded(s / 3600, 2), Padded((s % 3600) / 60, 2), Padded(s % 60, 2), Padded(ms, 3);
    var h', m', c', f' := Padded(t / 3600, 2), Padded((t % 3600) / 60, 2), Padded(t % 60, 2), Padded(mt, 3);
    FieldLengths(s);
    FieldLengths(t);
    if s / 3600 < t / 3600 {
      PaddedInOrder(s / 3600, t / 3600, 2);
    } else {
      SameHour(s, t);
      if (s % 3600) / 60 < (t % 3600) / 60 {
        PaddedInOrder((s % 3600) / 60, (t % 3600) / 60, 2);
      } else {
        SameMinute(s, t);
        if s % 60 < t % 60 {
          PaddedInOrder(s % 60, t % 60, 2);
        } else {
          PaddedInOrder(ms, mt, 3);
        }
        FieldsInOrder(c, c', ".", f, f');
      }
      FieldsInOrder(m, m', ":", c + "." + f, c' + "." + f');
    }
    FieldsInOrder(h, h', ":", m + ":" + (c + "." + f), m' + ":" + (c' + "." + f'));
    assert TimeText(s, ms) == h + ":" + (m + ":" + (c + "." + f));
    assert TimeText(t, mt) == h' + ":" + (m' + ":" + (c' + "." + f'));
  }

  lemma FieldLengths(s: nat)
    requires s < 86400
    ensures |Padded(s / 3600, 2)| == |Padded((s % 3600) / 60, 2)| == |Padded(s % 60, 2)| == 2
  {
    Powers();
  }

  lemma SameHour(s: nat, t: nat)
    requires s <= t < 86400 && !(s / 3600 < t / 3600)
    ensures s / 3600 == t / 3600 && s % 3600 <= t % 3600 && (s % 3600) / 60 <= (t % 3600) / 60
  {
  }

  lemma SameMinute(s: nat, t: nat)
    requires s <= t < 86400 && s / 3600 == t / 3600 && !((s % 3600) / 60 < (t % 3600) / 60)
    ensures (s % 3600) / 60 == (t % 3600) / 60 && s % 60 <= t % 60 && (s % 60 == t % 60 ==> s == t)
  {
  }

  /** Until the year 10000, timestamps sort as text in the order of time. */
  lemma TimestampsSort(a: nat, b: nat)
    requires a < YEAR_10000 && b < YEAR_10000
    ensures a < b <==> Less(Timestamp(a), Timestamp(b))
    ensures a == b <==> Timestamp(a) == Timestamp(b)
  {
    hide CivilFromDays, Less;
    if a < b {
      EarlierStampIsLess(a, b);
      LessIsStrict(Timestamp(a), Timestamp(b));
    } else if b < a {
      EarlierStampIsLess(b, a);
      LessIsStrict(Timestamp(b), Timestamp(a));
    } else if Less(Timestamp(a), Timestamp(b)) {
      LessIsStrict(Timestamp(a), Timestamp(b));
    }
  }

  lemma EarlierStampIsLess(a: nat, b: nat)
    requires a < b < YEAR_10000
    ensures Less(Timestamp(a), Timestamp(b))
  {
    hide CivilFromDays, Less, DateText, TimeText;
    var s, t := a / 1000, b / 1000;
    DateAfterEpoch(s / 86400);
    DateAfterEpoch(t / 86400);
    FourDigitYears(b);
    if s / 86400 < t / 86400 {
      DatesFollowDays(s / 86400, t / 86400);
      DateTextInOrder(CivilFromDays(s / 86400), CivilFromDays(t / 86400));
    } else {
      TimeTextInOrder(s % 86400, a % 1000, t % 86400, b % 1000);
    }
    FieldsInOrder(DateText(CivilFromDays(s / 86400)), DateText(CivilFromDays(t / 86400)), "T",
                  TimeText(s % 86400, a % 1000), TimeText(t % 86400, b % 1000));
  }
}
