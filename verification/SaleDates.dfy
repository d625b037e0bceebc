// Sale dates as the tables hold them: texts of a calendar date, with or without the
// time of day, and why comparing the texts compares the moments.

module SaleDates {
  import opened Options
  import opened Settlements

  // ---- The calendar ----

  datatype Date = Date(year: int, month: int, day: int)

  predicate Leap(year: int) {
    year % 4 == 0 && (year % 100 != 0 || year % 400 == 0)
  }

  function DaysIn(year: int, month: int): int {
    if month == 2 then (if Leap(year) then 29 else 28)
    else if month == 4 || month == 6 || month == 9 || month == 11 then 30 else 31
  }

  predicate Real(d: Date) {
    1 <= d.month <= 12 && 1 <= d.day <= DaysIn(d.year, d.month)
  }

  function Next(d: Date): (n: Date)
    requires Real(d)
    ensures Real(n)
  {
    if d.day < DaysIn(d.year, d.month) then d.(day := d.day + 1)
    else if d.month < 12 then Date(d.year, d.month + 1, 1)
    else Date(d.year + 1, 1, 1)
  }

  function Previous(d: Date): (p: Date)
    requires Real(d)
    ensures Real(p) && Next(p) == d
  {
    if d.day > 1 then d.(day := d.day - 1)
    else if d.month > 1 then Date(d.year, d.month - 1, DaysIn(d.year, d.month - 1))
    else Date(d.year - 1, 12, 31)
  }

  /** The date of a day, counted from the first of January 1970. */
  function DateOf(n: int): (d: Date)
    ensures Real(d)
    decreases if n < 0 then -n else n
  {
    if n == 0 then Date(1970, 1, 1) else if n > 0 then Next(DateOf(n - 1)) else Previous(DateOf(n + 1))
  }

  predicate Earlier(a: Date, b: Date) {
    || a.year < b.year
    || (a.year == b.year && (a.month < b.month || (a.month == b.month && a.day < b.day)))
  }

  lemma DateNext(n: int)
    ensures DateOf(n + 1) == Next(DateOf(n))
  {
  }

  lemma {:induction false} DatesGrow(m: int, n: int)
    requires m < n
    ensures Earlier(DateOf(m), DateOf(n))
    decreases n - m
  {
    hide DateOf;
    DateNext(n - 1);
    if m < n - 1 {
      DatesGrow(m, n - 1);
    }
  }

  // ---- Texts and their order ----

  /** The order of texts, octet by octet. */
  predicate LexLess(s: string, t: string) {
    if t == [] then false
    else if s == [] then true
    else s[0] < t[0] || (s[0] == t[0] && LexLess(s[1..], t[1..]))
  }

  function Power(k: nat): nat {
    if k == 0 then 1 else 10 * Power(k - 1)
  }

  /** A number in `k` decimal digits. */
  function Digits(n: nat, k: nat): (s: string)
    ensures |s| == k
  {
    if k == 0 then [] else Digits(n / 10, k - 1) + ['0' + (n % 10) as char]
  }

  lemma {:induction false} LexFirst(a: string, b: string, x: string, y: string)
    requires |a| == |b| && LexLess(a, b)
    ensures LexLess(a + x, b + y)
    decreases |a|
  {
    assert (a + x)[1..] == a[1..] + x && (b + y)[1..] == b[1..] + y;
    if a[0] == b[0] {
      LexFirst(a[1..], b[1..], x, y);
    }
  }

  lemma {:induction false} LexSame(a: string, x: string, y: string)
    ensures LexLess(a + x, a + y) <==> LexLess(x, y)
    decreases |a|
  {
    if a == [] {
      assert a + x == x && a + y == y;
    } else {
      assert (a + x)[1..] == a[1..] + x && (a + y)[1..] == a[1..] + y;
      LexSame(a[1..], x, y);
    }
  }

  lemma {:induction false} LexOneWay(s: string, t: string)
    ensures !(LexLess(s, t) && LexLess(t, s)) && !LexLess(s, s)
    decreases |s|
  {
    if s != [] && t != [] {
      LexOneWay(s[1..], t[1..]);
    } else if s != [] {
      LexOneWay(s[1..], s[1..]);
    }
  }

  /** Numbers of the same width come in the order of their digits. */
  lemma {:induction false} DigitsGrow(m: nat, n: nat, k: nat)
    requires m < n < Power(k)
    ensures LexLess(Digits(m, k), Digits(n, k))
    decreases k
  {
    var c, d := ['0' + (m % 10) as char], ['0' + (n % 10) as char];
    if m / 10 < n / 10 {
      DigitsGrow(m / 10, n / 10, k - 1);
      LexFirst(Digits(m / 10, k - 1), Digits(n / 10, k - 1), c, d);
    } else {
      LexSame(Digits(m / 10, k - 1), c, d);
    }
  }

  // ---- Stored dates ----

  function DateText(d: Date): string
    requires Real(d) && 0 <= d.year
  {
    Digits(d.year, 4) + ("-" + (Digits(d.month, 2) + ("-" + Digits(d.day, 2))))
  }

  function TimeText(second: nat): string {
    Digits(second / 3600, 2) + (":" + (Digits(second / 60 % 60, 2) + (":" + Digits(second % 60, 2))))
  }

  /** A date, and the second of the day when the time is stored with it. */
  datatype Stored = Stored(day: int, time: Option<nat>)

  predicate Written(s: Stored) {
    0 <= DateOf(s.day).year < 10000 && (s.time.Some? ==> s.time.value < DAY)
  }

  function StoredText(s: Stored): string
    requires Written(s)
  {
    DateText(DateOf(s.day)) + match s.time case None => "" case Some(second) => " " + TimeText(second)
  }

  /** A stored date as the settlement tables of the model number it. */
  function StampOf(s: Stored): int {
    DayStart(s.day) + match s.time case None => 0 case Some(second) => 1 + second
  }

  lemma TwoDigits(m: nat, n: nat, x: string, y: string)
    requires m < n < 100
    ensures LexLess(Digits(m, 2) + x, Digits(n, 2) + y)
  {
    assert Power(2) == 100 by {
      assert Power(1) == 10;
    }
    DigitsGrow(m, n, 2);
    LexFirst(Digits(m, 2), Digits(n, 2), x, y);
  }

  lemma EarlierText(a: Date, b: Date, x: string, y: string)
    requires Real(a) && Real(b) && 0 <= a.year && b.year < 10000 && Earlier(a, b)
    ensures LexLess(DateText(a) + x, DateText(b) + y)
  {
    hide LexLess, Digits;
    var ma, mb := Digits(a.month, 2) + ("-" + Digits(a.day, 2)), Digits(b.month, 2) + ("-" + Digits(b.day, 2));
    if a.year < b.year {
      assert Power(4) == 10000 by {
        assert Power(2) == 100;
      }
      DigitsGrow(a.year, b.year, 4);
      LexFirst(Digits(a.year, 4), Digits(b.year, 4), "-" + ma, "-" + mb);
    } else {
      if a.month < b.month {
        TwoDigits(a.month, b.month, "-" + Digits(a.day, 2), "-" + Digits(b.day, 2));
      } else {
        TwoDigits(a.day, b.day, "", "");
        assert Digits(a.day, 2) + "" == Digits(a.day, 2) && Digits(b.day, 2) + "" == Digits(b.day, 2);
        LexSame("-", Digits(a.day, 2), Digits(b.day, 2));
        LexSame(Digits(a.month, 2), "-" + Digits(a.day, 2), "-" + Digits(b.day, 2));
      }
      LexSame("-", ma, mb);
      LexSame(Digits(a.year, 4), "-" + ma, "-" + mb);
    }
    LexFirst(DateText(a), DateText(b), x, y);
  }

  lemma TimesGrow(m: nat, n: nat)
    requires m < n < DAY
    ensures LexLess(TimeText(m), TimeText(n))
  {
    hide LexLess, Digits;
    var h, g := m / 3600, n / 3600;
    var u, v := m / 60 % 60, n / 60 % 60;
    var p, q := Digits(u, 2) + (":" + Digits(m % 60, 2)), Digits(v, 2) + (":" + Digits(n % 60, 2));
    ClockParts(m);
    ClockParts(n);
    if h < g {
      TwoDigits(h, g, ":" + p, ":" + q);
    } else {
      if u < v {
        TwoDigits(u, v, ":" + Digits(m % 60, 2), ":" + Digits(n % 60, 2));
      } else {
        TwoDigits(m % 60, n % 60, "", "");
        assert Digits(m % 60, 2) + "" == Digits(m % 60, 2) && Digits(n % 60, 2) + "" == Digits(n % 60, 2);
        LexSame(":", Digits(m % 60, 2), Digits(n % 60, 2));
        LexSame(Digits(u, 2), ":" + Digits(m % 60, 2), ":" + Digits(n % 60, 2));
      }
      LexSame(":", p, q);
      LexSame(Digits(h, 2), ":" + p, ":" + q);
    }
  }

  lemma ClockParts(n: nat)
    ensures n == 3600 * (n / 3600) + 60 * (n / 60 % 60) + n % 60
  {
    assert n / 3600 == n / 60 / 60;
  }

  lemma StampGrows(a: Stored, b: Stored)
    requires Written(a) && Written(b) && StampOf(a) < StampOf(b)
    ensures LexLess(StoredText(a), StoredText(b))
  {
    hide LexLess, TimeText, DateText, DateOf;
    var x := match a.time case None => "" case Some(second) => " " + TimeText(second);
    var y := match b.time case None => "" case Some(second) => " " + TimeText(second);
    DayFirst(a, b);
    if a.day < b.day {
      DatesGrow(a.day, b.day);
      EarlierText(DateOf(a.day), DateOf(b.day), x, y);
    } else {
      if a.time.Some? {
        TimesGrow(a.time.value, b.time.value);
        LexSame(" ", TimeText(a.time.value), TimeText(b.time.value));
      } else {
        NothingFirst(y);
      }
      LexSame(DateText(DateOf(a.day)), x, y);
    }
  }

  lemma NothingFirst(s: string)
    requires s != []
    ensures LexLess([], s)
  {
  }

  /** An earlier stamp means an earlier day, or the same day and no time or an earlier one. */
  lemma DayFirst(a: Stored, b: Stored)
    requires a.time.Some? ==> a.time.value < DAY
    requires StampOf(a) < StampOf(b) && (b.time.Some? ==> b.time.value < DAY)
    ensures a.day < b.day || (a.day == b.day && b.time.Some? && (a.time.Some? ==> a.time.value < b.time.value))
  {
  }

  /** Comparing the texts in the tables is comparing the stamps. */
  lemma TextOrderIff(a: Stored, b: Stored)
    requires Written(a) && Written(b)
    ensures LexLess(StoredText(a), StoredText(b)) <==> StampOf(a) < StampOf(b)
  {
    hide LexLess, StoredText;
    LexOneWay(StoredText(a), StoredText(b));
    if StampOf(a) < StampOf(b) {
      StampGrows(a, b);
    } else if StampOf(b) < StampOf(a) {
      StampGrows(b, a);
    } else {
      SameStamp(a, b);
    }
  }

  lemma SameStamp(a: Stored, b: Stored)
    requires Written(a) && Written(b) && StampOf(a) == StampOf(b)
    ensures a == b
  {
  }

  /** What a sale at a moment stores, and the date a tick compares with. */
  lemma StampsStored(clock: nat, day: int)
    ensures StampAt(Counter, clock) == StampOf(Stored(clock / 86400, Some(clock % 86400)))
    ensures StampAt(Marketplace, clock) == StampOf(Stored(clock / 86400, None))
    ensures DayStart(day) == StampOf(Stored(day, None))
  {
  }
}
