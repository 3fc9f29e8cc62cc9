/** Instants and the RFC 3339 text the portal stores for them. Text columns are compared as text,
    so what matters is when the order of the texts is the order of the instants. */
module Timestamps {
  import opened Text

  /** Nanoseconds since the start of year 0 of the proleptic Gregorian calendar, UTC. */
  type Instant = int

  const NS_PER_SECOND: int := 1_000_000_000
  const SECONDS_PER_DAY: int := 86_400
  const MINUTE: int := 60 * NS_PER_SECOND

  // ---- Calendar ----------------------------------------------------------

  predicate IsLeap(y: nat) { y % 4 == 0 && (y % 100 != 0 || y % 400 == 0) }

  function DaysBeforeYear(y: nat): (d: nat)
    ensures DaysBeforeYear(0) == 0
  {
    365 * y + (y + 3) / 4 - (y + 99) / 100 + (y + 399) / 400
  }

  function DaysInYear(y: nat): nat { if IsLeap(y) then 366 else 365 }

  lemma YearStep(y: nat)
    ensures DaysBeforeYear(y + 1) == DaysBeforeYear(y) + DaysInYear(y)
  {
    assert (y + 4) / 4 == (y + 3) / 4 + (if y % 4 == 0 then 1 else 0);
    assert (y + 100) / 100 == (y + 99) / 100 + (if y % 100 == 0 then 1 else 0);
    assert (y + 400) / 400 == (y + 399) / 400 + (if y % 400 == 0 then 1 else 0);
    assert y % 400 == 0 ==> y % 100 == 0;
    assert y % 100 == 0 ==> y % 4 == 0;
  }

  /** Days of the year before month m, counted from 1; month 13 gives the whole year. */
  function DaysBeforeMonth(m: nat, leap: bool): (d: nat)
    requires 1 <= m <= 13
  {
    [0, 31, 59, 90, 120, 151, 181, 212, 243, 273, 304, 334, 365][m - 1] + (if leap && m > 2 then 1 else 0)
  }

  /** The year, at most y, that day d falls in. */
  function YearOf(d: nat, y: nat): (r: nat)
    ensures r <= y && DaysBeforeYear(r) <= d
    ensures d < DaysBeforeYear(y + 1) ==> d < DaysBeforeYear(r + 1)
  {
    if y == 0 || DaysBeforeYear(y) <= d then y else YearOf(d, y - 1)
  }

  /** The month, at most m, that day d of the year falls in. */
  function MonthOf(d: nat, leap: bool, m: nat): (r: nat)
    requires 1 <= m <= 12 && d < DaysBeforeMonth(m + 1, leap)
    ensures 1 <= r <= m && DaysBeforeMonth(r, leap) <= d < DaysBeforeMonth(r + 1, leap)
  {
    if DaysBeforeMonth(m, leap) <= d then m else MonthOf(d, leap, m - 1)
  }

  const LAST_YEAR: nat := 9999
  const DAYS: nat := DaysBeforeYear(LAST_YEAR + 1)

  datatype Date = Date(year: nat, month: nat, day: nat)

  function DateOf(d: nat): (r: Date)
    requires d < DAYS
    ensures r.year <= LAST_YEAR && 1 <= r.month <= 12 && 1 <= r.day <= 31
    ensures d == DaysBeforeYear(r.year) + DaysBeforeMonth(r.month, IsLeap(r.year)) + r.day - 1
    ensures d < DaysBeforeYear(r.year + 1)
    ensures d < DaysBeforeYear(r.year) + DaysBeforeMonth(r.month + 1, IsLeap(r.year))
  {
    var y := YearOf(d, LAST_YEAR);
    YearStep(y);
    var rest := d - DaysBeforeYear(y);
    var m := MonthOf(rest, IsLeap(y), 12);
    Date(y, m, rest - DaysBeforeMonth(m, IsLeap(y)) + 1)
  }

  lemma {:induction false} YearsMonotone(y: nat, z: nat)
    requires y <= z
    ensures DaysBeforeYear(y) <= DaysBeforeYear(z)
    decreases z - y
  {
    if y < z {
      YearsMonotone(y, z - 1);
      YearStep(z - 1);
    }
  }

  // ---- Fixed-width numbers -----------------------------------------------

  function Pow10(w: nat): (p: nat)
    ensures p > 0
  {
    if w == 0 then 1 else 10 * Pow10(w - 1)
  }

  /** n in decimal with exactly w digits. */
  function Pad(n: nat, w: nat): (s: string)
    ensures |s| == w && AllDigits(s)
  {
    if w == 0 then "" else Pad(n / 10, w - 1) + [DigitChar(n % 10)]
  }

  /** A run of digits is its number, padded to its length. */
  lemma {:induction false} PadOfDigits(s: string)
    requires AllDigits(s)
    ensures Pad(DigitsValue(s), |s|) == s && DigitsValue(s) < Pow10(|s|)
  {
    if s != "" {
      PadOfDigits(s[..|s| - 1]);
    }
  }

  /** And the number of a padded text is the one that was padded. */
  lemma {:induction false} PadDigits(n: nat, w: nat)
    requires n < Pow10(w)
    ensures |Pad(n, w)| == w && AllDigits(Pad(n, w)) && DigitsValue(Pad(n, w)) == n
  {
    if w > 0 {
      PadDigits(n / 10, w - 1);
      assert Pad(n, w)[..w - 1] == Pad(n / 10, w - 1);
    }
  }

  /** Texts of one width order as the numbers do. */
  lemma {:induction false} PadOrder(a: nat, b: nat, w: nat)
    requires a < b < Pow10(w)
    ensures TextLess(Pad(a, w), Pad(b, w))
  {
    if a / 10 == b / 10 {
      TextLessPrefix(Pad(a / 10, w - 1), [DigitChar(a % 10)], [DigitChar(b % 10)]);
    } else {
      PadOrder(a / 10, b / 10, w - 1);
      TextLessTotal(Pad(a / 10, w - 1), Pad(b / 10, w - 1));
      TextLessHead(Pad(a / 10, w - 1), Pad(b / 10, w - 1), [DigitChar(a % 10)], [DigitChar(b % 10)]);
    }
  }

  /** The first field that differs decides; fields have one width each. */
  lemma FieldsOrder(a: nat, b: nat, w: nat, sep: string, x: string, y: string)
    requires a < Pow10(w) && b < Pow10(w)
    ensures a < b ==> TextLess(Pad(a, w) + sep + x, Pad(b, w) + sep + y)
    ensures a == b ==> (TextLess(Pad(a, w) + sep + x, Pad(b, w) + sep + y) <==> TextLess(x, y))
  {
    hide Pad, TextLess;
    var p, q := Pad(a, w), Pad(b, w);
    assert p + sep + x == p + (sep + x) && q + sep + y == q + (sep + y);
    if a < b {
      PadOrder(a, b, w);
      TextLessTotal(p, q);
      TextLessHead(p, q, sep + x, sep + y);
    } else if a == b {
      TextLessPrefix(p, sep + x, sep + y);
      TextLessPrefix(sep, x, y);
    }
  }

  /** Three fixed-width numbers and what follows them. */
  function Fields(a: nat, w: nat, s1: string, b: nat, s2: string, c: nat, s3: string, tail: string): string {
    Pad(a, w) + s1 + (Pad(b, 2) + s2 + (Pad(c, 2) + s3 + tail))
  }

  predicate LexLess(a: nat, b: nat, c: nat, a': nat, b': nat, c': nat) {
    a < a' || (a == a' && (b < b' || (b == b' && c < c')))
  }

  lemma ThreeFieldsOrder(w: nat, s1: string, s2: string, s3: string,
                         a: nat, b: nat, c: nat, x: string, a': nat, b': nat, c': nat, y: string)
    requires a < Pow10(w) && a' < Pow10(w) && b < 100 && b' < 100 && c < 100 && c' < 100
    ensures LexLess(a, b, c, a', b', c') ==>
              TextLess(Fields(a, w, s1, b, s2, c, s3, x), Fields(a', w, s1, b', s2, c', s3, y))
    ensures a == a' && b == b' && c == c' ==>
            (TextLess(Fields(a, w, s1, b, s2, c, s3, x), Fields(a', w, s1, b', s2, c', s3, y)) <==> TextLess(x, y))
  {
    assert Pow10(2) == 100;
    hide Pad, TextLess, Pow10;
    var t3, t3' := Pad(c, 2) + s3 + x, Pad(c', 2) + s3 + y;
    FieldsOrder(c, c', 2, s3, x, y);
    FieldsOrder(b, b', 2, s2, t3, t3');
    FieldsOrder(a, a', w, s1, Pad(b, 2) + s2 + t3, Pad(b', 2) + s2 + t3');
  }

  // ---- RFC3339Nano -------------------------------------------------------

  function TimeText(second: nat, tail: string): string {
    Fields(second / 3600, 2, ":", second / 60 % 60, ":", second % 60, "", tail)
  }

  function DateText(date: Date, tail: string): string {
    Fields(date.year, 4, "-", date.month, "-", date.day, "T", tail)
  }

  /** The date and time of day of a whole second, followed by tail. */
  function SecondText(second: nat, tail: string): string
    requires second < DAYS * SECONDS_PER_DAY
  {
    DateText(DateOf(second / SECONDS_PER_DAY), TimeText(second % SECONDS_PER_DAY, tail))
  }

  function DropZeros(s: string): (r: string)
    ensures r <= s
    ensures r == "" || r[|r| - 1] != '0'
  {
    if s != "" && s[|s| - 1] == '0' then DropZeros(s[..|s| - 1]) else s
  }

  /** The fraction digits: trailing zeros are not written, and for a whole second nothing is. */
  function FractionDigits(ns: nat): (s: string)
    ensures AllDigits(s)
  {
    DropZeros(Pad(ns, 9))
  }

  function FractionText(ns: nat): string {
    (if FractionDigits(ns) == "" then "" else "." + FractionDigits(ns)) + "Z"
  }

  predicate Storable(t: Instant) { 0 <= t < DAYS * SECONDS_PER_DAY * NS_PER_SECOND }

  function SecondOf(t: Instant): int { t / NS_PER_SECOND }

  /** t.UTC().Format(time.RFC3339Nano) */
  function NanoText(t: Instant): string
    requires Storable(t)
  {
    SecondText(SecondOf(t), FractionText(t % NS_PER_SECOND))
  }

  // ---- When text order is time order -------------------------------------

  lemma {:induction false} MonthsMonotone(m: nat, n: nat, leap: bool)
    requires 1 <= m <= n <= 13
    ensures DaysBeforeMonth(m, leap) <= DaysBeforeMonth(n, leap)
    decreases n - m
  {
    if m < n {
      MonthsMonotone(m, n - 1, leap);
    }
  }

  /** A later day has a later date, year first, then month, then day. */
  lemma DatesLater(d: nat, e: nat)
    requires d < e < DAYS
    ensures var a, b := DateOf(d), DateOf(e); LexLess(a.year, a.month, a.day, b.year, b.month, b.day)
  {
    hide DaysBeforeYear, DaysBeforeMonth;
    var a, b := DateOf(d), DateOf(e);
    if a.year > b.year {
      YearsMonotone(b.year + 1, a.year);
    } else if a.year == b.year && a.month > b.month {
      MonthsMonotone(b.month + 1, a.month, IsLeap(a.year));
    }
  }

  lemma DateOrder(d: nat, e: nat, x: string, y: string)
    requires d < DAYS && e < DAYS
    ensures d < e ==> TextLess(DateText(DateOf(d), x), DateText(DateOf(e), y))
    ensures d == e ==> (TextLess(DateText(DateOf(d), x), DateText(DateOf(e), y)) <==> TextLess(x, y))
  {
    assert Pow10(4) == 10000;
    hide Fields, TextLess, Pow10;
    var a, b := DateOf(d), DateOf(e);
    ThreeFieldsOrder(4, "-", "-", "T", a.year, a.month, a.day, x, b.year, b.month, b.day, y);
    if d < e {
      DatesLater(d, e);
    }
  }

  lemma ClockLater(s: nat, r: nat)
    requires s < r < SECONDS_PER_DAY
    ensures LexLess(s / 3600, s / 60 % 60, s % 60, r / 3600, r / 60 % 60, r % 60)
  {
    assert s / 60 <= r / 60 && (s / 60 == r / 60 ==> s % 60 < r % 60);
    assert s / 3600 == s / 60 / 60 && r / 3600 == r / 60 / 60;
  }

  lemma TimeOrder(s: nat, r: nat, x: string, y: string)
    requires s < SECONDS_PER_DAY && r < SECONDS_PER_DAY
    ensures s < r ==> TextLess(TimeText(s, x), TimeText(r, y))
    ensures s == r ==> (TextLess(TimeText(s, x), TimeText(r, y)) <==> TextLess(x, y))
  {
    assert Pow10(2) == 100;
    hide Fields, TextLess, Pow10;
    ThreeFieldsOrder(2, ":", ":", "", s / 3600, s / 60 % 60, s % 60, x, r / 3600, r / 60 % 60, r % 60, y);
    if s < r {
      ClockLater(s, r);
    }
  }

  /** Different whole seconds order as texts whatever follows; within one second the tails decide. */
  lemma SecondOrder(s: nat, r: nat, x: string, y: string)
    requires s < DAYS * SECONDS_PER_DAY && r < DAYS * SECONDS_PER_DAY
    ensures s < r ==> TextLess(SecondText(s, x), SecondText(r, y))
    ensures s == r ==> (TextLess(SecondText(s, x), SecondText(r, y)) <==> TextLess(x, y))
  {
    hide TimeText, DateText, DateOf, TextLess;
    var d, e := s / SECONDS_PER_DAY, r / SECONDS_PER_DAY;
    var ts, tr := TimeText(s % SECONDS_PER_DAY, x), TimeText(r % SECONDS_PER_DAY, y);
    TimeOrder(s % SECONDS_PER_DAY, r % SECONDS_PER_DAY, x, y);
    DateOrder(d, e, ts, tr);
  }

  function Zeros(k: nat): (s: string)
    ensures |s| == k && AllDigits(s)
    ensures forall i | 0 <= i < k :: s[i] == '0'
  {
    seq(k, i => '0')
  }

  lemma {:induction false} DropZerosPads(s: string)
    ensures s == DropZeros(s) + Zeros(|s| - |DropZeros(s)|)
  {
    if s != "" && s[|s| - 1] == '0' {
      var init := s[..|s| - 1];
      DropZerosPads(init);
      assert s == init + "0";
    }
  }

  /** Where neither text begins the other, what is appended cannot matter. */
  lemma {:induction false} NoPrefixOrder(s: string, t: string, x: string, y: string)
    requires !(s <= t) && !(t <= s)
    ensures TextLess(s + x, t + y) <==> TextLess(s, t)
  {
    assert (s + x)[1..] == s[1..] + x && (t + y)[1..] == t[1..] + y;
    if s[0] == t[0] {
      assert s == [s[0]] + s[1..] && t == [t[0]] + t[1..];
      NoPrefixOrder(s[1..], t[1..], x, y);
    }
  }

  lemma {:induction false} ZerosLess(w: string, k: nat)
    requires AllDigits(w) && w != "" && w[|w| - 1] != '0'
    ensures TextLess(Zeros(|w| + k), w + Zeros(k))
  {
    var z := Zeros(|w| + k);
    assert z[1..] == Zeros(|w| + k - 1) && (w + Zeros(k))[1..] == w[1..] + Zeros(k);
    if w[0] == '0' {
      assert w[1..][|w| - 2] == w[|w| - 1];
      ZerosLess(w[1..], k);
    }
  }

  /** Fixed-width texts decide the numbers' order. */
  lemma PadDecides(a: nat, b: nat, w: nat)
    requires a < Pow10(w) && b < Pow10(w)
    ensures TextLess(Pad(a, w), Pad(b, w)) <==> a < b
  {
    TextLessTotal(Pad(a, w), Pad(b, w));
    if a < b {
      PadOrder(a, b, w);
    } else if b < a {
      PadOrder(b, a, w);
    }
  }

  lemma PrefixLess(d: string, w: string, k: nat)
    requires AllDigits(w) && w != "" && w[|w| - 1] != '0'
    ensures TextLess(d + Zeros(|w| + k), d + w + Zeros(k))
  {
    ZerosLess(w, k);
    TextLessPrefix(d, Zeros(|w| + k), w + Zeros(k));
    assert d + (w + Zeros(k)) == d + w + Zeros(k);
  }

  lemma DigitsPad(ns: nat)
    requires ns < NS_PER_SECOND
    ensures ns < Pow10(9)
    ensures |FractionDigits(ns)| <= 9 && Pad(ns, 9) == FractionDigits(ns) + Zeros(9 - |FractionDigits(ns)|)
    ensures FractionDigits(ns) == "" || FractionDigits(ns)[|FractionDigits(ns)| - 1] != '0'
  {
    Pow10Nine();
    DropZerosPads(Pad(ns, 9));
  }

  /** A fraction that begins another is the smaller number. */
  lemma FractionPrefixNumber(a: nat, b: nat)
    requires a < NS_PER_SECOND && b < NS_PER_SECOND
    requires FractionDigits(a) < FractionDigits(b)
    ensures a < b
  {
    hide TextLess, FractionDigits, Pow10, Pad, Zeros;
    var d, e := FractionDigits(a), FractionDigits(b);
    var w := e[|d|..];
    DigitsPad(a);
    DigitsPad(b);
    assert e == d + w && w[|w| - 1] == e[|e| - 1];
    PrefixLess(d, w, 9 - |e|);
    PadDecides(a, b, 9);
  }

  /** And it is the greater text. */
  lemma FractionPrefixText(a: nat, b: nat)
    requires FractionDigits(a) < FractionDigits(b)
    ensures TextLess(FractionText(b), FractionText(a))
  {
    hide TextLess, FractionDigits;
    var d, e := FractionDigits(a), FractionDigits(b);
    if d == "" {
      DotBeforeZulu(e + "Z");
      assert FractionText(b) == "." + (e + "Z") && FractionText(a) == "Z";
    } else {
      var w := e[|d|..];
      assert AllDigits(w);
      DigitBeforeZulu(w, "Z");
      TextLessPrefix("." + d, w + "Z", "Z");
      assert e == d + w;
      assert FractionText(b) == "." + d + (w + "Z");
    }
  }

  lemma Pow10Nine()
    ensures Pow10(9) == NS_PER_SECOND
  {
    assert Pow10(3) == 1000 && Pow10(6) == 1000 * Pow10(3);
  }

  lemma DigitBeforeZulu(w: string, x: string)
    requires AllDigits(w) && w != ""
    ensures TextLess(w + x, "Z")
  {
    assert (w + x)[0] == w[0] && IsDigit(w[0]);
  }

  lemma DotBeforeZulu(x: string)
    ensures TextLess("." + x, "Z")
  {
    assert ("." + x)[0] == '.';
  }

  /** Otherwise the texts of two fractions order as the numbers. */
  lemma FractionNoPrefix(a: nat, b: nat)
    requires a < NS_PER_SECOND && b < NS_PER_SECOND
    requires !(FractionDigits(a) < FractionDigits(b)) && !(FractionDigits(b) < FractionDigits(a))
    ensures TextLess(FractionText(a), FractionText(b)) <==> a < b
  {
    var d, e := FractionDigits(a), FractionDigits(b);
    Pow10Nine();
    hide TextLess, DropZeros, Pow10;
    DropZerosPads(Pad(a, 9));
    DropZerosPads(Pad(b, 9));
    PadDecides(a, b, 9);
    PadDecides(b, a, 9);
    if d == e {
      TextLessTotal(FractionText(a), FractionText(a));
    } else {
      NoPrefixOrder(d, e, "Z", "Z");
      NoPrefixOrder(d, e, Zeros(9 - |d|), Zeros(9 - |e|));
      TextLessPrefix(".", d + "Z", e + "Z");
      assert FractionText(a) == "." + (d + "Z") && FractionText(b) == "." + (e + "Z");
    }
  }

  /** Two instants whose texts order the wrong way round: they share a second, and the fraction
      of one, as it is written, begins the fraction of the other. */
  predicate Inverted(t: Instant, u: Instant) {
    SecondOf(t) == SecondOf(u) &&
    (FractionDigits(t % NS_PER_SECOND) < FractionDigits(u % NS_PER_SECOND) ||
     FractionDigits(u % NS_PER_SECOND) < FractionDigits(t % NS_PER_SECOND))
  }

  /** The order of the stored texts is the order of the instants, except that inverted pairs
      order the other way round. */
  lemma TextOrder(t: Instant, u: Instant)
    requires Storable(t) && Storable(u)
    ensures TextLess(NanoText(t), NanoText(u)) <==> if Inverted(t, u) then u < t else t < u
  {
    var a, b := t % NS_PER_SECOND, u % NS_PER_SECOND;
    hide TextLess, SecondText, FractionText, FractionDigits;
    SecondOrder(SecondOf(t), SecondOf(u), FractionText(a), FractionText(b));
    TextLessTotal(NanoText(t), NanoText(u));
    if SecondOf(t) < SecondOf(u) {
    } else if SecondOf(t) > SecondOf(u) {
      SecondOrder(SecondOf(u), SecondOf(t), FractionText(b), FractionText(a));
    } else if FractionDigits(a) < FractionDigits(b) {
      FractionPrefixNumber(a, b);
      FractionPrefixText(a, b);
      TextLessTotal(FractionText(a), FractionText(b));
    } else if FractionDigits(b) < FractionDigits(a) {
      FractionPrefixNumber(b, a);
      FractionPrefixText(b, a);
    } else {
      FractionNoPrefix(a, b);
    }
  }

  lemma ZerosLast(s: string, k: nat)
    ensures (s + Zeros(k)) + "0" == s + Zeros(k + 1)
  {
  }

  lemma {:induction false} PadScaled(n: nat, w: nat, k: nat)
    ensures Pad(n * Pow10(k), w + k) == Pad(n, w) + Zeros(k)
  {
    hide Zeros;
    if k == 0 {
      assert Pad(n, w) + Zeros(0) == Pad(n, w);
    } else {
      var m := n * Pow10(k - 1);
      assert n * Pow10(k) == 10 * m;
      PadScaled(n, w, k - 1);
      PadTenfold(m, w + k - 1);
      ZerosLast(Pad(n, w), k - 1);
    }
  }

  lemma PadTenfold(m: nat, w: nat)
    ensures Pad(10 * m, w + 1) == Pad(m, w) + "0"
  {
    assert [DigitChar(0)] == "0";
  }

  lemma {:induction false} DropZerosOf(s: string, k: nat)
    requires s != "" && s[|s| - 1] != '0'
    ensures DropZeros(s + Zeros(k)) == s
  {
    hide Zeros;
    if k == 0 {
      assert s + Zeros(0) == s;
    } else {
      ZerosLast(s, k - 1);
      DropOne(s + Zeros(k - 1));
      DropZerosOf(s, k - 1);
    }
  }

  lemma DropOne(t: string)
    ensures DropZeros(t + "0") == DropZeros(t)
  {
    assert (t + "0")[..|t|] == t;
  }

  /** A number of w digits that does not end in zero, read as a fraction, is written as it stands. */
  lemma Written(n: nat, w: nat)
    requires 1 <= w <= 9 && n % 10 != 0
    ensures FractionDigits(n * Pow10(9 - w)) == Pad(n, w)
  {
    hide DropZeros, Pow10;
    PadScaled(n, w, 9 - w);
    DropZerosOf(Pad(n, w), 9 - w);
  }

  lemma HalfBeginsFiftyOne()
    ensures FractionDigits(500_000_000) < FractionDigits(510_000_000)
  {
    assert Pow10(3) == 1000 && Pow10(7) == 10_000 * Pow10(3) && Pow10(8) == 10 * Pow10(7);
    hide FractionDigits, Pow10;
    Written(5, 1);
    Written(51, 2);
    assert Pad(51, 2) == Pad(5, 1) + [DigitChar(1)];
  }

  /** Half a second and fifty-one hundredths: the earlier instant has the greater text. */
  lemma InversionsExist(second: nat)
    requires second < DAYS * SECONDS_PER_DAY
    ensures var t, u := second * NS_PER_SECOND + 500_000_000, second * NS_PER_SECOND + 510_000_000;
            Storable(t) && Storable(u) && t < u && Inverted(t, u) && TextLess(NanoText(u), NanoText(t))
  {
    hide NanoText, FractionDigits;
    var t, u := second * NS_PER_SECOND + 500_000_000, second * NS_PER_SECOND + 510_000_000;
    assert SecondOf(t) == second && t % NS_PER_SECOND == 500_000_000;
    assert SecondOf(u) == second && u % NS_PER_SECOND == 510_000_000;
    HalfBeginsFiftyOne();
    TextOrder(u, t);
  }

  // ---- The text itself -----------------------------------------------------

  /** The instant a date and a time of day name. */
  function InstantOf(year: nat, month: nat, day: nat, hour: nat, minute: nat, second: nat): Instant
    requires 1 <= month <= 12 && 1 <= day
  {
    ((DaysBeforeYear(year) + DaysBeforeMonth(month, IsLeap(year)) + day - 1) * 86_400 + hour * 3600 + minute * 60 + second) *
    1_000_000_000
  }

  lemma SameDate(d: nat, year: nat, month: nat, day: nat)
    requires d < DAYS && year <= LAST_YEAR && 1 <= month <= 12 && 1 <= day
    requires d == DaysBeforeYear(year) + DaysBeforeMonth(month, IsLeap(year)) + day - 1
    requires DaysBeforeMonth(month, IsLeap(year)) + day - 1 < DaysBeforeMonth(month + 1, IsLeap(year))
    ensures DateOf(d) == Date(year, month, day)
  {
    hide DaysBeforeYear, DaysBeforeMonth;
    var r := DateOf(d);
    MonthsMonotone(month + 1, 13, IsLeap(year));
    assert d < DaysBeforeYear(year + 1) by { YearEnd(year); }
    if r.year < year {
      YearsMonotone(r.year + 1, year);
    } else if year < r.year {
      YearsMonotone(year + 1, r.year);
    } else if r.month < month {
      MonthsMonotone(r.month + 1, month, IsLeap(year));
    } else if month < r.month {
      MonthsMonotone(month + 1, r.month, IsLeap(year));
    }
  }

  lemma YearEnd(year: nat)
    ensures DaysBeforeYear(year) + DaysBeforeMonth(13, IsLeap(year)) == DaysBeforeYear(year + 1)
  {
    YearStep(year);
  }

  /** A whole second is stored as its date and its time of day, and a fraction of nanoseconds without closing zeros
      behind a point. */
  lemma StoredAs(year: nat, month: nat, day: nat, hour: nat, minute: nat, second: nat, ns: nat)
    requires year <= LAST_YEAR && 1 <= month <= 12 && 1 <= day && hour < 24 && minute < 60 && second < 60 && ns < 1_000_000_000
    requires DaysBeforeMonth(month, IsLeap(year)) + day - 1 < DaysBeforeMonth(month + 1, IsLeap(year))
    requires Storable(InstantOf(year, month, day, hour, minute, second) + ns)
    ensures NanoText(InstantOf(year, month, day, hour, minute, second) + ns) ==
            Pad(year, 4) + "-" + Pad(month, 2) + "-" + Pad(day, 2) + "T" + Pad(hour, 2) + ":" + Pad(minute, 2) + ":" +
            Pad(second, 2) + (if ns == 0 then "" else "." + FractionDigits(ns)) + "Z"
  {
    hide Pad, FractionDigits, DaysBeforeYear, DaysBeforeMonth, DateOf;
    var d := DaysBeforeYear(year) + DaysBeforeMonth(month, IsLeap(year)) + day - 1;
    var s := hour * 3600 + minute * 60 + second;
    var t := InstantOf(year, month, day, hour, minute, second) + ns;
    assert s < 86_400;
    assert SecondOf(t) == d * 86_400 + s && t % 1_000_000_000 == ns;
    assert SecondOf(t) / 86_400 == d && SecondOf(t) % 86_400 == s;
    assert s / 3600 == hour && s / 60 % 60 == minute && s % 60 == second;
    SameDate(d, year, month, day);
    FractionIsEmpty(ns);
    var tail := FractionText(ns);
    assert Pad(year, 4) + "-" + (Pad(month, 2) + "-" + (Pad(day, 2) + "T" +
           (Pad(hour, 2) + ":" + (Pad(minute, 2) + ":" + (Pad(second, 2) + "" + tail))))) ==
           Pad(year, 4) + "-" + Pad(month, 2) + "-" + Pad(day, 2) + "T" + Pad(hour, 2) + ":" + Pad(minute, 2) + ":" +
           Pad(second, 2) + tail;
    assert Pad(second, 2) + (FractionPart(ns) + "Z") == Pad(second, 2) + FractionPart(ns) + "Z";
  }

  function FractionPart(ns: nat): string { if ns == 0 then "" else "." + FractionDigits(ns) }

  lemma FractionIsEmpty(ns: nat)
    requires ns < 1_000_000_000
    ensures FractionDigits(ns) == "" <==> ns == 0
  {
    Pow10Nine();
    DropZerosPads(Pad(ns, 9));
    PadZero(9);
    if ns > 0 {
      PadDecides(0, ns, 9);
      TextLessTotal(Pad(0, 9), Pad(ns, 9));
      assert Pad(ns, 9) != Zeros(9) && "" + Zeros(9) == Zeros(9);
    }
  }

  lemma {:induction false} PadZero(w: nat)
    ensures Pad(0, w) == Zeros(w) && DropZeros(Zeros(w)) == ""
  {
    if w > 0 {
      PadZero(w - 1);
      assert Zeros(w) == Zeros(w - 1) + "0" && Zeros(w)[..w - 1] == Zeros(w - 1);
    }
  }
}
