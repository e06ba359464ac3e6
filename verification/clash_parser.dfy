/**
 * The subscription expiry report: proxy-provider keys of the form
 * `name-YYYY-MM-DD`, the days left before a date, the status that follows, the
 * sorted list of subscriptions and its summary. Dates are proleptic Gregorian
 * dates counted as day ordinals, as Python's `datetime.date` counts them; today's
 * date and the parsed provider table are parameters.
 */
module ClashParser {
  import opened Wrappers
  import opened Text

  // ---------------------------------------------------------------------------
  // Calendar dates.
  // ---------------------------------------------------------------------------

  /** A calendar date as year, month and day; not necessarily a real one. */
  datatype Date = Date(year: int, month: int, day: int)

  /** The Gregorian leap-year rule. */
  predicate IsLeap(y: int) {
    y % 4 == 0 && (y % 100 != 0 || y % 400 == 0)
  }

  /** The length of month `m` of year `y`. */
  function DaysInMonth(y: int, m: int): (r: int)
    requires 1 <= m <= 12
    ensures 28 <= r <= 31
  {
    if m == 2 then (if IsLeap(y) then 29 else 28)
    else if m == 4 || m == 6 || m == 9 || m == 11 then 30
    else 31
  }

  /** What `date(year, month, day)` accepts: years 1 to 9999 and a real day of the month. */
  predicate ValidDate(d: Date) {
    1 <= d.year <= 9999 && 1 <= d.month <= 12 && 1 <= d.day <= DaysInMonth(d.year, d.month)
  }

  /** A `datetime.date`: always a valid date. */
  type Day = d: Date | ValidDate(d) witness Date(1, 1, 1)

  /** The days of the months before `m` in year `y`. */
  function DaysBeforeMonth(y: int, m: int): nat
    requires 1 <= m <= 12
  {
    if m == 1 then 0 else DaysBeforeMonth(y, m - 1) + DaysInMonth(y, m - 1)
  }

  /** The days of the years before `y`, from year 1 on. */
  function DaysBeforeYear(y: int): int
    requires y >= 1
  {
    var p := y - 1;
    p * 365 + p / 4 - p / 100 + p / 400
  }

  /** `date.toordinal()`: 1 for 0001-01-01. */
  function Ordinal(d: Day): int {
    DaysBeforeYear(d.year) + DaysBeforeMonth(d.year, d.month) + d.day
  }

  /** The day after `d`. */
  function NextDay(d: Day): (r: Day)
    requires d != Date(9999, 12, 31)
  {
    if d.day < DaysInMonth(d.year, d.month) then Date(d.year, d.month, d.day + 1)
    else if d.month < 12 then Date(d.year, d.month + 1, 1)
    else Date(d.year + 1, 1, 1)
  }

  /** A positive multiple of `k` is at least `k`. */
  lemma MulAtLeast(k: int, d: int)
    requires k > 0 && d >= 1
    ensures k * d >= k
  {
    assert k * d == k * (d - 1) + k;
  }

  /** Euclidean division is unique. */
  lemma DivUnique(a: int, k: int, q: int, r: int)
    requires k > 0 && 0 <= r < k && a == k * q + r
    ensures a / k == q && a % k == r
  {
    var q0 := a / k;
    var r0 := a % k;
    assert k * q + r == k * q0 + r0;
    if q > q0 {
      assert k * (q - q0) == k * q - k * q0;
      MulAtLeast(k, q - q0);
    } else if q < q0 {
      assert k * (q0 - q) == k * q0 - k * q;
      MulAtLeast(k, q0 - q);
    }
  }

  /** Stepping a year adds one to `y / k` exactly when `k` divides `y`. */
  lemma DivStep(y: int, k: int)
    requires y >= 1 && k > 0
    ensures y / k - (y - 1) / k == if y % k == 0 then 1 else 0
  {
    var q := (y - 1) / k;
    var r := (y - 1) % k;
    DivUnique(y - 1, k, q, r);
    if r == k - 1 {
      DivUnique(y, k, q + 1, 0);
    } else {
      DivUnique(y, k, q, r + 1);
    }
  }

  /** December starts 334 days into a common year and 335 into a leap year. */
  lemma DaysBeforeDecember(y: int)
    ensures DaysBeforeMonth(y, 12) == if IsLeap(y) then 335 else 334
  {
    var feb := if IsLeap(y) then 29 else 28;
    assert DaysBeforeMonth(y, 2) == 31;
    assert DaysBeforeMonth(y, 3) == 31 + feb;
    assert DaysBeforeMonth(y, 4) == 62 + feb;
    assert DaysBeforeMonth(y, 5) == 92 + feb;
    assert DaysBeforeMonth(y, 6) == 123 + feb;
    assert DaysBeforeMonth(y, 7) == 153 + feb;
    assert DaysBeforeMonth(y, 8) == 184 + feb;
    assert DaysBeforeMonth(y, 9) == 215 + feb;
    assert DaysBeforeMonth(y, 10) == 245 + feb;
    assert DaysBeforeMonth(y, 11) == 276 + feb;
  }

  /** A year has 366 days when it is a leap year and 365 otherwise. */
  lemma DaysBeforeNextYear(y: int)
    requires y >= 1
    ensures DaysBeforeYear(y + 1) == DaysBeforeYear(y) + if IsLeap(y) then 366 else 365
  {
    DivStep(y, 4);
    DivStep(y, 100);
    DivStep(y, 400);
    if y % 400 == 0 {
      DividesFactor(y, 100, 4);
      DividesFactor(y, 4, 100);
    } else if y % 100 == 0 {
      DividesFactor(y, 4, 25);
    }
  }

  /** A multiple of `k * m` is a multiple of `k`. */
  lemma DividesFactor(y: int, k: int, m: int)
    requires k > 0 && m > 0 && y % (k * m) == 0
    ensures y % k == 0
  {
    var q := y / (k * m);
    assert y == (k * m) * q;
    assert (k * m) * q == k * (m * q);
    DivUnique(y, k, m * q, 0);
  }

  /** The ordinal counts days: the next day is one more. */
  lemma OrdinalNextDay(d: Day)
    requires d != Date(9999, 12, 31)
    ensures Ordinal(NextDay(d)) == Ordinal(d) + 1
  {
    if d.day == DaysInMonth(d.year, d.month) && d.month == 12 {
      DaysBeforeDecember(d.year);
      DaysBeforeNextYear(d.year);
    }
  }

  // ---------------------------------------------------------------------------
  // Keys of the form name-YYYY-MM-DD.
  // ---------------------------------------------------------------------------

  /** `n` ASCII digits starting at index `i`. */
  predicate DigitsAt(s: string, i: nat, n: nat) {
    i + n <= |s| && forall k | i <= k < i + n :: IsDigit(s[k])
  }

  /** The part of a key the date pattern must cover: `$` also matches just before a final line break. */
  function KeyLine(key: string): (t: string)
    ensures key == t || key == t + "\n"
  {
    if |key| > 0 && key[|key| - 1] == '\n' then key[..|key| - 1] else key
  }

  /**
   * `DATE_PATTERN.match(key)`, `^(.+)-(\d{4})-(\d{2})-(\d{2})$`: the name and the three
   * numbers. `.` does not match a line break.
   */
  function MatchDateKey(key: string): (r: Option<(string, nat, nat, nat)>)
    ensures r.Some? ==> |r.value.0| > 0 && '\n' !in r.value.0
  {
    var t := KeyLine(key);
    var n := |t|;
    if n >= 12 && t[n - 11] == '-' && DigitsAt(t, n - 10, 4) && t[n - 6] == '-'
       && DigitsAt(t, n - 5, 2) && t[n - 3] == '-' && DigitsAt(t, n - 2, 2) && '\n' !in t[..n - 11]
    then
      Some((t[..n - 11], DigitsValue(t[n - 10..n - 6]), DigitsValue(t[n - 5..n - 3]), DigitsValue(t[n - 2..])))
    else None
  }

  /**
   * A match lays the key out as name, dash, four digits, dash, two digits, dash, two
   * digits (and perhaps a final line break), and its numbers are those digit runs.
   */
  lemma MatchDateKeyLayout(key: string)
    requires MatchDateKey(key).Some?
    ensures var (name, y, m, d) := MatchDateKey(key).value;
            var t := KeyLine(key);
            var n := |name|;
            |t| == n + 11 && t[..n] == name
            && t[n] == '-' && t[n + 5] == '-' && t[n + 8] == '-'
            && DigitsAt(t, n + 1, 4) && DigitsAt(t, n + 6, 2) && DigitsAt(t, n + 9, 2)
            && y == DigitsValue(t[n + 1..n + 5]) && m == DigitsValue(t[n + 6..n + 8])
            && d == DigitsValue(t[n + 9..])
  {
  }

  /** The pieces of a dated key sit at fixed offsets from the end of its name. */
  lemma DateKeyParts(name: string, ys: string, ms: string, ds: string)
    requires |ys| == 4 && |ms| == 2 && |ds| == 2
    ensures var t := name + "-" + ys + "-" + ms + "-" + ds;
            var n := |name|;
            |t| == n + 11 && t[..n] == name && t[n + 1..n + 5] == ys && t[n + 6..n + 8] == ms
            && t[n + 9..] == ds && t[n] == '-' && t[n + 5] == '-' && t[n + 8] == '-'
  {
    var t := name + "-" + ys + "-" + ms + "-" + ds;
    var n := |name|;
    assert t[..n] == name;
    assert t[n + 1..n + 5] == ys;
    assert t[n + 6..n + 8] == ms;
    assert t[n + 9..] == ds;
  }

  /** A line laid out as name and date matches, whatever text it is. */
  lemma MatchDateLine(key: string, t: string, n: nat)
    requires KeyLine(key) == t && |t| == n + 11 && n > 0 && '\n' !in t[..n]
    requires t[n] == '-' && t[n + 5] == '-' && t[n + 8] == '-'
    requires DigitsAt(t, n + 1, 4) && DigitsAt(t, n + 6, 2) && DigitsAt(t, n + 9, 2)
    ensures MatchDateKey(key)
         == Some((t[..n], DigitsValue(t[n + 1..n + 5]), DigitsValue(t[n + 6..n + 8]), DigitsValue(t[n + 9..])))
  {
  }

  /** Digits found in a slice are digits of the whole. */
  lemma DigitsAtSlice(t: string, i: nat, u: string)
    requires i + |u| <= |t| && t[i..i + |u|] == u && DigitsAt(u, 0, |u|)
    ensures DigitsAt(t, i, |u|)
  {
    forall k | i <= k < i + |u|
      ensures IsDigit(t[k])
    {
      assert t[k] == u[k - i];
    }
  }

  /** Every key of that layout matches, with exactly those parts. */
  lemma MatchDateKeyOf(name: string, ys: string, ms: string, ds: string, tail: string)
    requires |name| > 0 && '\n' !in name
    requires |ys| == 4 && |ms| == 2 && |ds| == 2
    requires DigitsAt(ys, 0, 4) && DigitsAt(ms, 0, 2) && DigitsAt(ds, 0, 2)
    requires tail == "" || tail == "\n"
    ensures MatchDateKey(name + "-" + ys + "-" + ms + "-" + ds + tail)
         == Some((name, DigitsValue(ys), DigitsValue(ms), DigitsValue(ds)))
  {
    var t := name + "-" + ys + "-" + ms + "-" + ds;
    var n := |name|;
    DateKeyParts(name, ys, ms, ds);
    if tail == "" {
      assert t + tail == t && t[|t| - 1] == ds[1];
    } else {
      assert (t + tail)[..|t|] == t;
    }
    DigitsAtSlice(t, n + 1, ys);
    DigitsAtSlice(t, n + 6, ms);
    DigitsAtSlice(t, n + 9, ds);
    MatchDateLine(t + tail, t, n);
  }

  /**
   * `parse_subscription_date`: the name and the date when the key matches and the
   * numbers make a real date, otherwise the key itself and no date.
   */
  function ParseSubscriptionDate(key: string): (r: (string, Option<Day>))
    ensures r.1.None? ==> r.0 == key
    ensures r.1.Some? ==> MatchDateKey(key) == Some((r.0, r.1.value.year, r.1.value.month, r.1.value.day))
    ensures r.1.None? <==>
      MatchDateKey(key).None? || !ValidDate(Date(MatchDateKey(key).value.1, MatchDateKey(key).value.2, MatchDateKey(key).value.3))
  {
    match MatchDateKey(key)
    case None => (key, None)
    case Some((name, y, m, d)) =>
      if ValidDate(Date(y, m, d)) then (name, Some(Date(y, m, d))) else (key, None)
  }

  /** Ten to the power `n`. */
  function Pow10(n: nat): nat {
    if n == 0 then 1 else 10 * Pow10(n - 1)
  }

  /** `n` written with exactly `w` digits, zero-padded on the left. */
  function Fixed(n: nat, w: nat): (s: string)
    requires n < Pow10(w)
    ensures |s| == w && (forall i | 0 <= i < w :: IsDigit(s[i])) && DigitsValue(s) == n
  {
    if w == 0 then ""
    else
      var init := Fixed(n / 10, w - 1);
      var s := init + [Digit(n % 10)];
      assert s[..w - 1] == init;
      s
  }

  /** `date.isoformat()`: YYYY-MM-DD. */
  function IsoDate(d: Day): (s: string)
    ensures |s| == 10
  {
    Fixed(d.year, 4) + "-" + Fixed(d.month, 2) + "-" + Fixed(d.day, 2)
  }

  /** Round trip: a key built from a name and a date's ISO text gives both back. */
  lemma ParseDateKey(name: string, d: Day)
    requires |name| > 0 && '\n' !in name
    ensures ParseSubscriptionDate(name + "-" + IsoDate(d)) == (name, Some(d))
  {
    var y := Fixed(d.year, 4);
    var m := Fixed(d.month, 2);
    var dd := Fixed(d.day, 2);
    var key := name + "-" + IsoDate(d);
    var n := |key|;
    assert key == name + "-" + y + "-" + m + "-" + dd;
    assert key[n - 1] == dd[1];
    assert key[..n - 11] == name;
    assert key[n - 10..n - 6] == y;
    assert key[n - 5..n - 3] == m;
    assert key[n - 2..] == dd;
    assert key[n - 11] == '-' && key[n - 6] == '-' && key[n - 3] == '-';
  }

  /** The digit groups of the two example keys. */
  lemma ExampleDigits()
    ensures DigitsValue("2026") == 2026 && DigitsValue("02") == 2 && DigitsValue("15") == 15
    ensures DigitsValue("13") == 13 && DigitsValue("01") == 1
  {
    assert "2026"[..3] == "202" && "202"[..2] == "20" && "20"[..1] == "2" && "2"[..0] == "";
    assert "02"[..1] == "0" && "15"[..1] == "1" && "13"[..1] == "1" && "01"[..1] == "0";
    assert "0"[..0] == "" && "1"[..0] == "";
  }

  /** The first example key matches the date pattern. */
  lemma DatedKeyMatches()
    ensures MatchDateKey("provider-a-2026-02-15") == Some(("provider-a", 2026, 2, 15))
  {
    ExampleDigits();
    assert "provider-a" + "-" + "2026" + "-" + "02" + "-" + "15" + "" == "provider-a-2026-02-15";
    MatchDateKeyOf("provider-a", "2026", "02", "15", "");
  }

  /** The second example key matches the date pattern too, month 13 and all. */
  lemma BadMonthMatches()
    ensures MatchDateKey("provider-b-2026-13-01") == Some(("provider-b", 2026, 13, 1))
  {
    ExampleDigits();
    assert "provider-b" + "-" + "2026" + "-" + "13" + "-" + "01" + "" == "provider-b-2026-13-01";
    MatchDateKeyOf("provider-b", "2026", "13", "01", "");
  }

  /** A dated key splits into its name and its date. */
  lemma DatedKeyExample()
    ensures ParseSubscriptionDate("provider-a-2026-02-15") == ("provider-a", Some(Date(2026, 2, 15)))
  {
    DatedKeyMatches();
  }

  /** A key without a date is kept whole, with no date. */
  lemma UndatedKeyExample()
    ensures ParseSubscriptionDate("legacy-provider") == ("legacy-provider", None)
  {
    var a := "legacy-provider";
    assert a[4] != '-';
  }

  /** A key whose month does not exist is kept whole, with no date. */
  lemma BadMonthExample()
    ensures ParseSubscriptionDate("provider-b-2026-13-01") == ("provider-b-2026-13-01", None)
  {
    BadMonthMatches();
  }

  // ---------------------------------------------------------------------------
  // Status of one subscription.
  // ---------------------------------------------------------------------------

  datatype Status = Expired | Expiring | Active | Unknown

  /**
   * `calculate_status`: no date gives no day count and Unknown; otherwise the days
   * from today to the date, and Expired below 0, Expiring up to 7, Active beyond.
   */
  function CalculateStatus(expire: Option<Day>, today: Day): (r: (Option<int>, Status))
    ensures expire.None? <==> r.0.None?
    ensures expire.None? ==> r.1 == Unknown
    ensures expire.Some? ==> r.0 == Some(Ordinal(expire.value) - Ordinal(today))
    ensures r.1 == Expired <==> r.0.Some? && r.0.value < 0
    ensures r.1 == Expiring <==> r.0.Some? && 0 <= r.0.value <= 7
    ensures r.1 == Active <==> r.0.Some? && r.0.value > 7
  {
    match expire
    case None => (None, Unknown)
    case Some(e) =>
      var days := Ordinal(e) - Ordinal(today);
      if days < 0 then (Some(days), Expired)
      else if days <= 7 then (Some(days), Expiring)
      else (Some(days), Active)
  }

  /** A subscription expiring tomorrow is expiring, with one day left. */
  lemma ExpiringTomorrow(today: Day)
    requires today != Date(9999, 12, 31)
    ensures CalculateStatus(Some(NextDay(today)), today) == (Some(1), Expiring)
  {
    OrdinalNextDay(today);
  }

  // ---------------------------------------------------------------------------
  // The report.
  // ---------------------------------------------------------------------------

  /** A provider's value in the YAML table: a mapping (with an optional url) or anything else. */
  datatype ProviderValue = Mapping(url: Option<string>) | Other

  /** The record of one subscription. */
  datatype SubscriptionInfo = SubscriptionInfo(
    key: string,
    name: string,
    expireDate: Option<Day>,
    daysRemaining: Option<int>,
    status: Status,
    url: Option<string>)

  /** The record for one provider entry. */
  function InfoOf(key: string, value: ProviderValue, today: Day): (r: SubscriptionInfo)
    ensures r.key == key && (r.status, r.daysRemaining) == (CalculateStatus(r.expireDate, today).1, CalculateStatus(r.expireDate, today).0)
    ensures (r.name, r.expireDate) == ParseSubscriptionDate(key)
    ensures r.url == if value.Mapping? then value.url else None
  {
    var (name, expire) := ParseSubscriptionDate(key);
    var (days, status) := CalculateStatus(expire, today);
    SubscriptionInfo(key, name, expire, days, status, if value.Mapping? then value.url else None)
  }

  /** The position of a status in the report: expired first, unknown last. */
  function Rank(s: Status): nat {
    match s
    case Expired => 0
    case Expiring => 1
    case Active => 2
    case Unknown => 3
  }

  /** The second sort key, `days_remaining or 999`: no count, and also 0, sort as 999. */
  function Tiebreak(days: Option<int>): int {
    if days.None? || days.value == 0 then 999 else days.value
  }

  /** The sort key of a record, compared lexicographically. */
  function SortKey(x: SubscriptionInfo): (int, int) {
    (Rank(x.status), Tiebreak(x.daysRemaining))
  }

  /** `a` sorts no later than `b`. */
  predicate KeyLe(a: SubscriptionInfo, b: SubscriptionInfo) {
    SortKey(a).0 < SortKey(b).0 || (SortKey(a).0 == SortKey(b).0 && SortKey(a).1 <= SortKey(b).1)
  }

  /** Every record sorts no later than the ones after it. */
  predicate Sorted(xs: seq<SubscriptionInfo>) {
    forall i, j | 0 <= i < j < |xs| :: KeyLe(xs[i], xs[j])
  }

  /** `x` placed after every element whose key is not greater, as a stable sort places it. */
  function Insert(xs: seq<SubscriptionInfo>, x: SubscriptionInfo): (r: seq<SubscriptionInfo>)
    ensures multiset(r) == multiset(xs) + multiset{x}
  {
    if |xs| == 0 then [x]
    else if KeyLe(xs[0], x) then
      assert xs == [xs[0]] + xs[1..];
      [xs[0]] + Insert(xs[1..], x)
    else
      [x] + xs
  }

  /** Inserting into a sorted list keeps it sorted. */
  lemma {:induction false} InsertSorted(xs: seq<SubscriptionInfo>, x: SubscriptionInfo)
    requires Sorted(xs)
    ensures Sorted(Insert(xs, x))
    decreases |xs|
  {
    if |xs| > 0 && KeyLe(xs[0], x) {
      InsertSorted(xs[1..], x);
      var r := Insert(xs, x);
      var rest := Insert(xs[1..], x);
      assert r == [xs[0]] + rest;
      forall j | 0 < j < |r| ensures KeyLe(r[0], r[j]) {
        assert r[j] in multiset(rest);
        assert r[j] in multiset(xs[1..]) + multiset{x};
        if r[j] in multiset(xs[1..]) {
          var t :| 0 <= t < |xs[1..]| && xs[1..][t] == r[j];
          assert KeyLe(xs[0], xs[t + 1]);
        }
      }
    }
  }

  /** `list.sort(key=...)`: a stable sort, elements taken in order. */
  function SortByKey(xs: seq<SubscriptionInfo>): (r: seq<SubscriptionInfo>)
    ensures multiset(r) == multiset(xs)
  {
    if |xs| == 0 then []
    else
      var n := |xs| - 1;
      assert xs == xs[..n] + [xs[n]];
      Insert(SortByKey(xs[..n]), xs[n])
  }

  /** The sort's result is ordered by the key. */
  lemma {:induction false} SortSorted(xs: seq<SubscriptionInfo>)
    ensures Sorted(SortByKey(xs))
    decreases |xs|
  {
    if |xs| > 0 {
      var n := |xs| - 1;
      SortSorted(xs[..n]);
      InsertSorted(SortByKey(xs[..n]), xs[n]);
    }
  }

  /** The elements of a list whose sort key is `k`, in order. */
  function WithKey(xs: seq<SubscriptionInfo>, k: (int, int)): seq<SubscriptionInfo> {
    if |xs| == 0 then []
    else (if SortKey(xs[0]) == k then [xs[0]] else []) + WithKey(xs[1..], k)
  }

  /** Selecting by key distributes over concatenation. */
  lemma {:induction false} WithKeyAppend(a: seq<SubscriptionInfo>, b: seq<SubscriptionInfo>, k: (int, int))
    ensures WithKey(a + b, k) == WithKey(a, k) + WithKey(b, k)
    decreases |a|
  {
    if |a| > 0 {
      assert (a + b)[1..] == a[1..] + b;
      WithKeyAppend(a[1..], b, k);
    } else {
      assert a + b == b;
    }
  }

  /** Inserting keeps the order among equal keys: `x` comes after the earlier ones. */
  lemma {:induction false} InsertStable(xs: seq<SubscriptionInfo>, x: SubscriptionInfo, k: (int, int))
    requires Sorted(xs)
    ensures WithKey(Insert(xs, x), k) == WithKey(xs, k) + WithKey([x], k)
    decreases |xs|
  {
    if |xs| > 0 {
      if KeyLe(xs[0], x) {
        var head, tail := xs[0], xs[1..];
        InsertStable(tail, x, k);
        assert Insert(xs, x) == [head] + Insert(tail, x);
        WithKeyAppend([head], Insert(tail, x), k);
        assert xs == [head] + tail;
        WithKeyAppend([head], tail, k);
      } else {
        InsertFront(xs, x, k);
      }
    }
  }

  /** An element whose key is below the first of a sorted list goes in front, ahead of no equal key. */
  lemma InsertFront(xs: seq<SubscriptionInfo>, x: SubscriptionInfo, k: (int, int))
    requires Sorted(xs) && |xs| > 0 && !KeyLe(xs[0], x)
    ensures WithKey(Insert(xs, x), k) == WithKey(xs, k) + WithKey([x], k)
  {
    forall i | 0 <= i < |xs| ensures SortKey(xs[i]) != SortKey(x) {
      if i > 0 {
        assert KeyLe(xs[0], xs[i]);
      }
    }
    NoKeyIn(xs, SortKey(x));
    WithKeyAppend([x], xs, k);
    if SortKey(x) == k {
      assert WithKey(xs, k) == [];
    } else {
      NoKeyIn([x], k);
    }
  }

  /** A list none of whose keys is `k` keeps nothing under `k`. */
  lemma {:induction false} NoKeyIn(xs: seq<SubscriptionInfo>, k: (int, int))
    requires forall i | 0 <= i < |xs| :: SortKey(xs[i]) != k
    ensures WithKey(xs, k) == []
    decreases |xs|
  {
    if |xs| > 0 {
      NoKeyIn(xs[1..], k);
    }
  }

  /** The sort is stable: the records of each key keep their original order. */
  lemma {:induction false} SortStable(xs: seq<SubscriptionInfo>, k: (int, int))
    ensures WithKey(SortByKey(xs), k) == WithKey(xs, k)
    decreases |xs|
  {
    if |xs| > 0 {
      var n := |xs| - 1;
      var init, last := xs[..n], xs[n];
      assert xs == init + [last];
      WithKeyAppend(init, [last], k);
      SortStable(init, k);
      SortSorted(init);
      assert SortByKey(xs) == Insert(SortByKey(init), last);
      InsertStable(SortByKey(init), last, k);
    }
  }

  /** The records of a provider table, in the table's order. */
  function Infos(providers: seq<(string, ProviderValue)>, today: Day): (r: seq<SubscriptionInfo>)
    ensures |r| == |providers|
    ensures forall i | 0 <= i < |providers| :: r[i] == InfoOf(providers[i].0, providers[i].1, today)
  {
    seq(|providers|, i requires 0 <= i < |providers| => InfoOf(providers[i].0, providers[i].1, today))
  }

  /** What `get_subscription_status` returns: no file gives no records; otherwise the records sorted. */
  function SubscriptionStatus(providers: Option<seq<(string, ProviderValue)>>, today: Day): seq<SubscriptionInfo> {
    if providers.None? then [] else SortByKey(Infos(providers.value, today))
  }

  /** `get_subscription_status`: one record appended per provider, then the list sorted. */
  method GetSubscriptionStatus(providers: Option<seq<(string, ProviderValue)>>, today: Day)
    returns (subscriptions: seq<SubscriptionInfo>)
    ensures subscriptions == SubscriptionStatus(providers, today)
  {
    if providers.None? {
      return [];
    }
    var table := providers.value;
    ghost var all := Infos(table, today);
    subscriptions := [];
    for i := 0 to |table|
      invariant subscriptions == all[..i]
    {
      var (key, value) := table[i];
      var info := InfoOf(key, value, today);
      assert all[..i + 1] == all[..i] + [info];
      subscriptions := subscriptions + [info];
    }
    assert all[..|table|] == all;
    subscriptions := SortByKey(subscriptions);
  }

  // ---------------------------------------------------------------------------
  // The summary.
  // ---------------------------------------------------------------------------

  /** `sum(1 for s in subscriptions if s.status == ...)`. */
  function CountStatus(xs: seq<SubscriptionInfo>, s: Status): (r: nat)
    ensures r <= |xs|
  {
    if |xs| == 0 then 0 else (if xs[0].status == s then 1 else 0) + CountStatus(xs[1..], s)
  }

  /** Counting splits over concatenation. */
  lemma {:induction false} CountStatusAppend(xs: seq<SubscriptionInfo>, ys: seq<SubscriptionInfo>, s: Status)
    ensures CountStatus(xs + ys, s) == CountStatus(xs, s) + CountStatus(ys, s)
    decreases |xs|
  {
    if |xs| > 0 {
      assert (xs + ys)[1..] == xs[1..] + ys;
      CountStatusAppend(xs[1..], ys, s);
    } else {
      assert xs + ys == ys;
    }
  }

  /** A single record counts once, under its own status. */
  lemma CountStatusSingle(x: SubscriptionInfo, s: Status)
    ensures CountStatus([x], s) == if x.status == s then 1 else 0
  {
    assert [x][1..] == [];
  }

  /** Every record has one of the four statuses. */
  lemma {:induction false} CountsAddUp(xs: seq<SubscriptionInfo>)
    ensures CountStatus(xs, Expired) + CountStatus(xs, Expiring) + CountStatus(xs, Active)
            + CountStatus(xs, Unknown) == |xs|
    decreases |xs|
  {
    if |xs| > 0 {
      CountsAddUp(xs[1..]);
    }
  }

  /** One entry of the summary's list: the date as ISO text. */
  datatype SummaryEntry = SummaryEntry(
    key: string,
    name: string,
    expireDate: Option<string>,
    daysRemaining: Option<int>,
    status: Status)

  /** The summary: the total, one count per status, and the entries. */
  datatype Summary = Summary(
    total: nat,
    expired: nat,
    expiring: nat,
    active: nat,
    unknown: nat,
    subscriptions: seq<SummaryEntry>)

  /** The summary entry of a record. */
  function EntryOf(s: SubscriptionInfo): SummaryEntry {
    SummaryEntry(s.key, s.name, if s.expireDate.Some? then Some(IsoDate(s.expireDate.value)) else None,
                 s.daysRemaining, s.status)
  }

  /** The report has one record per provider, and none without a file. */
  lemma SubscriptionStatusLength(providers: Option<seq<(string, ProviderValue)>>, today: Day)
    ensures |SubscriptionStatus(providers, today)| == if providers.None? then 0 else |providers.value|
  {
    if providers.Some? {
      var subs := SubscriptionStatus(providers, today);
      assert |multiset(subs)| == |multiset(Infos(providers.value, today))|;
    }
  }

  /** The summary dictionary built from a list of records. */
  function SummaryOf(subs: seq<SubscriptionInfo>): (r: Summary)
    ensures r.total == |subs| == |r.subscriptions|
    ensures r.total == r.expired + r.expiring + r.active + r.unknown
    ensures r.expired == CountStatus(subs, Expired) && r.expiring == CountStatus(subs, Expiring)
    ensures r.active == CountStatus(subs, Active) && r.unknown == CountStatus(subs, Unknown)
    ensures forall i | 0 <= i < |subs| :: r.subscriptions[i] == EntryOf(subs[i])
  {
    CountsAddUp(subs);
    Summary(|subs|, CountStatus(subs, Expired), CountStatus(subs, Expiring),
            CountStatus(subs, Active), CountStatus(subs, Unknown),
            seq(|subs|, i requires 0 <= i < |subs| => EntryOf(subs[i])))
  }

  /**
   * `get_status_summary`: the counts per status add up to the total, and the list
   * follows the report's order.
   */
  function GetStatusSummary(providers: Option<seq<(string, ProviderValue)>>, today: Day): (r: Summary)
    ensures r.total == r.expired + r.expiring + r.active + r.unknown
    ensures r.total == |SubscriptionStatus(providers, today)| == |r.subscriptions|
    ensures providers.None? ==> r.total == 0
    ensures providers.Some? ==> r.total == |providers.value|
    ensures r.expired == CountStatus(SubscriptionStatus(providers, today), Expired)
    ensures r.expiring == CountStatus(SubscriptionStatus(providers, today), Expiring)
    ensures r.active == CountStatus(SubscriptionStatus(providers, today), Active)
    ensures r.unknown == CountStatus(SubscriptionStatus(providers, today), Unknown)
    ensures forall i | 0 <= i < |r.subscriptions| ::
      var s := SubscriptionStatus(providers, today)[i];
      && r.subscriptions[i].key == s.key && r.subscriptions[i].name == s.name
      && r.subscriptions[i].status == s.status && r.subscriptions[i].daysRemaining == s.daysRemaining
      && r.subscriptions[i].expireDate == if s.expireDate.Some? then Some(IsoDate(s.expireDate.value)) else None
  {
    SubscriptionStatusLength(providers, today);
    SummaryOf(SubscriptionStatus(providers, today))
  }
}
