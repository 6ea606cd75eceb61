/** The daily safety-tip rotation of post_daily_slack.py: the tip for a day is
    chosen by the number of days between that day and 2020-01-01, taken modulo
    the number of tips. Nothing is stored between runs; the day is a parameter
    here where the script reads the wall clock. */
module Rotation {
  import opened Calendar

  /** The six tips, in rotation order. */
  const Messages: seq<string> := [
    "Daily WHS Tip: Report hazards early \U{2013} small issues prevent big incidents. :safety_vest:",
    "Daily WHS Tip: Use proper lifting technique \U{2013} bend your knees, keep the load close.",
    "Daily WHS Tip: Maintain 3 points of contact on stairs and ladders. No shortcuts.",
    "Daily WHS Tip: Keep walkways clear to reduce trips and falls. Tidy as you go.",
    "Daily WHS Tip: PPE is your last line of defence \U{2013} wear it correctly and consistently.",
    "Daily WHS Tip: Stop work if it\U{2019}s unsafe. Safety always beats speed."
  ]

  /** The day whose tip is the first one. */
  const Anchor: Date := Date(2020, 1, 1)

  /** Python's `//` on integers: division rounded toward negative infinity.
      (Dafny's own `/` is Euclidean and differs for a negative divisor.) */
  function FloorDiv(a: int, n: int): int
    requires n != 0
  {
    if n > 0 || a % n == 0 then a / n else a / n - 1
  }

  /** Python's `%` on integers: the remainder left by FloorDiv, which takes
      the sign of the divisor. A zero divisor raises ZeroDivisionError in
      Python and is excluded here. */
  function FloorMod(a: int, n: int): (r: int)
    requires n != 0
    ensures n > 0 ==> 0 <= r < n
    ensures n < 0 ==> n < r <= 0
    ensures a == n * FloorDiv(a, n) + r
  {
    if n > 0 || a % n == 0 then a % n
    else
      assert n * (a / n - 1) == n * (a / n) - n;
      a % n + n
  }

  /** `days_since_anchor % len(MESSAGES)` for the given day. */
  function PickIndex(today: Date): (i: nat)
    requires Valid(today)
    ensures i < |Messages|
    ensures DaysBetween(today, Anchor) == |Messages| * FloorDiv(DaysBetween(today, Anchor), |Messages|) + i
  {
    FloorMod(DaysBetween(today, Anchor), |Messages|)
  }

  /** The tip posted on the given day. */
  function PickMessage(today: Date): (m: string)
    requires Valid(today)
    ensures m in Messages
  {
    Messages[PickIndex(today)]
  }

  // ---------------------------------------------------------------------------
  // Properties of the rotation.

  /** The tip list is the fixed list of six, so the modulo never divides by zero. */
  lemma MessagesLength()
    ensures |Messages| == 6
  {
  }

  /** No two tips are the same text, so a tip identifies its position. */
  lemma MessagesDistinct(i: int, j: int)
    requires 0 <= i < |Messages| && 0 <= j < |Messages|
    ensures Messages[i] == Messages[j] <==> i == j
  {
  }

  /** On the anchor day the day count is zero and the first tip is chosen. */
  lemma AnchorPicksFirst()
    ensures PickIndex(Anchor) == 0
    ensures PickMessage(Anchor) == Messages[0]
  {
  }

  /** Day counts from the anchor differ by the day count between the two days. */
  lemma DaysBetweenViaAnchor(a: Date, b: Date)
    requires Valid(a) && Valid(b)
    ensures DaysBetween(a, b) == DaysBetween(a, Anchor) - DaysBetween(b, Anchor)
  {
  }

  /** Two days get the same tip exactly when the days between them are a
      multiple of the number of tips: the rotation has period six. */
  lemma SameMessageIff(a: Date, b: Date)
    requires Valid(a) && Valid(b)
    ensures PickMessage(a) == PickMessage(b) <==> DaysBetween(a, b) % |Messages| == 0
  {
    var x, y := DaysBetween(a, Anchor), DaysBetween(b, Anchor);
    MessagesLength();
    PickIndexIsRemainder(a);
    PickIndexIsRemainder(b);
    DaysBetweenViaAnchor(a, b);
    SameRemainder(x, y);
    MessagesDistinct(PickIndex(a), PickIndex(b));
  }

  /** Two integers leave the same remainder by six exactly when their
      difference is a multiple of six. */
  lemma SameRemainder(x: int, y: int)
    ensures x % 6 == y % 6 <==> (x - y) % 6 == 0
  {
    var qx, qy := x / 6, y / 6;
    assert x == 6 * qx + x % 6 && y == 6 * qy + y % 6;
    assert x - y == 6 * (qx - qy) + (x % 6 - y % 6);
  }

  /** Days exactly six apart get the same tip. */
  lemma PeriodSix(a: Date, b: Date)
    requires Valid(a) && Valid(b)
    requires DaysBetween(a, b) == |Messages|
    ensures PickMessage(a) == PickMessage(b)
  {
    SameMessageIff(a, b);
  }

  /** From one calendar day to the next the index advances by one, and the
      last tip is followed by the first. */
  lemma NextDayAdvances(d: Date)
    requires Valid(d) && NextDay(d).Some?
    ensures PickIndex(NextDay(d).value) == (PickIndex(d) + 1) % |Messages|
    ensures PickIndex(d) == |Messages| - 1 ==> PickIndex(NextDay(d).value) == 0
  {
    var e := NextDay(d).value;
    var x, y := DaysBetween(d, Anchor), DaysBetween(e, Anchor);
    NextDayOrdinal(d);
    DaysBetweenViaAnchor(e, d);
    assert y == x + 1;
    MessagesLength();
    PickIndexIsRemainder(d);
    PickIndexIsRemainder(e);
    SumRemainder(x, 1);
  }

  /** `k` calendar days later the index has advanced by `k`, modulo six. */
  lemma AddDaysAdvances(d: Date, k: nat)
    requires Valid(d) && AddDays(d, k).Some?
    ensures PickIndex(AddDays(d, k).value) == (PickIndex(d) + k) % |Messages|
  {
    var e := AddDays(d, k).value;
    var x, y := DaysBetween(d, Anchor), DaysBetween(e, Anchor);
    AddDaysOrdinal(d, k);
    DaysBetweenViaAnchor(e, d);
    assert y == x + k;
    MessagesLength();
    PickIndexIsRemainder(d);
    PickIndexIsRemainder(e);
    SumRemainder(x, k);
  }

  /** For the positive divisor `len(MESSAGES)`, Python's `%` and Dafny's `%` agree. */
  lemma PickIndexIsRemainder(d: Date)
    requires Valid(d)
    ensures PickIndex(d) == DaysBetween(d, Anchor) % |Messages|
  {
  }

  /** Adding `k` shifts the remainder by six by `k`, modulo six. */
  lemma SumRemainder(x: int, k: int)
    ensures (x + k) % 6 == (x % 6 + k) % 6
  {
    var q := x / 6;
    assert x + k == 6 * q + (x % 6 + k);
  }

  /** The day before the anchor is day -1, and Python's `%` turns that into
      index 5, the last tip, rather than a negative index. */
  lemma DayBeforeAnchorPicksLast()
    ensures DaysBetween(Date(2019, 12, 31), Anchor) == -1
    ensures PickIndex(Date(2019, 12, 31)) == 5
    ensures PickMessage(Date(2019, 12, 31)) == Messages[5]
  {
    NextDayOrdinal(Date(2019, 12, 31));
  }

  /** 2020 is a leap year, so 2021-01-01 is 366 days on, a multiple of six,
      and the first tip comes round again. */
  lemma LeapYearBackToFirst()
    ensures DaysBetween(Date(2021, 1, 1), Anchor) == 366
    ensures PickIndex(Date(2021, 1, 1)) == 0
    ensures PickMessage(Date(2021, 1, 1)) == Messages[0]
  {
    DaysBeforeNextYear(2020);
  }
}
