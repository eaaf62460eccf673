/**
 * The `/wallpaper` image: twelve month blocks, three per row, each a
 * Sunday-first week grid of dots, followed by the "days left" counter.
 */
module Mosaic {
  import opened Calendar
  import opened Progress
  import opened Render

  // Measurements, in pixels.
  const TopOfJanText := 875
  const MonthToMonthSpacing := 240
  const DotDiameter := 15
  const DotGap := 15
  const BottomTextDistance := 575

  // Derived layout.
  const DotRadius: real := DotDiameter as real / 2.0
  const Spacing := DotDiameter + DotGap
  const MonthDotsWidth := 7 * DotDiameter + 6 * DotGap
  const MonthsPerRow := 3
  const MonthSpacingX := MonthToMonthSpacing
  const RowSpan := (MonthsPerRow - 1) * MonthSpacingX + MonthDotsWidth
  const MonthLabelGap := 30
  const VerticalGap := 60
  const MaxMonthHeight := 6 * Spacing
  const RowSpacing := MonthLabelGap + MaxMonthHeight + VerticalGap
  const ContentTop := TopOfJanText

  const MonthNames: seq<string> :=
    ["Jan", "Feb", "Mar", "Apr", "May", "Jun", "Jul", "Aug", "Sep", "Oct", "Nov", "Dec"]

  /** The colours of the dots ('#' already prepended). */
  datatype Palette = Palette(dot: string, today: string)

  /** Left edge of the three-month row, centred in the canvas: the left margin
      is the right margin or one pixel more. */
  function StartX(width: int): (x: int)
    ensures 0 <= x - (width - (x + RowSpan)) <= 1
  {
    RoundHalf(width - RowSpan)
  }

  /** Left edge of month m's dots and label. */
  function MonthLeft(width: int, m: int): int {
    StartX(width) + (m % MonthsPerRow) * MonthSpacingX
  }

  /** Top of month m's label; its first row of dots starts MonthLabelGap lower. */
  function MonthY(m: int): int {
    ContentTop + (m / MonthsPerRow) * RowSpacing
  }

  function MonthLabel(width: int, m: int): Draw
    requires 0 <= m < 12
  {
    Text(MonthNames[m], MonthLeft(width, m) as real, MonthY(m) as real)
  }

  /** Three-way classification by (month, day) against today; today wins over
      "past", whose test also admits today. */
  function DayStateOf(m: int, day: int, now: Date): DayState {
    var isToday := m == now.month && day == now.day;
    var isPast := m < now.month || (m == now.month && day <= now.day);
    if isToday then Today else if isPast then Past else Future
  }

  /** The dot of day `day` of month m of the current year. */
  function DayDot(width: int, now: Date, pal: Palette, m: int, day: int): Draw
    requires 0 <= m < 12
  {
    var startDayOfWeek := Weekday(Date(now.year, m, 1));
    var position := startDayOfWeek + day - 1;
    var state := DayStateOf(m, day, now);
    Dot(MonthLeft(width, m) as real + DotRadius + ((position % 7) * Spacing) as real,
        (MonthY(m) + MonthLabelGap) as real + DotRadius + ((position / 7) * Spacing) as real,
        DotRadius,
        state,
        if state == Today then pal.today else pal.dot,
        if state == Future then 0.3 else 1.0)
  }

  /** Dots of days 1 .. k of month m, in drawing order. */
  function DaysDrawn(width: int, now: Date, pal: Palette, m: int, k: nat): (ops: seq<Draw>)
    requires 0 <= m < 12
    ensures |ops| == k
  {
    if k == 0 then [] else DaysDrawn(width, now, pal, m, k - 1) + [DayDot(width, now, pal, m, k)]
  }

  /** Month m's label followed by the dots of all its days. */
  function MonthBlock(width: int, now: Date, pal: Palette, m: int): seq<Draw>
    requires 0 <= m < 12
  {
    [MonthLabel(width, m)] + DaysDrawn(width, now, pal, m, DaysInMonth(now.year, m))
  }

  /** Blocks of months 0 .. k-1, in drawing order. */
  function MonthsDrawn(width: int, now: Date, pal: Palette, k: nat): seq<Draw>
    requires k <= 12
  {
    if k == 0 then [] else MonthsDrawn(width, now, pal, k - 1) + MonthBlock(width, now, pal, k - 1)
  }

  /** The month loop: each month's label, then its days. `alpha` is the global
      alpha left behind, which the counter drawn next relies on. */
  method DrawMonths(width: int, now: Date, pal: Palette) returns (ops: seq<Draw>, alpha: real)
    requires ValidDate(now)
    ensures ops == MonthsDrawn(width, now, pal, 12)
    ensures alpha == 1.0
    ensures StatesOf(ops) == OrdinalStates(DaysBeforeMonth(now.year, 12), DayOfYear(now))
  {
    ops, alpha := [], 1.0;
    for monthIndex := 0 to 12
      invariant ops == MonthsDrawn(width, now, pal, monthIndex)
      invariant alpha == 1.0
    {
      var col := monthIndex % MonthsPerRow;
      var row := monthIndex / MonthsPerRow;
      var monthLeft := StartX(width) + col * MonthSpacingX;
      var monthY := ContentTop + row * RowSpacing;
      var dots;
      ghost var earlier := ops;
      ops := ops + [Text(MonthNames[monthIndex], monthLeft as real, monthY as real)];
      dots, alpha := DrawMonthDays(width, now, pal, monthIndex, monthLeft, monthY);
      ops := ops + dots;
      assert ops == earlier + MonthBlock(width, now, pal, monthIndex);
    }
    MosaicStates(width, now, pal, 12);
  }

  /** The day loop of month m. Before each fill the fill style and global alpha
      are chosen by the day's state; after it the alpha is put back to 1. */
  method DrawMonthDays(width: int, now: Date, pal: Palette, monthIndex: int, monthLeft: int, monthY: int)
    returns (dots: seq<Draw>, alpha: real)
    requires 0 <= monthIndex < 12
    requires monthLeft == MonthLeft(width, monthIndex) && monthY == MonthY(monthIndex)
    ensures dots == DaysDrawn(width, now, pal, monthIndex, DaysInMonth(now.year, monthIndex))
    ensures alpha == 1.0
  {
    dots, alpha := [], 1.0;
    var daysInMonth := DaysInMonth(now.year, monthIndex);
    var startDayOfWeek := Weekday(Date(now.year, monthIndex, 1));
    for day := 1 to daysInMonth + 1
      invariant dots == DaysDrawn(width, now, pal, monthIndex, day - 1)
      invariant alpha == 1.0
    {
      var position := startDayOfWeek + day - 1;
      var dotCol := position % 7;
      var dotRow := position / 7;
      var cx := monthLeft as real + DotRadius + (dotCol * Spacing) as real;
      var cy := (monthY + MonthLabelGap) as real + DotRadius + (dotRow * Spacing) as real;

      var isToday := monthIndex == now.month && day == now.day;
      var isPast := monthIndex < now.month || (monthIndex == now.month && day <= now.day);
      var fill, state;
      if isToday {
        fill, alpha, state := pal.today, 1.0, Today;
      } else if isPast {
        fill, alpha, state := pal.dot, 1.0, Past;
      } else {
        fill, alpha, state := pal.dot, 0.3, Future;
      }
      var dot := Dot(cx, cy, DotRadius, state, fill, alpha);
      assert dot == DayDot(width, now, pal, monthIndex, day);
      dots := dots + [dot];
      alpha := 1.0;
    }
  }

  /** The whole handler body after the background: months, then the counter,
      centred at half the width, BottomTextDistance above the bottom edge. */
  method Wallpaper(width: int, height: int, now: Date, pal: Palette) returns (ops: seq<Draw>)
    requires ValidDate(now)
    ensures var p := ComputeProgress(now);
      && ops == MonthsDrawn(width, now, pal, 12)
                + [Counter(p.daysLeft, p.percentage, width as real / 2.0, (height - BottomTextDistance) as real)]
      && |StatesOf(ops)| == p.totalDays
      && multiset(StatesOf(ops))[Today] == 1
      && multiset(StatesOf(ops))[Past] == p.dayOfYear - 1
      && multiset(StatesOf(ops))[Future] == p.daysLeft
  {
    var p := ComputeProgress(now);
    var months, alpha := DrawMonths(width, now, pal);
    ops := months + [Counter(p.daysLeft, p.percentage, width as real / 2.0, (height - BottomTextDistance) as real)];
    StatesOfAppend(months, [ops[|ops| - 1]]);
    assert StatesOf([ops[|ops| - 1]]) == [];
    OrdinalStateCounts(p.totalDays, p.dayOfYear);
  }

  // ---- Properties of the drawing ----

  /** Classifying by (month, day) is classifying by day-of-year. */
  lemma DayStateByOrdinal(now: Date, m: int, d: int)
    requires ValidDate(now) && 0 <= m < 12 && 1 <= d <= DaysInMonth(now.year, m)
    ensures DayStateOf(m, d, now)
         == OrdinalState(DaysBeforeMonth(now.year, m) + d, DayOfYear(now))
  {
    var y := now.year;
    if m < now.month {
      DaysBeforeMonthMonotone(y, m, now.month);
    } else if m > now.month {
      DaysBeforeMonthMonotone(y, now.month, m);
    }
  }

  lemma {:induction false} DaysDrawnStates(width: int, now: Date, pal: Palette, m: int, j: nat)
    requires ValidDate(now) && 0 <= m < 12 && j <= DaysInMonth(now.year, m)
    ensures StatesOf(DaysDrawn(width, now, pal, m, j))
         == OrdinalRange(DaysBeforeMonth(now.year, m), j, DayOfYear(now))
  {
    if j > 0 {
      var prev, dot := DaysDrawn(width, now, pal, m, j - 1), DayDot(width, now, pal, m, j);
      DaysDrawnStates(width, now, pal, m, j - 1);
      DaysDrawnSnoc(width, now, pal, m, j);
      DayStateByOrdinal(now, m, j);
      NextDayState(prev, dot, DaysBeforeMonth(now.year, m), j, DayOfYear(now));
    }
  }

  lemma DaysDrawnSnoc(width: int, now: Date, pal: Palette, m: int, j: nat)
    requires 0 <= m < 12 && j > 0
    ensures DaysDrawn(width, now, pal, m, j) == DaysDrawn(width, now, pal, m, j - 1) + [DayDot(width, now, pal, m, j)]
    ensures DayDot(width, now, pal, m, j).Dot? && DayDot(width, now, pal, m, j).state == DayStateOf(m, j, now)
  {
  }

  /** The dots of month m carry the states of its days' ordinals. */
  lemma MonthBlockStates(width: int, now: Date, pal: Palette, m: int)
    requires ValidDate(now) && 0 <= m < 12
    ensures StatesOf(MonthBlock(width, now, pal, m))
         == OrdinalRange(DaysBeforeMonth(now.year, m), DaysInMonth(now.year, m), DayOfYear(now))
  {
    var heading, days := MonthLabel(width, m), DaysDrawn(width, now, pal, m, DaysInMonth(now.year, m));
    DaysDrawnStates(width, now, pal, m, DaysInMonth(now.year, m));
    StatesOfAppend([heading], days);
    assert StatesOf([heading]) == [];
  }

  /** The dots of the first k months carry the states of days 1 .. (days before month k). */
  lemma {:induction false} MosaicStates(width: int, now: Date, pal: Palette, k: nat)
    requires ValidDate(now) && k <= 12
    ensures StatesOf(MonthsDrawn(width, now, pal, k))
         == OrdinalStates(DaysBeforeMonth(now.year, k), DayOfYear(now))
  {
    var y, t := now.year, DayOfYear(now);
    if k > 0 {
      var m := k - 1;
      MosaicStates(width, now, pal, m);
      MonthBlockStates(width, now, pal, m);
      MonthsDrawnSnoc(width, now, pal, m);
      DaysBeforeMonthIsCumulative(y, m);
      ConsecutiveStates(MonthsDrawn(width, now, pal, m), MonthBlock(width, now, pal, m),
                        DaysBeforeMonth(y, m), DaysInMonth(y, m), t);
    } else {
      assert OrdinalStates(0, t) == [];
    }
  }

  /** Days 1 .. a followed by days a+1 .. a+n are days 1 .. a+n. */
  lemma ConsecutiveStates(earlier: seq<Draw>, block: seq<Draw>, a: nat, n: nat, t: int)
    requires StatesOf(earlier) == OrdinalRange(0, a, t) && StatesOf(block) == OrdinalRange(a, n, t)
    ensures StatesOf(earlier + block) == OrdinalStates(a + n, t)
  {
    StatesOfAppend(earlier, block);
    OrdinalRangeSplit(0, a, n, t);
  }

  lemma {:induction false} DaysDrawnAt(width: int, now: Date, pal: Palette, m: int, k: nat, d: int)
    requires 0 <= m < 12 && 1 <= d <= k
    ensures DaysDrawn(width, now, pal, m, k)[d - 1] == DayDot(width, now, pal, m, d)
  {
    if d < k {
      DaysDrawnAt(width, now, pal, m, k - 1, d);
    }
  }

  lemma {:induction false} MonthsDrawnLength(width: int, now: Date, pal: Palette, k: nat)
    requires k <= 12
    ensures |MonthsDrawn(width, now, pal, k)| == k + DaysBeforeMonth(now.year, k)
  {
    if k > 0 {
      MonthsDrawnLength(width, now, pal, k - 1);
      DaysBeforeMonthIsCumulative(now.year, k - 1);
    }
  }

  /** Drawing later months only appends: what is drawn for the first k months stays in place. */
  lemma {:induction false} MonthsDrawnPrefix(width: int, now: Date, pal: Palette, k: nat, k': nat)
    requires k <= k' <= 12
    ensures MonthsDrawn(width, now, pal, k) <= MonthsDrawn(width, now, pal, k')
    decreases k'
  {
    if k' > k {
      MonthsDrawnPrefix(width, now, pal, k, k' - 1);
    }
  }

  lemma IndexInPrefix(whole: seq<Draw>, earlier: seq<Draw>, block: seq<Draw>, i: int)
    requires earlier + block <= whole && 0 <= i < |block|
    ensures |earlier| + i < |whole| && whole[|earlier| + i] == block[i]
  {
    assert (earlier + block)[|earlier| + i] == block[i];
  }

  /** Month m's block sits right after the blocks of the months before it, in
      the drawing of any k > m months. */
  lemma BlockInMosaic(width: int, now: Date, pal: Palette, m: int, k: nat, i: int)
    requires 0 <= m < k <= 12 && 0 <= i < |MonthBlock(width, now, pal, m)|
    ensures |MonthsDrawn(width, now, pal, m)| + i < |MonthsDrawn(width, now, pal, k)|
    ensures MonthsDrawn(width, now, pal, k)[|MonthsDrawn(width, now, pal, m)| + i]
         == MonthBlock(width, now, pal, m)[i]
  {
    MonthsDrawnSnoc(width, now, pal, m);
    MonthsDrawnPrefix(width, now, pal, m + 1, k);
    IndexInPrefix(MonthsDrawn(width, now, pal, k), MonthsDrawn(width, now, pal, m), MonthBlock(width, now, pal, m), i);
  }

  lemma MonthsDrawnSnoc(width: int, now: Date, pal: Palette, m: int)
    requires 0 <= m < 12
    ensures MonthsDrawn(width, now, pal, m + 1) == MonthsDrawn(width, now, pal, m) + MonthBlock(width, now, pal, m)
  {
  }

  lemma MonthBlockLength(width: int, now: Date, pal: Palette, m: int)
    requires 0 <= m < 12
    ensures |MonthBlock(width, now, pal, m)| == DaysInMonth(now.year, m) + 1
  {
  }

  /** A month's block is its label, then the dots of days 1, 2, ... in order. */
  lemma MonthBlockAt(width: int, now: Date, pal: Palette, m: int, d: int)
    requires 0 <= m < 12 && 1 <= d <= DaysInMonth(now.year, m)
    ensures MonthBlock(width, now, pal, m)[0] == MonthLabel(width, m)
    ensures MonthBlock(width, now, pal, m)[d] == DayDot(width, now, pal, m, d)
  {
    var days := DaysDrawn(width, now, pal, m, DaysInMonth(now.year, m));
    DaysDrawnAt(width, now, pal, m, DaysInMonth(now.year, m), d);
    assert ([MonthLabel(width, m)] + days)[d] == days[d - 1];
  }

  /** Where everything lands in the drawing order: month m's label comes after
      the m earlier labels and the days before month m, and day d follows it at
      offset d. Together with the length, this fixes every operation. */
  lemma MosaicOrder(width: int, now: Date, pal: Palette, m: int, d: int)
    requires 0 <= m < 12 && 1 <= d <= DaysInMonth(now.year, m)
    ensures |MonthsDrawn(width, now, pal, 12)| == 12 + (if IsLeapYear(now.year) then 366 else 365)
    ensures MonthsDrawn(width, now, pal, 12)[m + DaysBeforeMonth(now.year, m)] == MonthLabel(width, m)
    ensures MonthsDrawn(width, now, pal, 12)[m + DaysBeforeMonth(now.year, m) + d] == DayDot(width, now, pal, m, d)
  {
    MonthsDrawnLength(width, now, pal, 12);
    MonthsDrawnLength(width, now, pal, m);
    MonthBlockLength(width, now, pal, m);
    YearLength(now.year);
    BlockInMosaic(width, now, pal, m, 12, 0);
    BlockInMosaic(width, now, pal, m, 12, d);
    MonthBlockAt(width, now, pal, m, d);
  }

  /** Every dot lies inside its month's block, which is reserved for six weeks:
      MonthDotsWidth wide and MaxMonthHeight high, below the label. */
  lemma DotInsideMonthBlock(width: int, now: Date, pal: Palette, m: int, d: int)
    requires 0 <= m < 12 && 1 <= d <= DaysInMonth(now.year, m)
    ensures var dot := DayDot(width, now, pal, m, d);
      && (MonthLeft(width, m) as real) <= dot.cx - dot.radius
      && dot.cx + dot.radius <= (MonthLeft(width, m) + MonthDotsWidth) as real
      && ((MonthY(m) + MonthLabelGap) as real) <= dot.cy - dot.radius
      && dot.cy + dot.radius <= (MonthY(m) + MonthLabelGap + MaxMonthHeight) as real
  {
    var s := Weekday(Date(now.year, m, 1));
    assert (s + d - 1) / 7 <= 5;
  }

  /** Month blocks, labels included, never share a pixel row and column range:
      the horizontal pitch exceeds the block width and the row pitch exceeds the
      label gap plus the six-week height. */
  lemma MonthBlocksDisjoint(width: int, m1: int, m2: int)
    requires 0 <= m1 < 12 && 0 <= m2 < 12 && m1 != m2
    ensures || MonthLeft(width, m1) + MonthDotsWidth < MonthLeft(width, m2)
            || MonthLeft(width, m2) + MonthDotsWidth < MonthLeft(width, m1)
            || MonthY(m1) + MonthLabelGap + MaxMonthHeight < MonthY(m2)
            || MonthY(m2) + MonthLabelGap + MaxMonthHeight < MonthY(m1)
  {
  }

  /** No two day dots of the mosaic overlap. */
  lemma DotsNeverOverlap(width: int, now: Date, pal: Palette, m1: int, d1: int, m2: int, d2: int)
    requires 0 <= m1 < 12 && 1 <= d1 <= DaysInMonth(now.year, m1)
    requires 0 <= m2 < 12 && 1 <= d2 <= DaysInMonth(now.year, m2)
    requires m1 != m2 || d1 != d2
    ensures Apart(DayDot(width, now, pal, m1, d1), DayDot(width, now, pal, m2, d2))
  {
    DotInsideMonthBlock(width, now, pal, m1, d1);
    DotInsideMonthBlock(width, now, pal, m2, d2);
    if m1 != m2 {
      MonthBlocksDisjoint(width, m1, m2);
    } else {
      var s := Weekday(Date(now.year, m1, 1));
      var p1, p2 := s + d1 - 1, s + d2 - 1;
      assert p1 == 7 * (p1 / 7) + p1 % 7 && p2 == 7 * (p2 / 7) + p2 % 7;
      assert p1 / 7 != p2 / 7 || p1 % 7 != p2 % 7;
    }
  }
}
