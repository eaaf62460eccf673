/**
 * The `/days` grid: a fixed 15 x 25 grid of dots, one per day of the year in
 * row-major order, sized to the largest integer diameter that fits the padded
 * region and centred in it.
 */
module YearGrid {
  import opened Render

  const Cols := 15
  const Rows := 25

  /** The canvas size and spacing knobs of the request, as integers. */
  datatype Knobs = Knobs(width: int, height: int, sidePadding: int, topPadding: int, bottomPadding: int, gap: int)

  /** Dot colours: still to come, passed, today ('#' already prepended). */
  datatype Palette = Palette(dot: string, passed: string, today: string)

  /** Derived layout: the dot diameter, the pitch between centres, the grid's
      occupied size and its top-left corner. */
  datatype Layout = Layout(diameter: int, pitch: int, gridW: int, gridH: int, startX: int, startY: int)

  function MaxGridW(k: Knobs): int {
    k.width - 2 * k.sidePadding
  }

  function MaxGridH(k: Knobs): int {
    k.height - k.topPadding - k.bottomPadding
  }

  /** A grid of dots of diameter d and the requested gap fits the padded region. */
  predicate Fits(k: Knobs, d: int) {
    Cols * d + (Cols - 1) * k.gap <= MaxGridW(k) && Rows * d + (Rows - 1) * k.gap <= MaxGridH(k)
  }

  /** The floor of the smaller of the width- and height-derived diameters:
      the largest diameter that fits. */
  function DotDiameter(k: Knobs): (d: int)
    ensures Fits(k, d) && !Fits(k, d + 1)
  {
    var dotDiameterW := (MaxGridW(k) - (Cols - 1) * k.gap) / Cols;
    var dotDiameterH := (MaxGridH(k) - (Rows - 1) * k.gap) / Rows;
    if dotDiameterW <= dotDiameterH then dotDiameterW else dotDiameterH
  }

  /** Exactly the diameters up to DotDiameter fit. */
  lemma DiameterIsLargest(k: Knobs, e: int)
    ensures Fits(k, e) <==> e <= DotDiameter(k)
  {
    var d := DotDiameter(k);
    if e > d {
      assert !Fits(k, d + 1);
    }
  }

  /** A smaller gap never gives a smaller dot. */
  lemma DiameterMonotoneInGap(k: Knobs, gap: int)
    requires gap <= k.gap
    ensures DotDiameter(k.(gap := gap)) >= DotDiameter(k)
  {
    var d := DotDiameter(k);
    assert Fits(k.(gap := gap), d);
    DiameterIsLargest(k.(gap := gap), d);
  }

  /** A smaller gap need not give a larger dot: here a gap of 1 and a gap of 0
      both give a 52-pixel diameter, the height being the tighter bound. */
  lemma SmallerGapSameDiameter()
    ensures DotDiameter(Knobs(1170, 2532, 50, 900, 308, 1)) == 52
    ensures DotDiameter(Knobs(1170, 2532, 50, 900, 308, 0)) == 52
  {
  }

  /** The grid is recomputed from the floored diameter and centred: horizontally
      in the canvas, vertically in the padded region. It stays inside the padded
      region, and on each axis the two margins differ by at most one pixel. */
  function LayoutOf(k: Knobs): (l: Layout)
    ensures l.diameter == DotDiameter(k) && l.pitch == l.diameter + k.gap
    ensures l.gridW == Cols * l.diameter + (Cols - 1) * k.gap
    ensures l.gridH == Rows * l.diameter + (Rows - 1) * k.gap
    ensures k.sidePadding <= l.startX && l.startX + l.gridW <= k.width - k.sidePadding
    ensures k.topPadding <= l.startY && l.startY + l.gridH <= k.height - k.bottomPadding
    ensures 0 <= (l.startX - k.sidePadding) - (k.width - k.sidePadding - (l.startX + l.gridW)) <= 1
    ensures 0 <= (l.startY - k.topPadding) - (k.height - k.bottomPadding - (l.startY + l.gridH)) <= 1
  {
    var dotDiameter := DotDiameter(k);
    var gridW := Cols * dotDiameter + (Cols - 1) * k.gap;
    var gridH := Rows * dotDiameter + (Rows - 1) * k.gap;
    var startX := RoundHalf(k.width - gridW);
    var startY := RoundHalf(2 * k.topPadding + (MaxGridH(k) - gridH));
    Layout(dotDiameter, dotDiameter + k.gap, gridW, gridH, startX, startY)
  }

  /** Column and row of day ordinal i, row-major. */
  function Column(i: int): int {
    (i - 1) % Cols
  }

  function Row(i: int): int {
    (i - 1) / Cols
  }

  /** The row-major mapping is a bijection between ordinals 1 .. Cols*Rows and
      the cells of the grid: every such ordinal lands in the grid and is
      recovered from its cell, and every cell is the image of its ordinal. */
  lemma CellMapping(i: int, c: int, r: int)
    requires 1 <= i <= Cols * Rows
    requires 0 <= c < Cols && 0 <= r < Rows
    ensures 0 <= Column(i) < Cols && 0 <= Row(i) < Rows
    ensures i == 1 + Column(i) + Cols * Row(i)
    ensures 1 <= 1 + c + Cols * r <= Cols * Rows
    ensures Column(1 + c + Cols * r) == c && Row(1 + c + Cols * r) == r
  {
  }

  /** The dot of day i, coloured by its state against today's ordinal. */
  function GridDot(l: Layout, i: int, dayOfYear: int, pal: Palette): Draw {
    var radius := l.diameter as real / 2.0;
    var state := OrdinalState(i, dayOfYear);
    Dot(l.startX as real + radius + (Column(i) * l.pitch) as real,
        l.startY as real + radius + (Row(i) * l.pitch) as real,
        radius,
        state,
        if state == Today then pal.today else if state == Past then pal.passed else pal.dot,
        1.0)
  }

  /** The dots of days 1 .. n, in order. */
  function GridDots(l: Layout, n: nat, dayOfYear: int, pal: Palette): seq<Draw> {
    seq(n, k => GridDot(l, k + 1, dayOfYear, pal))
  }

  /** The dots of days 1 .. n carry the states of days 1 .. n. */
  lemma GridDotsStates(l: Layout, n: nat, dayOfYear: int, pal: Palette)
    ensures StatesOf(GridDots(l, n, dayOfYear, pal)) == OrdinalStates(n, dayOfYear)
  {
    StatesOfDayDots(GridDots(l, n, dayOfYear, pal), dayOfYear);
  }

  /** The dot loop: day i is drawn i-th, and the dots drawn carry the
      classification of days 1 .. totalDays. */
  method DrawDays(l: Layout, totalDays: nat, dayOfYear: int, pal: Palette) returns (ops: seq<Draw>)
    ensures ops == GridDots(l, totalDays, dayOfYear, pal)
    ensures StatesOf(ops) == OrdinalStates(totalDays, dayOfYear)
  {
    var radius := l.diameter as real / 2.0;
    ops := [];
    for i := 1 to totalDays + 1
      invariant |ops| == i - 1
      invariant forall k :: 0 <= k < i - 1 ==> ops[k] == GridDot(l, k + 1, dayOfYear, pal)
    {
      var idx := i - 1;
      var c := idx % Cols;
      var rrow := idx / Cols;
      var cx := l.startX as real + radius + (c * l.pitch) as real;
      var cy := l.startY as real + radius + (rrow * l.pitch) as real;

      var isPassed := i < dayOfYear;
      var isToday := i == dayOfYear;
      var fill;
      if isToday {
        fill := pal.today;
      } else if isPassed {
        fill := pal.passed;
      } else {
        fill := pal.dot;
      }
      var state := if isToday then Today else if isPassed then Past else Future;
      var dot := Dot(cx, cy, radius, state, fill, 1.0);
      assert dot == GridDot(l, i, dayOfYear, pal);
      ops := ops + [dot];
    }
    assert forall k :: 0 <= k < totalDays ==> GridDots(l, totalDays, dayOfYear, pal)[k] == GridDot(l, k + 1, dayOfYear, pal);
    GridDotsStates(l, totalDays, dayOfYear, pal);
  }

  /** Centres start + radius + c * pitch of cells a < b along one axis: with a
      pitch of at least the diameter, the two dots do not reach each other. */
  lemma AxisApart(start: int, diameter: int, pitch: int, a: int, b: int)
    requires 0 <= diameter <= pitch && a < b
    ensures var radius := diameter as real / 2.0;
      (start as real + radius + (a * pitch) as real) + radius
        <= (start as real + radius + (b * pitch) as real) - radius
  {
    var p, q := a * pitch, b * pitch;
    StepApart(diameter, pitch, a, b);
    assert (q - p) as real >= diameter as real;
  }

  lemma StepApart(diameter: int, pitch: int, a: int, b: int)
    requires 0 <= diameter <= pitch && a < b
    ensures b * pitch - a * pitch >= diameter
  {
    assert b * pitch - a * pitch == (b - a - 1) * pitch + pitch;
    assert (b - a - 1) * pitch >= 0;
  }

  /** Cells 0 .. n-1 along one axis span exactly start .. start + n*diameter + (n-1)*gap. */
  lemma AxisInside(start: int, diameter: int, gap: int, c: int, n: int)
    requires 0 <= diameter && 0 <= gap && 0 <= c < n
    ensures var radius := diameter as real / 2.0;
      && start as real <= (start as real + radius + (c * (diameter + gap)) as real) - radius
      && (start as real + radius + (c * (diameter + gap)) as real) + radius
        <= (start + n * diameter + (n - 1) * gap) as real
  {
    AxisSpan(diameter, gap, c, n);
  }

  lemma AxisSpan(diameter: int, gap: int, c: int, n: int)
    requires 0 <= diameter && 0 <= gap && 0 <= c < n
    ensures 0 <= c * (diameter + gap)
    ensures c * (diameter + gap) + diameter <= n * diameter + (n - 1) * gap
  {
    MulNonNegative(c, diameter + gap);
    MulNonNegative(n - 1 - c, diameter + gap);
    assert (n - 1 - c) * (diameter + gap) == n * diameter + (n - 1) * gap - diameter - c * (diameter + gap);
  }

  lemma MulNonNegative(a: int, b: int)
    requires 0 <= a && 0 <= b
    ensures 0 <= a * b
  {
  }

  /** With a non-negative diameter and gap, every dot of ordinals 1 .. Cols*Rows
      lies inside the padded region. */
  lemma GridDotInsidePadding(k: Knobs, i: int, dayOfYear: int, pal: Palette)
    requires 1 <= i <= Cols * Rows && DotDiameter(k) >= 0 && k.gap >= 0
    ensures var dot := GridDot(LayoutOf(k), i, dayOfYear, pal);
      && (k.sidePadding as real) <= dot.cx - dot.radius
      && dot.cx + dot.radius <= (k.width - k.sidePadding) as real
      && (k.topPadding as real) <= dot.cy - dot.radius
      && dot.cy + dot.radius <= (k.height - k.bottomPadding) as real
  {
    var l := LayoutOf(k);
    CellMapping(i, 0, 0);
    AxisInside(l.startX, l.diameter, k.gap, Column(i), Cols);
    AxisInside(l.startY, l.diameter, k.gap, Row(i), Rows);
  }

  /** With a non-negative diameter and gap, dots of different days do not overlap:
      they are a pitch, hence at least a diameter, apart on one axis. */
  lemma GridDotsApart(k: Knobs, i: int, j: int, dayOfYear: int, pal: Palette)
    requires 1 <= i <= Cols * Rows && 1 <= j <= Cols * Rows && i != j
    requires DotDiameter(k) >= 0 && k.gap >= 0
    ensures Apart(GridDot(LayoutOf(k), i, dayOfYear, pal), GridDot(LayoutOf(k), j, dayOfYear, pal))
  {
    var l := LayoutOf(k);
    CellMapping(i, 0, 0);
    CellMapping(j, 0, 0);
    if Column(i) < Column(j) {
      AxisApart(l.startX, l.diameter, l.pitch, Column(i), Column(j));
    } else if Column(j) < Column(i) {
      AxisApart(l.startX, l.diameter, l.pitch, Column(j), Column(i));
    } else if Row(i) < Row(j) {
      AxisApart(l.startY, l.diameter, l.pitch, Row(i), Row(j));
    } else {
      AxisApart(l.startY, l.diameter, l.pitch, Row(j), Row(i));
    }
  }
}
