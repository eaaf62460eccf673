/**
 * What the handlers draw, as records appended to a sequence instead of calls on
 * a canvas, and the day classification both endpoints share.
 */
module Render {

  /** How a day compares with today. */
  datatype DayState = Past | Today | Future

  /** One drawing operation.
      Dot: a filled circle (`arc` + `fill`) with the fill style and global alpha in force.
      Text: a `fillText` of a plain string.
      Counter: the bottom `fillText` of "<days left> … <percentage>%", kept as its two numbers. */
  datatype Draw =
    | Dot(cx: real, cy: real, radius: real, state: DayState, color: string, alpha: real)
    | Text(s: string, x: real, y: real)
    | Counter(daysLeft: int, percent: int, x: real, y: real)

  /** `Math.round(n / 2)`: halves are rounded up. */
  function RoundHalf(n: int): (r: int)
    ensures n == 2 * r || n == 2 * r - 1
  {
    (n + 1) / 2
  }

  /** Classification of day ordinal i against today's ordinal: today wins, then
      anything earlier has passed. */
  function OrdinalState(i: int, today: int): DayState {
    if i == today then Today else if i < today then Past else Future
  }

  /** The states of days a+1 .. a+n, in order. */
  function OrdinalRange(a: int, n: nat, today: int): seq<DayState> {
    seq(n, k => OrdinalState(a + k + 1, today))
  }

  /** Day a+n comes last among days a+1 .. a+n. */
  lemma OrdinalRangeSnoc(a: int, n: nat, today: int)
    requires n > 0
    ensures OrdinalRange(a, n, today) == OrdinalRange(a, n - 1, today) + [OrdinalState(a + n, today)]
  {
    var l, r := OrdinalRange(a, n - 1, today), [OrdinalState(a + n, today)];
    assert forall k :: 0 <= k < n ==> OrdinalRange(a, n, today)[k] == (l + r)[k];
  }

  /** The states of days 1 .. n, in order. */
  function OrdinalStates(n: nat, today: int): (s: seq<DayState>)
    ensures |s| == n
  {
    OrdinalRange(0, n, today)
  }

  lemma OrdinalRangeSplit(a: int, n: nat, m: nat, today: int)
    ensures OrdinalRange(a, n + m, today) == OrdinalRange(a, n, today) + OrdinalRange(a + n, m, today)
  {
    var l, r := OrdinalRange(a, n, today), OrdinalRange(a + n, m, today);
    assert forall k :: 0 <= k < n + m ==> OrdinalRange(a, n + m, today)[k] == (l + r)[k];
  }

  /** The states of the dots among ops, in drawing order. */
  function StatesOf(ops: seq<Draw>): (s: seq<DayState>)
    ensures |s| <= |ops|
  {
    if ops == [] then []
    else if ops[|ops| - 1].Dot? then StatesOf(ops[..|ops| - 1]) + [ops[|ops| - 1].state]
    else StatesOf(ops[..|ops| - 1])
  }

  lemma {:induction false} StatesOfAppend(a: seq<Draw>, b: seq<Draw>)
    ensures StatesOf(a + b) == StatesOf(a) + StatesOf(b)
    decreases |b|
  {
    if b == [] {
      assert a + b == a;
    } else {
      var b' := b[..|b| - 1];
      assert (a + b)[..|a + b| - 1] == a + b';
      StatesOfAppend(a, b');
    }
  }

  /** One more dot adds its state at the end. */
  lemma StatesOfSnocDot(ops: seq<Draw>, dot: Draw)
    requires dot.Dot?
    ensures StatesOf(ops + [dot]) == StatesOf(ops) + [dot.state]
  {
    PrefixOfAppend(ops, dot);
  }

  /** The dot of day a+j after the dots of days a+1 .. a+j-1. */
  lemma NextDayState(prev: seq<Draw>, dot: Draw, a: int, j: nat, today: int)
    requires j > 0 && StatesOf(prev) == OrdinalRange(a, j - 1, today)
    requires dot.Dot? && dot.state == OrdinalState(a + j, today)
    ensures StatesOf(prev + [dot]) == OrdinalRange(a, j, today)
  {
    StatesOfSnocDot(prev, dot);
    OrdinalRangeSnoc(a, j, today);
  }

  lemma PrefixOfAppend<T>(s: seq<T>, x: T)
    ensures (s + [x])[..|s|] == s && (s + [x])[|s|] == x
  {
  }

  /** Operations that draw no dot carry no states. */
  lemma {:induction false} StatesOfNoDots(ops: seq<Draw>)
    requires forall k :: 0 <= k < |ops| ==> !ops[k].Dot?
    ensures StatesOf(ops) == []
  {
    if ops != [] {
      StatesOfNoDots(ops[..|ops| - 1]);
    }
  }

  /** A sequence whose k-th operation is the dot of day k+1 carries the states of days 1 .. |ops|. */
  lemma {:induction false} StatesOfDayDots(ops: seq<Draw>, today: int)
    requires forall k :: 0 <= k < |ops| ==> ops[k].Dot? && ops[k].state == OrdinalState(k + 1, today)
    ensures StatesOf(ops) == OrdinalStates(|ops|, today)
  {
    if ops != [] {
      var n := |ops| - 1;
      StatesOfDayDots(ops[..n], today);
      assert ops == ops[..n] + [ops[n]];
      StatesOfSnocDot(ops[..n], ops[n]);
      OrdinalRangeSnoc(0, |ops|, today);
    }
  }

  /** Two dots whose bounding squares are apart along one axis cannot overlap. */
  predicate Apart(a: Draw, b: Draw)
    requires a.Dot? && b.Dot?
  {
    || a.cx + a.radius <= b.cx - b.radius || b.cx + b.radius <= a.cx - a.radius
    || a.cy + a.radius <= b.cy - b.radius || b.cy + b.radius <= a.cy - a.radius
  }

  /** Counting the classification of days 1 .. n: with today's ordinal t >= 1,
      min(n, t - 1) days have passed, day t is today if it is among them,
      and the rest are still to come. */
  lemma {:induction false} OrdinalStateCounts(n: nat, t: int)
    requires t >= 1
    ensures multiset(OrdinalStates(n, t))[Past] == (if n < t then n else t - 1)
    ensures multiset(OrdinalStates(n, t))[Today] == (if t <= n then 1 else 0)
    ensures multiset(OrdinalStates(n, t))[Future] == (if n < t then 0 else n - t)
  {
    if n > 0 {
      OrdinalStateCounts(n - 1, t);
      OrdinalRangeSnoc(0, n, t);
    }
  }

  /** The classification is monotone: passed days come first, then today, then
      the days still to come. */
  lemma ClassificationIsOrdered(n: nat, t: int, i: int, j: int)
    requires 0 <= i < j < n
    ensures OrdinalStates(n, t)[i] == Past || OrdinalStates(n, t)[j] == Future
    ensures OrdinalStates(n, t)[i] != Today || OrdinalStates(n, t)[j] != Today
  {
  }
}
