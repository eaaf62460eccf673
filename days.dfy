/**
 * The `/days` handler: a shared-secret check, then the verse heading and the
 * wrapped verse, the 15 x 25 year grid and the bottom counter, drawn in that
 * order. Query parsing, fonts, the background fill and the PNG encoding are
 * outside the model; the canvas is the sequence of draw records.
 */
module Days {
  import opened Calendar
  import opened Progress
  import opened Render
  import opened YearGrid
  import opened TextWrap

  datatype Option<T> = None | Some(value: T)

  /** `req.query.key` as the query parser yields it: absent, one string, or an
      array or object when the key is repeated or bracketed. */
  datatype QueryValue = Missing | Str(s: string) | NonString

  /** The request may draw only when the secret is configured and non-empty and
      the key is exactly that string. */
  predicate Authorized(secret: Option<string>, key: QueryValue) {
    secret.Some? && secret.value != "" && key == Str(secret.value)
  }

  datatype Response = Unauthorized | Image(width: int, height: int, ops: seq<Draw>)

  const VerseRef := "Isaiah 40"
  const VerseTop := 660
  const VerseGap := 40
  const VerseSideMargin := 120
  const VerseLineHeight := 22
  const CounterLift := 270

  /** The width the verse is wrapped to: the canvas less a margin on each side. */
  function VerseWidth(knobs: Knobs): real {
    (knobs.width - 2 * VerseSideMargin) as real
  }

  /** The verse's paragraphs, each broken greedily at the verse width. */
  function VerseLines(knobs: Knobs, verse: string, measure: string -> real): seq<seq<seq<string>>> {
    BrokenParagraphs(Split(verse, '\n'), measure, VerseWidth(knobs))
  }

  /** One line list per verse paragraph, each a greedy breaking of the paragraph's words. */
  lemma VerseBrokenGreedily(knobs: Knobs, verse: string, measure: string -> real)
    ensures |VerseLines(knobs, verse, measure)| == |Split(verse, '\n')|
    ensures forall q :: 0 <= q < |Split(verse, '\n')| ==>
      GreedyBreak(Split(Split(verse, '\n')[q], ' '), VerseLines(knobs, verse, measure)[q],
                  measure, VerseWidth(knobs))
  {
    var paragraphs, maxWidth := Split(verse, '\n'), VerseWidth(knobs);
    forall q | 0 <= q < |paragraphs|
      ensures GreedyBreak(Split(paragraphs[q], ' '), BrokenParagraphs(paragraphs, measure, maxWidth)[q], measure, maxWidth)
    {
      BrokenParagraphAt(paragraphs, q, measure, maxWidth);
      BreakingIsGreedy(Split(paragraphs[q], ' '), measure, maxWidth);
    }
  }

  /** Everything an authorized request draws, in order: the verse heading, the
      verse broken into the given lines, the dots of the year's days and the
      counter. */
  function DaysPicture(knobs: Knobs, pal: Palette, now: Date, verseLines: seq<seq<seq<string>>>): seq<Draw>
    requires ValidDate(now)
  {
    var p, centre := ComputeProgress(now), knobs.width as real / 2.0;
    [Text(VerseRef, centre, VerseTop as real)]
    + ParagraphsDrawn(verseLines, centre, VerseTop + VerseGap, VerseLineHeight)
    + GridDots(LayoutOf(knobs), p.totalDays, p.dayOfYear, pal)
    + [Counter(p.daysLeft, p.percentage, centre, (knobs.height - CounterLift) as real)]
  }

  /** The picture's dots are those of the year's days, in order, classified against today. */
  lemma DaysPictureStates(knobs: Knobs, pal: Palette, now: Date, verseLines: seq<seq<seq<string>>>)
    requires ValidDate(now)
    ensures StatesOf(DaysPicture(knobs, pal, now, verseLines))
         == OrdinalStates(ComputeProgress(now).totalDays, ComputeProgress(now).dayOfYear)
  {
    var p, centre := ComputeProgress(now), knobs.width as real / 2.0;
    var heading := Text(VerseRef, centre, VerseTop as real);
    var verseOps := ParagraphsDrawn(verseLines, centre, VerseTop + VerseGap, VerseLineHeight);
    var dots := GridDots(LayoutOf(knobs), p.totalDays, p.dayOfYear, pal);
    var counter := Counter(p.daysLeft, p.percentage, centre, (knobs.height - CounterLift) as real);
    PictureParts(knobs, pal, now, verseLines, centre, VerseTop + VerseGap, heading, verseOps, dots, counter);
    GridDotsStates(LayoutOf(knobs), p.totalDays, p.dayOfYear, pal);
    FramedDots(heading, verseOps, dots, counter, p.totalDays, p.dayOfYear);
  }

  /** Dots between a heading, text lines and a counter keep their states. */
  lemma FramedDots(heading: Draw, verseOps: seq<Draw>, dots: seq<Draw>, counter: Draw, n: nat, today: int)
    requires !heading.Dot? && !counter.Dot? && forall k :: 0 <= k < |verseOps| ==> !verseOps[k].Dot?
    requires StatesOf(dots) == OrdinalStates(n, today)
    ensures StatesOf([heading] + verseOps + dots + [counter]) == OrdinalStates(n, today)
  {
    var head := [heading] + verseOps;
    StatesOfNoDots(head);
    StatesOfNoDots([counter]);
    StatesOfAppend(head, dots);
    StatesOfAppend(head + dots, [counter]);
  }

  /** The picture holds one dot per day of the year: exactly one today,
      dayOfYear - 1 passed and daysLeft still to come. */
  lemma DaysPictureCounts(knobs: Knobs, pal: Palette, now: Date, verseLines: seq<seq<seq<string>>>)
    requires ValidDate(now)
    ensures var p, states := ComputeProgress(now), StatesOf(DaysPicture(knobs, pal, now, verseLines));
      && |states| == p.totalDays
      && multiset(states)[Today] == 1
      && multiset(states)[Past] == p.dayOfYear - 1
      && multiset(states)[Future] == p.daysLeft
  {
    var p := ComputeProgress(now);
    DaysPictureStates(knobs, pal, now, verseLines);
    OrdinalStateCounts(p.totalDays, p.dayOfYear);
  }

  /** The handler's four parts, drawn one after another, make up the picture. */
  lemma PictureParts(knobs: Knobs, pal: Palette, now: Date, verseLines: seq<seq<seq<string>>>,
                     centre: real, verseY: int,
                     heading: Draw, verseOps: seq<Draw>, dots: seq<Draw>, counter: Draw)
    requires ValidDate(now)
    requires centre == knobs.width as real / 2.0 && verseY == VerseTop + VerseGap
    requires heading == Text(VerseRef, centre, VerseTop as real)
    requires verseOps == ParagraphsDrawn(verseLines, centre, verseY, VerseLineHeight)
    requires dots == GridDots(LayoutOf(knobs), ComputeProgress(now).totalDays, ComputeProgress(now).dayOfYear, pal)
    requires counter == Counter(ComputeProgress(now).daysLeft, ComputeProgress(now).percentage,
                                centre, (knobs.height - CounterLift) as real)
    ensures [heading] + verseOps + dots + [counter] == DaysPicture(knobs, pal, now, verseLines)
  {
  }

  /** The handler. An unauthorized request gets a 401 and draws nothing; an
      authorized one draws the picture of today, with each verse paragraph
      broken greedily at the verse width. */
  method DaysImage(secret: Option<string>, key: QueryValue, knobs: Knobs, pal: Palette, now: Date,
                   verse: string, measure: string -> real)
    returns (resp: Response)
    requires ValidDate(now)
    ensures resp.Unauthorized? <==> !Authorized(secret, key)
    ensures resp.Image? ==>
      && resp.width == knobs.width && resp.height == knobs.height
      && resp.ops == DaysPicture(knobs, pal, now, VerseLines(knobs, verse, measure))
  {
    if secret.None? || secret.value == "" || key != Str(secret.value) {
      return Unauthorized;
    }

    var verseX := knobs.width as real / 2.0;
    var verseMaxWidth := VerseWidth(knobs);
    var verseY := VerseTop;
    var heading := Text(VerseRef, verseX, verseY as real);
    var ops := [heading];
    verseY := verseY + VerseGap;
    var verseOps, verseEnd := WrapText(verse, verseX, verseY, verseMaxWidth, VerseLineHeight, measure);
    ops := ops + verseOps;

    var p := ComputeProgress(now);
    var layout := LayoutOf(knobs);
    var dots := DrawDays(layout, p.totalDays, p.dayOfYear, pal);
    ops := ops + dots;
    var counter := Counter(p.daysLeft, p.percentage, verseX, (knobs.height - CounterLift) as real);
    ops := ops + [counter];
    resp := Image(knobs.width, knobs.height, ops);
    PictureParts(knobs, pal, now, VerseLines(knobs, verse, measure), verseX, verseY, heading, verseOps, dots, counter);
  }
}
