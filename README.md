# Year-progress dot calendars, modelled in Dafny

The repository is a small Express server with two image endpoints. Each draws a
"dot calendar" of the current year on a canvas and returns it as a PNG:

- `/wallpaper` (`index.js`) draws twelve month blocks, three per row, each a
  Sunday-first week grid of dots under a month label, followed by a
  "days left · percentage" counter.
- `/days` (`index2.js`) first checks a shared secret. It then draws a verse
  heading, the verse wrapped greedily at a maximum width, a fixed 15 × 25 grid
  with one dot per day of the year, and the counter.

This project models the computing core of both handlers. The canvas is replaced
by a sequence of draw records (`Render.Draw`):

- a `Dot` carries the centre, radius, day state, fill colour and global alpha of
  one `arc` + `fill`;
- a `Text` is a `fillText`;
- a `Counter` is the bottom caption, kept as its two numbers.

Modules:

- `Calendar`: proleptic Gregorian arithmetic that stands in for JavaScript's
  `Date`. It covers month lengths, the day of the year, weekdays and absolute
  day numbers.
- `Progress`: the year progress both handlers compute (day of year, days in the
  year, days left, rounded percentage). It also holds the elapsed-time day count
  exactly as written, which is the subject of the finding below.
- `Render`: the draw records, the Past / Today / Future classification and the
  facts about it that both handlers share.
- `Mosaic`: the `/wallpaper` layout, its month and day loops, and the handler.
- `YearGrid`: the `/days` grid sizing, its dot loop, and the no-overlap and
  containment properties.
- `TextWrap`: `wrapText`, a greedy word wrapper. Text measurement is a
  parameter. The wrapper draws a word-by-word breaking. That breaking is proved
  greedy and the only greedy breaking, and it loses no word.
- `Days`: the `/days` handler, with its authorization and drawing order.

The loops of the source are methods with loop invariants. Each is proved equal
to a recursive or comprehension specification function, and the properties are
proved about those functions.

## Model

| member | source | states |
|---|---|---|
| Calendar.DaysInMonth | index.js:104 | a month has 28 to 31 days, and 29 exactly in February of a leap year |
| Calendar.DaysBeforeMonthIsCumulative | index.js:47 | the running-total month table equals the sum of the earlier month lengths, and grows by each month's length |
| Calendar.DaysBeforeMonthMonotone | index.js:117-118 | an earlier month ends no later than a later month begins |
| Calendar.Weekday | index.js:105 | `getDay()` of a date is a weekday 0 (Sunday) to 6 |
| Calendar.FirstOfNextMonth | index.js:104 | the month after month m starts on a valid date, day 1, exactly DaysInMonth(y, m) days after the first of month m, so December rolls over into January of the next year |
| Calendar.YearLength | index.js:48 | the day-number difference between consecutive New Years equals the table's year length, 366 exactly in leap years |
| Calendar.LastDayOfMonth | index.js:104 | `new Date(y, m + 1, 0)` is day DaysInMonth of month m: the next day is the first of the next month, and that first's weekday is this first's weekday shifted by the month length |
| Progress.Percentage | index.js:50 | the rounded percentage of d out of t lies in 0..100 whenever 0 <= d <= t |
| Progress.PercentageBounds | index2.js:97 | the integer formula brackets 100 d / t + 1/2 between p and p + 1 |
| Progress.PercentageRoundsHalfUp | index2.js:97 | `Math.round(d / t * 100)` is the nearest integer to 100 d / t, halves rounding up |
| Progress.ComputeProgress | index2.js:90-97 | dayOfYear is the calendar day of the year, totalDays is 365 or 366 by leap year, 1 <= dayOfYear <= totalDays, dayOfYear + daysLeft == totalDays, and the percentage lies in 0..100 |
| Progress.MidMarchOfLeapYear | index.js:40-50 | 15 March 2024 is day 75 of 366, with 291 days left and 20 %, and 1 March 2024 is a Friday |
| Progress.ElapsedSinceNewYear | index.js:47 | the absolute time since local midnight of 1 January is (dayOfYear - 1) days plus the time of day, minus the change of UTC offset |
| Progress.ElapsedAgreesWithoutOffsetChange | index2.js:94 | when the UTC offset has not changed since 1 January, the floored elapsed-day count plus one is the calendar day of the year at every time of day |
| Progress.DaylightSavingDrift | index2.js:94 | after the clocks go forward by `shift` minutes, the count falls one day short during the first `shift` minutes after midnight |
| Progress.SpringForwardExample | index.js:47 | at 00:30 on 10 March 2025, after a change from UTC-5 to UTC-4, day 69 is counted as day 68 |
| Progress.DaylightSavingEndDrift | index2.js:94 | after the clocks go back by `shift` minutes, the count runs one day ahead during the last `shift` minutes before midnight |
| Progress.FallBackExample | index.js:47 | at 23:30 on 10 June 2025, after a change from UTC+11 to UTC+10, day 161 is counted as day 162 |
| Render.RoundHalf | index.js:72 | `Math.round(n / 2)` for integer n is r with n == 2r or n == 2r - 1 |
| Render.OrdinalRangeSplit | index2.js:126 | classifying days a+1 .. a+n+m is classifying a+1 .. a+n and then the next m days |
| Render.OrdinalRangeSnoc | index2.js:126 | day a+n is classified last among days a+1 .. a+n |
| Render.StatesOfAppend | index2.js:126-145 | the day states of two drawings, one after the other, are the states of each in order |
| Render.StatesOfSnocDot | index2.js:137-144 | drawing one more dot appends its state |
| Render.NextDayState | index.js:107-133 | the dot of day a+j after those of days a+1 .. a+j-1 gives the states of days a+1 .. a+j |
| Render.StatesOfNoDots | index2.js:83 | text-only drawing carries no day states |
| Render.StatesOfDayDots | index2.js:126-145 | a drawing whose k-th operation is the dot of day k+1 carries the classification of days 1 .. n in order |
| Render.OrdinalStateCounts | index2.js:134-142 | of days 1 .. n with today's ordinal t: min(n, t-1) are past, day t is today if t <= n, the rest are future |
| Render.ClassificationIsOrdered | index2.js:134-135 | past days precede today, which precedes the future days, and at most one day is today |
| Mosaic.StartX | index.js:69-72 | the three-month row is centred: the left margin equals the right margin or exceeds it by one pixel |
| Mosaic.DaysDrawn | index.js:107-135 | the dots drawn for days 1 .. k number k |
| Mosaic.DrawMonthDays | index.js:103-135 | the day loop draws exactly DaysDrawn for the month's days, and leaves the global alpha at 1 |
| Mosaic.DrawMonths | index.js:89-136 | the month loop draws exactly MonthsDrawn(12), leaves the alpha at 1, and its dots carry the classification of every day of the year in order |
| Mosaic.Wallpaper | index.js:88-143 | the handler draws the months, then the counter at (width/2, height - 575); the picture holds one dot per day of the year: one today, dayOfYear - 1 past, daysLeft future |
| Mosaic.DayStateByOrdinal | index.js:116-129 | the (month, day) test, with today taking priority over the inclusive "past" test, equals classification by day of year |
| Mosaic.DaysDrawnStates | index.js:107-135 | the dots of days 1 .. j of month m carry the states of ordinals DaysBeforeMonth(m)+1 .. +j |
| Mosaic.MonthBlockStates | index.js:98-135 | a month's label and dots carry exactly the states of that month's ordinals |
| Mosaic.MosaicStates | index.js:89-136 | the first k months carry the states of days 1 .. DaysBeforeMonth(k) |
| Mosaic.ConsecutiveStates | index.js:89-136 | a drawing carrying days 1 .. a, followed by one carrying days a+1 .. a+n, carries days 1 .. a+n |
| Mosaic.MonthsDrawnLength | index.js:89-107 | the first k months draw k labels plus one dot per day before month k |
| Mosaic.MonthsDrawnPrefix | index.js:89 | drawing later months only appends |
| Mosaic.BlockInMosaic | index.js:89-136 | month m's block sits right after the blocks of months 0 .. m-1 |
| Mosaic.MonthBlockAt | index.js:101-107 | a month's block is its label, then the dots of days 1, 2, … in order |
| Mosaic.DaysDrawnAt | index.js:107-135 | the d-th dot drawn for a month is the dot of day d |
| Mosaic.MosaicOrder | index.js:89-136 | the mosaic has 12 + 365 or 366 operations; month m's label is at index m + DaysBeforeMonth(m), and day d follows it at offset d |
| Mosaic.DotInsideMonthBlock | index.js:108-114 | every dot lies in its month's box, MonthDotsWidth wide and six weeks high, below the label |
| Mosaic.MonthBlocksDisjoint | index.js:90-95 | boxes of different months are separated horizontally or vertically |
| Mosaic.DotsNeverOverlap | index.js:107-133 | no two day dots of the mosaic overlap |
| YearGrid.DotDiameter | index2.js:109-114 | the floored minimum of the two candidate diameters fits the padded region, and one pixel more does not |
| YearGrid.DiameterIsLargest | index2.js:112-114 | a diameter fits exactly when it is at most DotDiameter |
| YearGrid.DiameterMonotoneInGap | index2.js:107-114 | a smaller gap never gives a smaller dot |
| YearGrid.SmallerGapSameDiameter | index2.js:112-114 | a smaller gap need not give a larger dot: with gap 1 and gap 0 the diameter is 52 either way |
| YearGrid.LayoutOf | index2.js:116-123 | pitch is diameter + gap, and grid size comes from the floored diameter; the grid lies inside the padded region, centred horizontally in the canvas and vertically in the padded region, with margins differing by at most one pixel |
| YearGrid.CellMapping | index2.js:127-129 | row-major placement is a bijection between ordinals 1 .. 375 and the cells of the 15 × 25 grid |
| YearGrid.GridDotsStates | index2.js:134-142 | the dots of days 1 .. n carry the classification of days 1 .. n against today |
| YearGrid.DrawDays | index2.js:126-145 | the dot loop draws exactly GridDots, whose states classify days 1 .. totalDays |
| YearGrid.AxisApart | index2.js:131-132 | along one axis, cells a < b with pitch >= diameter give dots that do not reach each other |
| YearGrid.StepApart | index2.js:117 | cells b > a along one axis are at least one pitch apart |
| YearGrid.AxisInside | index2.js:119-123 | a dot in cell c < n lies within the n-cell span of the grid |
| YearGrid.GridDotInsidePadding | index2.js:119-132 | with a non-negative diameter and gap, every dot of ordinals 1 .. 375 lies inside the padded region |
| YearGrid.GridDotsApart | index2.js:126-132 | with a non-negative diameter and gap, the dots of different days never overlap |
| TextWrap.Split | index2.js:14 | `split` on one character gives at least one piece, none containing the separator |
| TextWrap.JoinSplit | index2.js:17 | joining the pieces of a split with the separator gives back the string |
| TextWrap.SplitJoin | index2.js:17 | splitting a join of separator-free pieces gives back the pieces |
| TextWrap.TrimEnd | index2.js:25 | `trimEnd` keeps a prefix that does not end in ECMAScript white space, and cuts off nothing but white space |
| TextWrap.SpacedIsJoinAndSpace | index2.js:21 | a line built word by word, each followed by a space, is the words joined by spaces plus one trailing space |
| TextWrap.SpacedAppend | index2.js:21 | the spaced form of two word runs is the concatenation of their spaced forms |
| TextWrap.LineTopIsLinear | index2.js:27 | line k of a block is drawn k line heights below its first line |
| TextWrap.LinesDrawn | index2.js:24-35 | one text operation per line, all at x, whose text is that line's words each followed by a space, with trailing white space trimmed |
| TextWrap.LineDrawnAt | index2.js:24-35 | line k is drawn as TrimEnd of its spaced form at (x, y + k * lineHeight) |
| TextWrap.CursorAfterIsLinear | index2.js:16-42 | the returned y is the start plus one line height per line plus one paragraph gap per paragraph |
| TextWrap.ParagraphsDrawn | index2.js:16-40 | one text operation per line of every paragraph, all at x |
| TextWrap.StartLine | index2.js:24-27 | a word that does not fit closes the open line and starts a new one, keeping the breaking greedy |
| TextWrap.ExtendLine | index2.js:28-30 | a word that fits, or a paragraph's first word, joins the open line |
| TextWrap.BrokenSnoc | index2.js:24-27 | closing a non-empty fitting line, whose first word did not fit on the previous line, keeps the breaking greedy |
| TextWrap.FinishParagraph | index2.js:33-36 | flushing the last line completes a greedy breaking of all the words |
| TextWrap.DrawLine | index2.js:25-27 | drawing one more line appends its trimmed text at the current y and moves y down one line height |
| TextWrap.BreakStep | index2.js:24-27 | the overflow branch keeps the loop state: line, drawn lines and y cursor agree with the words placed |
| TextWrap.ExtendStep | index2.js:28-30 | the fitting branch keeps the loop state |
| TextWrap.PlaceWord | index2.js:20-31 | one turn of the word loop takes the loop state after n words to the state after n + 1 |
| TextWrap.Breaking | index2.js:20-31 | the word-by-word breaking has at most one line per word, and at least one line when there are words |
| TextWrap.BreakingSnoc | index2.js:24-30 | one more word opens the first line, opens a new line when the open line with it does not fit, and joins the open line otherwise |
| TextWrap.BreakingPlaced | index2.js:20-31 | after n words, the breaking is the loop's closed lines followed by its open line, in the loop state |
| TextWrap.NextPlaced | index2.js:20-31 | one more word keeps the breaking equal to the loop's lines |
| TextWrap.BreakingIsGreedy | index2.js:20-36 | the word-by-word breaking is a greedy breaking of the words |
| TextWrap.GreedyIsBreaking | index2.js:20-36 | every greedy breaking of the words is the word-by-word one |
| TextWrap.WrapParagraph | index2.js:17-36 | a paragraph's drawn lines are exactly its breaking, drawn one line height apart, and y ends below the last |
| TextWrap.ParagraphsAppend | index2.js:16-40 | each paragraph is drawn from where the previous one left the cursor, then the gap is added |
| TextWrap.BrokenParagraphs | index2.js:14-17 | one line list per newline-separated paragraph |
| TextWrap.BrokenParagraphAt | index2.js:16-17 | paragraph q is broken on its own, from its own words |
| TextWrap.BrokenParagraphsSnoc | index2.js:16 | one more paragraph appends its breaking |
| TextWrap.WrapText | index2.js:12-43 | `wrapText` draws exactly the breakings of the newline-separated paragraphs, each starting where the previous one left the cursor, and returns the cursor below them |
| TextWrap.UntrimmedIsSpaced | index2.js:21-29 | the untrimmed lines, one after another, are the spaced form of all the words |
| TextWrap.ParagraphRoundTrip | index2.js:17-36 | a paragraph yields at least one line, and its untrimmed lines spell the paragraph plus one space: no word lost, split or reordered |
| TextWrap.BrokenLine | index2.js:20-31 | every line is non-empty; a line of two or more words fits; every later line starts with a word that did not fit on the line before |
| TextWrap.AdmittedPrefix | index2.js:28-30 | every prefix of two or more words of a line fits |
| TextWrap.BrokenFromLines | index2.js:20-31 | conversely, lines that are non-empty and fit word by word, each started by a word that overflowed the previous line, are a greedy breaking |
| TextWrap.BrokenTail | index2.js:20-31 | a greedy breaking stays greedy without its first line |
| TextWrap.FlattenCons | index2.js:20 | the words of the lines are the first line's words followed by those of the rest |
| TextWrap.GreedyHead | index2.js:20-31 | the first line is a non-empty, fitting prefix of the words |
| TextWrap.GreedyTail | index2.js:20-31 | the lines after the first greedily break the words after the first line |
| TextWrap.NextLineStart | index2.js:24 | when words remain after the first line, the next word did not fit on it |
| TextWrap.FirstLineNotShorter | index2.js:24-30 | no other greedy breaking has a longer first line |
| TextWrap.GreedyBreakIsUnique | index2.js:20-36 | the words and the measure determine the greedy breaking, so the wrapper's lines are the only ones it admits |
| Days.VerseBrokenGreedily | index2.js:74-87 | the verse yields one line list per paragraph, each a greedy breaking of that paragraph's words at width - 240 |
| Days.DaysImage | index2.js:45-152 | the response is 401 exactly when the secret is unset or empty, or the key is not that string. Otherwise the image has the requested size and draws the heading, the greedily wrapped verse, the grid dots and the counter, in that order |
| Days.PictureParts | index2.js:83-152 | the handler's four drawing stages, in order, make up DaysPicture |
| Days.FramedDots | index2.js:83-152 | a heading, text lines and a counter around the dots add no day states |
| Days.DaysPictureStates | index2.js:126-145 | the picture's dots are the days of the year in order, classified against today |
| Days.DaysPictureCounts | index2.js:90-152 | the picture has one dot per day of the year: exactly one today, dayOfYear - 1 past, and daysLeft future |

## Findings

| source | as written | input that shows it | evidently intended | confidence | as-written member | corrected member |
|---|---|---|---|---|---|---|
| index2.js:94 (also index.js:47) | the day of the year is the floor of the elapsed absolute time since local midnight of 1 January, in days, plus one | 00:30 local time on 10 March 2025, in a zone that moved from UTC-5 to UTC-4 on 9 March: 68; 23:30 on 10 June 2025, in a zone at UTC+11 in January and UTC+10 in June: 162 | the calendar day of the year, whatever the time of day or daylight-saving state: 69 and 161 | not executed; high in zones with daylight saving time | Progress.DaylightSavingDrift | Progress.ComputeProgress |

`Progress.ElapsedDayOfYear` models the expression as written, on minutes and
UTC offsets. The error goes both ways:

- Once the clocks have gone forward, the count is one day short just after
  midnight. `Progress.DaylightSavingDrift` proves this for every date, and
  `Progress.SpringForwardExample` gives the concrete case. In that hour the
  `/days` grid marks yesterday as today, and the counters of both endpoints
  show one extra day left.
- Once the clocks have gone back, the count is one day ahead just before
  midnight. `Progress.DaylightSavingEndDrift` proves this for every date, and
  `Progress.FallBackExample` gives the concrete case. In that hour the grid
  marks tomorrow as today, and the counters show one day too few left.

`Progress.ElapsedAgreesWithoutOffsetChange` shows the count is right whenever
the offset is unchanged. The rest of the model uses `Progress.ComputeProgress`,
which counts calendar days directly.

## Left out

- HTTP routing, the listening port, response headers, static files, font
  registration, `textAlign`/`textBaseline`/`font` settings, the background fill
  and the `bgImage` fetch with its fallback, and PNG encoding. None of these
  affects the layout or the day classification.
- Query parsing:
  - `parseInt(...) || default` is not modelled; the width, height, padding and
    gap knobs are plain integers.
  - A key given as an array or object is modelled as `NonString`, which never
    equals the secret.
  - The secret is a parameter rather than process configuration.
- Colours are opaque strings; the `'#' + …` defaulting is not modelled.
- Coordinates are exact reals. Whole-number arithmetic that JavaScript does in
  floating point is exact integer arithmetic:
  - `Math.floor(x / n)` and `%` are Euclidean;
  - `Math.round(n / 2)` is `(n + 1) / 2`.
  These agree with the source for the magnitudes involved.
- Dates:
  - `now` is a calendar date.
  - The elapsed-time count is modelled separately (see Findings). Outside that
    case, the time of day does not affect any output.
  - Years are proleptic Gregorian.
- The counter's text (`"<n>d left · <p>%"`, `"<n> days left · <p>%"`) is kept
  as its two numbers. The label font sizes and colours are not modelled.
- The verse is a parameter of `Days.DaysImage`, not the hard-coded Isaiah 40
  passage. `measureText(...).width` is the `measure` parameter, a function of
  the string alone (the font in force is fixed while wrapping).
- TextWrap.ParagraphGap: `Math.floor(lineHeight * 0.35)` is modelled as
  `lineHeight * 35 / 100`. The two agree for the line height the handler
  passes (22). For some other heights, binary floating point makes the source
  one pixel smaller (180 gives 62, not 63).
- Days.DaysImage: the value `wrapText` returns is not used by the handler, and
  it is not part of the handler's contract. `TextWrap.WrapText` states it.
- YearGrid.DiameterMonotoneInGap: it states only that a smaller gap never
  shrinks the dot. Reducing the gap does not always enlarge it: when the
  height is the tighter bound, the floor can absorb the change, as
  `YearGrid.SmallerGapSameDiameter` shows. The model follows the code.
- YearGrid.GridDotInsidePadding and YearGrid.GridDotsApart assume a
  non-negative diameter and gap. With paddings larger than the canvas, the
  source passes a negative radius to `arc`. What the canvas then does is not
  part of this model. The model still records those dots, but gives them no
  geometric guarantee.
