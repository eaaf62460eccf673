/**
 * Greedy word wrapping of the verse on the `/days` image: the text is split into
 * paragraphs at newlines and each paragraph into words at single spaces; words
 * are added to the current line while the measured line (each word followed by
 * one space) fits, and every line is drawn right-trimmed, one line height below
 * the previous one, with a paragraph gap after each paragraph.
 * Text measurement belongs to the canvas and is a parameter here.
 */
module TextWrap {
  import opened Render

  /** `s.split(sep)` for a one-character separator: the maximal pieces between
      separators, empty pieces included, so there is always at least one. */
  function Split(s: string, sep: char): (parts: seq<string>)
    ensures |parts| >= 1
    ensures forall i :: 0 <= i < |parts| ==> sep !in parts[i]
  {
    if s == [] then [""]
    else
      var rest := Split(s[..|s| - 1], sep);
      var c := s[|s| - 1];
      if c == sep then rest + [""]
      else rest[..|rest| - 1] + [rest[|rest| - 1] + [c]]
  }

  /** `parts.join(sep)`. */
  function Join(parts: seq<string>, sep: char): string
    requires |parts| >= 1
  {
    if |parts| == 1 then parts[0]
    else Join(parts[..|parts| - 1], sep) + [sep] + parts[|parts| - 1]
  }

  /** Joining the pieces gives back the string. */
  lemma {:induction false} JoinSplit(s: string, sep: char)
    ensures Join(Split(s, sep), sep) == s
  {
    if s != [] {
      var init, c := s[..|s| - 1], s[|s| - 1];
      var rest := Split(init, sep);
      JoinSplit(init, sep);
      assert init + [c] == s;
      if c == sep {
        JoinEmptyLast(rest, sep);
      } else {
        JoinExtendLast(rest, c, sep);
      }
    }
  }

  lemma JoinEmptyLast(parts: seq<string>, sep: char)
    requires |parts| >= 1
    ensures Join(parts + [""], sep) == Join(parts, sep) + [sep]
  {
    PrefixOfAppend(parts, "");
  }

  lemma JoinExtendLast(parts: seq<string>, c: char, sep: char)
    requires |parts| >= 1
    ensures Join(parts[..|parts| - 1] + [parts[|parts| - 1] + [c]], sep) == Join(parts, sep) + [c]
  {
    var k := |parts| - 1;
    var r := parts[..k] + [parts[k] + [c]];
    if k == 0 {
      assert r == [parts[0] + [c]];
    } else {
      PrefixOfAppend(parts[..k], parts[k] + [c]);
      assert r[..k] == parts[..k];
      assert Join(r, sep) == Join(parts[..k], sep) + [sep] + parts[k] + [c];
    }
  }

  lemma {:induction false} SplitSeparatorFree(w: string, sep: char)
    requires sep !in w
    ensures Split(w, sep) == [w]
  {
    if w != [] {
      var w' := w[..|w| - 1];
      SplitSeparatorFree(w', sep);
      assert w[|w| - 1] != sep;
      assert w' + [w[|w| - 1]] == w;
    }
  }

  lemma {:induction false} SplitAfterSeparator(x: string, w: string, sep: char)
    requires sep !in w
    ensures Split(x + [sep] + w, sep) == Split(x, sep) + [w]
  {
    var s := x + [sep] + w;
    if w == [] {
      assert s[..|s| - 1] == x && s[|s| - 1] == sep;
    } else {
      var w' := w[..|w| - 1];
      assert s[..|s| - 1] == x + [sep] + w' && s[|s| - 1] == w[|w| - 1] != sep;
      SplitAfterSeparator(x, w', sep);
      assert w' + [w[|w| - 1]] == w;
    }
  }

  /** Splitting a join of separator-free pieces gives back the pieces. */
  lemma {:induction false} SplitJoin(parts: seq<string>, sep: char)
    requires |parts| >= 1
    requires forall i :: 0 <= i < |parts| ==> sep !in parts[i]
    ensures Split(Join(parts, sep), sep) == parts
  {
    if |parts| == 1 {
      SplitSeparatorFree(parts[0], sep);
    } else {
      var init := parts[..|parts| - 1];
      SplitJoin(init, sep);
      SplitAfterSeparator(Join(init, sep), parts[|parts| - 1], sep);
    }
  }

  /** The characters `trimEnd` removes: white space and line terminators as
      ECMAScript defines them. */
  predicate IsJsWhitespace(c: char) {
    || c == '\t' || c == '\n' || c == '\U{000B}' || c == '\U{000C}' || c == '\r' || c == ' '
    || c == '\U{00A0}' || c == '\U{1680}' || ('\U{2000}' <= c <= '\U{200A}')
    || c == '\U{2028}' || c == '\U{2029}' || c == '\U{202F}' || c == '\U{205F}'
    || c == '\U{3000}' || c == '\U{FEFF}'
  }

  /** `s.trimEnd()`: the longest prefix that does not end in white space, with
      nothing but white space cut off. */
  function TrimEnd(s: string): (r: string)
    ensures r <= s
    ensures r == [] || !IsJsWhitespace(r[|r| - 1])
    ensures forall i :: |r| <= i < |s| ==> IsJsWhitespace(s[i])
  {
    if s == [] || !IsJsWhitespace(s[|s| - 1]) then s else TrimEnd(s[..|s| - 1])
  }

  /** A line as the wrapper builds it: every word followed by one space. */
  function Spaced(words: seq<string>): (s: string)
    ensures words != [] ==> s != [] && s[|s| - 1] == ' '
  {
    if words == [] then "" else Spaced(words[..|words| - 1]) + words[|words| - 1] + " "
  }

  lemma {:induction false} SpacedIsJoinAndSpace(words: seq<string>)
    requires |words| >= 1
    ensures Spaced(words) == Join(words, ' ') + " "
  {
    if |words| > 1 {
      SpacedIsJoinAndSpace(words[..|words| - 1]);
    } else {
      assert words[..0] == [];
    }
  }

  lemma SpacedSnoc(words: seq<string>, w: string)
    ensures Spaced(words + [w]) == Spaced(words) + w + " "
    ensures Spaced([w]) == w + " "
  {
    PrefixOfAppend(words, w);
    PrefixOfAppend([], w);
    assert [] + [w] == [w];
  }

  function Flatten(lines: seq<seq<string>>): seq<string> {
    if lines == [] then [] else Flatten(lines[..|lines| - 1]) + lines[|lines| - 1]
  }

  /** Every word after the first on a line was admitted by a test line, up to and
      including that word, whose measured width was within the maximum. */
  predicate Admitted(line: seq<string>, measure: string -> real, maxWidth: real) {
    |line| <= 1 || (Admitted(line[..|line| - 1], measure, maxWidth) && measure(Spaced(line)) <= maxWidth)
  }

  /** Lines as the greedy breaking leaves them: none is empty, every word after
      the first on a line fit when it was added, and each line was closed only
      because the first word of the next line did not fit on it. */
  predicate Broken(lines: seq<seq<string>>, measure: string -> real, maxWidth: real) {
    if lines == [] then true
    else
      var init, last := lines[..|lines| - 1], lines[|lines| - 1];
      && Broken(init, measure, maxWidth)
      && last != [] && Admitted(last, measure, maxWidth)
      && (init != [] ==> measure(Spaced(init[|init| - 1] + [last[0]])) > maxWidth)
  }

  /** The greedy line breaking of one paragraph's words: the lines hold the words in order. */
  predicate GreedyBreak(words: seq<string>, lines: seq<seq<string>>, measure: string -> real, maxWidth: real) {
    Flatten(lines) == words && Broken(lines, measure, maxWidth)
  }

  /** `Math.floor(lineHeight * 0.35)`. */
  function ParagraphGap(lineHeight: int): int {
    lineHeight * 35 / 100
  }

  /** The y of line k of a block whose first line is at y: one line height per
      line, added line by line as the cursor moves. */
  function LineTop(y: int, k: nat, lineHeight: int): int {
    if k == 0 then y else LineTop(y, k - 1, lineHeight) + lineHeight
  }

  lemma {:induction false} LineTopIsLinear(y: int, k: nat, lineHeight: int)
    ensures LineTop(y, k, lineHeight) == y + k * lineHeight
  {
    if k > 0 {
      LineTopIsLinear(y, k - 1, lineHeight);
    }
  }

  /** The lines of one paragraph, drawn right-trimmed at x, one line height apart from y. */
  function LinesDrawn(lines: seq<seq<string>>, x: real, y: int, lineHeight: int): (ops: seq<Draw>)
    ensures |ops| == |lines|
    ensures forall k :: 0 <= k < |ops| ==> ops[k].Text? && ops[k].x == x && ops[k].s == TrimEnd(Spaced(lines[k]))
  {
    if lines == [] then []
    else
      var n := |lines| - 1;
      var init := LinesDrawn(lines[..n], x, y, lineHeight);
      assert forall k :: 0 <= k < n ==> lines[..n][k] == lines[k];
      init + [Text(TrimEnd(Spaced(lines[n])), x, LineTop(y, n, lineHeight) as real)]
  }

  /** Line k of a paragraph is drawn k line heights below its first line, at the same x. */
  lemma {:induction false} LineDrawnAt(lines: seq<seq<string>>, x: real, y: int, lineHeight: int, k: int)
    requires 0 <= k < |lines|
    ensures LinesDrawn(lines, x, y, lineHeight)[k] == Text(TrimEnd(Spaced(lines[k])), x, (y + k * lineHeight) as real)
  {
    if k < |lines| - 1 {
      LineDrawnAt(lines[..|lines| - 1], x, y, lineHeight, k);
    } else {
      LineTopIsLinear(y, k, lineHeight);
    }
  }

  function LineCount(paras: seq<seq<seq<string>>>): nat {
    if paras == [] then 0 else LineCount(paras[..|paras| - 1]) + |paras[|paras| - 1]|
  }

  /** The y cursor after the given paragraphs, starting from y0: each paragraph
      moves it one line height per line, then by the paragraph gap. */
  function CursorAfter(paras: seq<seq<seq<string>>>, y0: int, lineHeight: int): int {
    if paras == [] then y0
    else
      var init := paras[..|paras| - 1];
      LineTop(CursorAfter(init, y0, lineHeight), |paras[|paras| - 1]|, lineHeight) + ParagraphGap(lineHeight)
  }

  /** The cursor ends one line height per line drawn, plus one paragraph gap per
      paragraph, below where it started. */
  lemma {:induction false} CursorAfterIsLinear(paras: seq<seq<seq<string>>>, y0: int, lineHeight: int)
    ensures CursorAfter(paras, y0, lineHeight) == y0 + LineCount(paras) * lineHeight + |paras| * ParagraphGap(lineHeight)
  {
    if paras != [] {
      var init, last := paras[..|paras| - 1], paras[|paras| - 1];
      CursorAfterIsLinear(init, y0, lineHeight);
      LineTopIsLinear(CursorAfter(init, y0, lineHeight), |last|, lineHeight);
      assert (LineCount(init) + |last|) * lineHeight == LineCount(init) * lineHeight + |last| * lineHeight;
      assert (|init| + 1) * ParagraphGap(lineHeight) == |init| * ParagraphGap(lineHeight) + ParagraphGap(lineHeight);
    }
  }

  /** Every paragraph's lines, each paragraph starting where the previous left the cursor. */
  function ParagraphsDrawn(paras: seq<seq<seq<string>>>, x: real, y0: int, lineHeight: int): (ops: seq<Draw>)
    ensures |ops| == LineCount(paras)
    ensures forall k :: 0 <= k < |ops| ==> ops[k].Text? && ops[k].x == x
  {
    if paras == [] then []
    else
      var init := paras[..|paras| - 1];
      ParagraphsDrawn(init, x, y0, lineHeight) + LinesDrawn(paras[|paras| - 1], x, CursorAfter(init, y0, lineHeight), lineHeight)
  }

  /** The state of the word loop after n words: the closed lines and the open
      line hold the first n words, and the breaking so far is greedy. */
  ghost predicate WordsPlaced(words: seq<string>, n: int, lines: seq<seq<string>>, current: seq<string>, measure: string -> real, maxWidth: real) {
    && 0 <= n <= |words|
    && Flatten(lines) + current == words[..n]
    && (n > 0 ==> current != [])
    && (n == 0 ==> lines == [] && current == [])
    && Broken(lines, measure, maxWidth) && Admitted(current, measure, maxWidth)
    && (lines != [] && current != [] ==> measure(Spaced(lines[|lines| - 1] + [current[0]])) > maxWidth)
  }

  /** A word that does not fit on a non-empty line closes it and opens the next one. */
  lemma StartLine(words: seq<string>, n: int, lines: seq<seq<string>>, current: seq<string>, measure: string -> real, maxWidth: real)
    requires WordsPlaced(words, n, lines, current, measure, maxWidth) && 0 < n < |words|
    requires measure(Spaced(current + [words[n]])) > maxWidth
    ensures WordsPlaced(words, n + 1, lines + [current], [words[n]], measure, maxWidth)
  {
    var w := words[n];
    BrokenSnoc(lines, current, measure, maxWidth);
    WordsSnoc(words, n, lines, current);
    PrefixOfAppend(lines, current);
    assert Admitted([w], measure, maxWidth);
    assert [w][0] == w;
  }

  lemma WordsSnoc(words: seq<string>, n: int, lines: seq<seq<string>>, current: seq<string>)
    requires 0 <= n < |words| && Flatten(lines) + current == words[..n]
    ensures Flatten(lines + [current]) + [words[n]] == words[..n + 1]
  {
    FlattenSnoc(lines, current);
    assert words[..n + 1] == words[..n] + [words[n]];
  }

  lemma FlattenSnoc(lines: seq<seq<string>>, line: seq<string>)
    ensures Flatten(lines + [line]) == Flatten(lines) + line
  {
    PrefixOfAppend(lines, line);
  }

  /** Closing a non-empty open line whose words fit, and whose first word did
      not fit on the line before, keeps the breaking greedy. */
  lemma BrokenSnoc(lines: seq<seq<string>>, line: seq<string>, measure: string -> real, maxWidth: real)
    requires Broken(lines, measure, maxWidth) && line != [] && Admitted(line, measure, maxWidth)
    requires lines != [] ==> measure(Spaced(lines[|lines| - 1] + [line[0]])) > maxWidth
    ensures Broken(lines + [line], measure, maxWidth)
  {
    PrefixOfAppend(lines, line);
  }

  /** A word that fits, or the paragraph's first word, joins the open line. */
  lemma ExtendLine(words: seq<string>, n: int, lines: seq<seq<string>>, current: seq<string>, measure: string -> real, maxWidth: real)
    requires WordsPlaced(words, n, lines, current, measure, maxWidth) && 0 <= n < |words|
    requires n > 0 ==> measure(Spaced(current + [words[n]])) <= maxWidth
    ensures WordsPlaced(words, n + 1, lines, current + [words[n]], measure, maxWidth)
  {
    assert (current + [words[n]])[..|current|] == current;
    assert words[..n + 1] == words[..n] + [words[n]];
  }

  /** Closing the open line after the last word completes a greedy breaking. */
  lemma FinishParagraph(words: seq<string>, lines: seq<seq<string>>, current: seq<string>, measure: string -> real, maxWidth: real)
    requires WordsPlaced(words, |words|, lines, current, measure, maxWidth) && |words| >= 1
    ensures GreedyBreak(words, lines + [current], measure, maxWidth)
  {
    FlattenSnoc(lines, current);
    BrokenSnoc(lines, current, measure, maxWidth);
    assert words[..|words|] == words;
  }

  /** Drawing one more line, one line height further down. */
  lemma DrawLine(lines: seq<seq<string>>, line: seq<string>, x: real, y: int, lineHeight: int)
    ensures LinesDrawn(lines + [line], x, y, lineHeight)
      == LinesDrawn(lines, x, y, lineHeight) + [Text(TrimEnd(Spaced(line)), x, LineTop(y, |lines|, lineHeight) as real)]
    ensures LineTop(y, |lines + [line]|, lineHeight) == LineTop(y, |lines|, lineHeight) + lineHeight
  {
    PrefixOfAppend(lines, line);
  }

  /** The word loop's state after n words, as the wrapper keeps it: the line
      being built spells the open line, the closed lines are drawn and the
      cursor is below them. */
  ghost predicate LoopState(words: seq<string>, n: int, line: string, ops: seq<Draw>, y: int,
                            x: real, y0: int, maxWidth: real, lineHeight: int, measure: string -> real,
                            lines: seq<seq<string>>, current: seq<string>) {
    && WordsPlaced(words, n, lines, current, measure, maxWidth)
    && line == Spaced(current) && ops == LinesDrawn(lines, x, y0, lineHeight) && y == LineTop(y0, |lines|, lineHeight)
  }

  lemma BreakStep(words: seq<string>, n: int, line: string, ops: seq<Draw>, y: int,
                  x: real, y0: int, maxWidth: real, lineHeight: int, measure: string -> real,
                  lines: seq<seq<string>>, current: seq<string>)
    requires LoopState(words, n, line, ops, y, x, y0, maxWidth, lineHeight, measure, lines, current)
    requires 0 < n < |words| && measure(line + words[n] + " ") > maxWidth
    ensures LoopState(words, n + 1, words[n] + " ", ops + [Text(TrimEnd(line), x, y as real)], y + lineHeight,
                      x, y0, maxWidth, lineHeight, measure, lines + [current], [words[n]])
  {
    SpacedSnoc(current, words[n]);
    StartLine(words, n, lines, current, measure, maxWidth);
    DrawLine(lines, current, x, y0, lineHeight);
  }

  lemma ExtendStep(words: seq<string>, n: int, line: string, ops: seq<Draw>, y: int,
                   x: real, y0: int, maxWidth: real, lineHeight: int, measure: string -> real,
                   lines: seq<seq<string>>, current: seq<string>)
    requires LoopState(words, n, line, ops, y, x, y0, maxWidth, lineHeight, measure, lines, current)
    requires 0 <= n < |words| && (n > 0 ==> measure(line + words[n] + " ") <= maxWidth)
    ensures LoopState(words, n + 1, line + words[n] + " ", ops, y,
                      x, y0, maxWidth, lineHeight, measure, lines, current + [words[n]])
  {
    SpacedSnoc(current, words[n]);
    ExtendLine(words, n, lines, current, measure, maxWidth);
  }

  /** One turn of the word loop: the test line with the next word either fits,
      or the word is the paragraph's first, and the test line becomes the line;
      otherwise the line is drawn and the word starts the next one. */
  method PlaceWord(words: seq<string>, n: int, line: string, ops: seq<Draw>, y: int,
                   x: real, y0: int, maxWidth: real, lineHeight: int, measure: string -> real,
                   ghost lines: seq<seq<string>>, ghost current: seq<string>)
    returns (line': string, ops': seq<Draw>, y': int, ghost lines': seq<seq<string>>, ghost current': seq<string>)
    requires LoopState(words, n, line, ops, y, x, y0, maxWidth, lineHeight, measure, lines, current) && n < |words|
    ensures LoopState(words, n + 1, line', ops', y', x, y0, maxWidth, lineHeight, measure, lines', current')
  {
    var testLine := line + words[n] + " ";
    var testWidth := measure(testLine);
    if testWidth > maxWidth && n > 0 {
      BreakStep(words, n, line, ops, y, x, y0, maxWidth, lineHeight, measure, lines, current);
      ops' := ops + [Text(TrimEnd(line), x, y as real)];
      line' := words[n] + " ";
      y' := y + lineHeight;
      lines', current' := lines + [current], [words[n]];
    } else {
      ExtendStep(words, n, line, ops, y, x, y0, maxWidth, lineHeight, measure, lines, current);
      line', ops', y' := testLine, ops, y;
      lines', current' := lines, current + [words[n]];
    }
  }

  /** The greedy breaking of a paragraph's words, word by word: the first word
      opens a line; each later word joins the open line when the line with it
      still fits, and otherwise opens the next line. */
  function Breaking(words: seq<string>, measure: string -> real, maxWidth: real): (lines: seq<seq<string>>)
    ensures |lines| <= |words|
    ensures words != [] ==> lines != []
  {
    if words == [] then []
    else
      var lines := Breaking(words[..|words| - 1], measure, maxWidth);
      var w := words[|words| - 1];
      if lines == [] then [[w]]
      else if measure(Spaced(lines[|lines| - 1] + [w])) > maxWidth then lines + [[w]]
      else lines[..|lines| - 1] + [lines[|lines| - 1] + [w]]
  }

  /** The breaking of the first n words splits into the loop's closed lines and its open line. */
  ghost predicate Placed(words: seq<string>, n: int, breaking: seq<seq<string>>, measure: string -> real, maxWidth: real) {
    breaking != [] && WordsPlaced(words, n, breaking[..|breaking| - 1], breaking[|breaking| - 1], measure, maxWidth)
  }

  /** After n words, the breaking is the loop's closed lines followed by its open line. */
  lemma {:induction false} BreakingPlaced(words: seq<string>, n: int, measure: string -> real, maxWidth: real)
    requires 0 < n <= |words|
    ensures Placed(words, n, Breaking(words[..n], measure, maxWidth), measure, maxWidth)
  {
    assert words[..n] == words[..n - 1] + [words[n - 1]];
    if n == 1 {
      assert words[..0] == [];
      BreakingSnoc([], words[0], measure, maxWidth);
      ExtendLine(words, 0, [], [], measure, maxWidth);
    } else {
      BreakingPlaced(words, n - 1, measure, maxWidth);
      NextPlaced(words, n - 1, words[..n - 1], measure, maxWidth);
    }
  }

  lemma NextPlaced(words: seq<string>, n: int, prefix: seq<string>, measure: string -> real, maxWidth: real)
    requires 0 < n < |words| && prefix == words[..n]
    requires Placed(words, n, Breaking(prefix, measure, maxWidth), measure, maxWidth)
    ensures Placed(words, n + 1, Breaking(prefix + [words[n]], measure, maxWidth), measure, maxWidth)
  {
    var w, prev := words[n], Breaking(prefix, measure, maxWidth);
    var lines, current := prev[..|prev| - 1], prev[|prev| - 1];
    BreakingSnoc(prefix, w, measure, maxWidth);
    if measure(Spaced(current + [w])) > maxWidth {
      StartLine(words, n, lines, current, measure, maxWidth);
      PrefixOfAppend(prev, [w]);
      assert prev == lines + [current];
    } else {
      ExtendLine(words, n, lines, current, measure, maxWidth);
      PrefixOfAppend(lines, current + [w]);
    }
  }

  lemma BreakingSnoc(words: seq<string>, w: string, measure: string -> real, maxWidth: real)
    ensures var lines := Breaking(words, measure, maxWidth);
      Breaking(words + [w], measure, maxWidth)
        == if lines == [] then [[w]]
           else if measure(Spaced(lines[|lines| - 1] + [w])) > maxWidth then lines + [[w]]
           else lines[..|lines| - 1] + [lines[|lines| - 1] + [w]]
  {
    PrefixOfAppend(words, w);
  }

  /** The word-by-word breaking is a greedy breaking. */
  lemma BreakingIsGreedy(words: seq<string>, measure: string -> real, maxWidth: real)
    requires |words| >= 1
    ensures GreedyBreak(words, Breaking(words, measure, maxWidth), measure, maxWidth)
  {
    var lines := Breaking(words, measure, maxWidth);
    assert words[..|words|] == words;
    BreakingPlaced(words, |words|, measure, maxWidth);
    FinishParagraph(words, lines[..|lines| - 1], lines[|lines| - 1], measure, maxWidth);
    assert lines[..|lines| - 1] + [lines[|lines| - 1]] == lines;
  }

  /** Any greedy breaking of the words is the word-by-word one. */
  lemma GreedyIsBreaking(words: seq<string>, lines: seq<seq<string>>, measure: string -> real, maxWidth: real)
    requires GreedyBreak(words, lines, measure, maxWidth)
    ensures lines == Breaking(words, measure, maxWidth)
  {
    if words == [] {
      assert GreedyBreak(words, [], measure, maxWidth);
    } else {
      BreakingIsGreedy(words, measure, maxWidth);
    }
    GreedyBreakIsUnique(words, lines, Breaking(words, measure, maxWidth), measure, maxWidth);
  }

  /** The word loop of `wrapText` over one paragraph, drawing from y0 on: it
      draws the greedy breaking of the words, one line height apart, and leaves
      the cursor below the last line. */
  method WrapParagraph(words: seq<string>, x: real, y0: int, maxWidth: real, lineHeight: int, measure: string -> real)
    returns (ops: seq<Draw>, y: int)
    requires |words| >= 1
    ensures ops == LinesDrawn(Breaking(words, measure, maxWidth), x, y0, lineHeight)
    ensures y == LineTop(y0, |Breaking(words, measure, maxWidth)|, lineHeight)
  {
    var line := "";
    ops, y := [], y0;
    ghost var lines: seq<seq<string>>, current: seq<string> := [], [];
    for n := 0 to |words|
      invariant LoopState(words, n, line, ops, y, x, y0, maxWidth, lineHeight, measure, lines, current)
    {
      line, ops, y, lines, current := PlaceWord(words, n, line, ops, y, x, y0, maxWidth, lineHeight, measure, lines, current);
    }
    assert line != "";
    if line != "" {
      FinishParagraph(words, lines, current, measure, maxWidth);
      DrawLine(lines, current, x, y0, lineHeight);
      ops := ops + [Text(TrimEnd(line), x, y as real)];
      y := y + lineHeight;
      lines := lines + [current];
    }
    GreedyIsBreaking(words, lines, measure, maxWidth);
  }

  /** The greedy breaking of every paragraph, each split into words at single spaces. */
  function BrokenParagraphs(paragraphs: seq<string>, measure: string -> real, maxWidth: real): (paras: seq<seq<seq<string>>>)
    ensures |paras| == |paragraphs|
  {
    if paragraphs == [] then []
    else
      BrokenParagraphs(paragraphs[..|paragraphs| - 1], measure, maxWidth)
      + [Breaking(Split(paragraphs[|paragraphs| - 1], ' '), measure, maxWidth)]
  }

  /** Paragraph q is broken on its own. */
  lemma {:induction false} BrokenParagraphAt(paragraphs: seq<string>, q: int, measure: string -> real, maxWidth: real)
    requires 0 <= q < |paragraphs|
    ensures BrokenParagraphs(paragraphs, measure, maxWidth)[q] == Breaking(Split(paragraphs[q], ' '), measure, maxWidth)
  {
    var init := paragraphs[..|paragraphs| - 1];
    var rest := BrokenParagraphs(init, measure, maxWidth);
    if q < |init| {
      BrokenParagraphAt(init, q, measure, maxWidth);
      assert init[q] == paragraphs[q];
      assert (rest + [Breaking(Split(paragraphs[|paragraphs| - 1], ' '), measure, maxWidth)])[q] == rest[q];
    }
  }

  lemma ParagraphsAppend(paras: seq<seq<seq<string>>>, lines: seq<seq<string>>, x: real, y0: int, lineHeight: int)
    ensures ParagraphsDrawn(paras + [lines], x, y0, lineHeight)
      == ParagraphsDrawn(paras, x, y0, lineHeight) + LinesDrawn(lines, x, CursorAfter(paras, y0, lineHeight), lineHeight)
    ensures CursorAfter(paras + [lines], y0, lineHeight)
      == LineTop(CursorAfter(paras, y0, lineHeight), |lines|, lineHeight) + ParagraphGap(lineHeight)
  {
    PrefixOfAppend(paras, lines);
  }

  lemma BrokenParagraphsSnoc(paragraphs: seq<string>, p: int, measure: string -> real, maxWidth: real)
    requires 0 <= p < |paragraphs|
    ensures BrokenParagraphs(paragraphs[..p + 1], measure, maxWidth)
         == BrokenParagraphs(paragraphs[..p], measure, maxWidth) + [Breaking(Split(paragraphs[p], ' '), measure, maxWidth)]
  {
    assert paragraphs[..p + 1][..p] == paragraphs[..p];
  }

  /** `wrapText`: draws every newline-separated paragraph broken greedily at
      maxWidth, and returns the y below it (one line height per line drawn and
      one paragraph gap per paragraph, as CursorAfterIsLinear states). */
  method WrapText(text: string, x: real, y0: int, maxWidth: real, lineHeight: int, measure: string -> real)
    returns (ops: seq<Draw>, y: int)
    ensures ops == ParagraphsDrawn(BrokenParagraphs(Split(text, '\n'), measure, maxWidth), x, y0, lineHeight)
    ensures y == CursorAfter(BrokenParagraphs(Split(text, '\n'), measure, maxWidth), y0, lineHeight)
  {
    var paragraphs := Split(text, '\n');
    ops, y := [], y0;
    for p := 0 to |paragraphs|
      invariant ops == ParagraphsDrawn(BrokenParagraphs(paragraphs[..p], measure, maxWidth), x, y0, lineHeight)
      invariant y == CursorAfter(BrokenParagraphs(paragraphs[..p], measure, maxWidth), y0, lineHeight)
    {
      var words := Split(paragraphs[p], ' ');
      var lineOps, lineY := WrapParagraph(words, x, y, maxWidth, lineHeight, measure);
      ParagraphsAppend(BrokenParagraphs(paragraphs[..p], measure, maxWidth), Breaking(words, measure, maxWidth), x, y0, lineHeight);
      BrokenParagraphsSnoc(paragraphs, p, measure, maxWidth);
      ops := ops + lineOps;
      y := lineY + ParagraphGap(lineHeight);
    }
    assert paragraphs[..|paragraphs|] == paragraphs;
  }

  // ---- Properties of the breaking ----

  /** The untrimmed lines of a paragraph, one after another, as `line` holds
      each of them just before it is drawn. */
  function Untrimmed(lines: seq<seq<string>>): string {
    if lines == [] then "" else Untrimmed(lines[..|lines| - 1]) + Spaced(lines[|lines| - 1])
  }

  lemma {:induction false} SpacedAppend(a: seq<string>, b: seq<string>)
    ensures Spaced(a + b) == Spaced(a) + Spaced(b)
    decreases |b|
  {
    if b == [] {
      assert a + b == a;
    } else {
      var b', w := b[..|b| - 1], b[|b| - 1];
      assert a + b == (a + b') + [w] && b == b' + [w];
      SpacedAppend(a, b');
      SpacedSnoc(a + b', w);
      SpacedSnoc(b', w);
    }
  }

  lemma {:induction false} UntrimmedIsSpaced(lines: seq<seq<string>>)
    ensures Untrimmed(lines) == Spaced(Flatten(lines))
  {
    if lines != [] {
      var init, last := lines[..|lines| - 1], lines[|lines| - 1];
      UntrimmedIsSpaced(init);
      SpacedAppend(Flatten(init), last);
    }
  }

  /** A paragraph comes out as at least one line, and its untrimmed lines spell
      the paragraph followed by one space: every word, in order, none dropped or
      split, each followed by the one space the wrapper appends. */
  lemma ParagraphRoundTrip(paragraph: string, lines: seq<seq<string>>, measure: string -> real, maxWidth: real)
    requires GreedyBreak(Split(paragraph, ' '), lines, measure, maxWidth)
    ensures |lines| >= 1
    ensures Untrimmed(lines) == paragraph + " "
  {
    var words := Split(paragraph, ' ');
    UntrimmedIsSpaced(lines);
    SpacedIsJoinAndSpace(words);
    JoinSplit(paragraph, ' ');
  }

  /** Every line of a greedy breaking is non-empty; a line of two or more words
      fits; each line after the first exists only because its first word did
      not fit on the line before. */
  lemma {:induction false} BrokenLine(lines: seq<seq<string>>, k: int, measure: string -> real, maxWidth: real)
    requires Broken(lines, measure, maxWidth) && 0 <= k < |lines|
    ensures lines[k] != [] && Admitted(lines[k], measure, maxWidth)
    ensures |lines[k]| >= 2 ==> measure(Spaced(lines[k])) <= maxWidth
    ensures k > 0 ==> measure(Spaced(lines[k - 1] + [lines[k][0]])) > maxWidth
  {
    var init := lines[..|lines| - 1];
    if k < |lines| - 1 {
      BrokenLine(init, k, measure, maxWidth);
      assert init[k] == lines[k];
      if k > 0 {
        assert init[k - 1] == lines[k - 1];
      }
    } else if k > 0 {
      assert init[|init| - 1] == lines[k - 1];
    }
  }

  /** Every word after the first on a line was added because the line with it
      still fit: each prefix of two or more words measures within the maximum. */
  lemma {:induction false} AdmittedPrefix(line: seq<string>, j: int, measure: string -> real, maxWidth: real)
    requires Admitted(line, measure, maxWidth) && 2 <= j <= |line|
    ensures measure(Spaced(line[..j])) <= maxWidth
  {
    if j < |line| {
      var init := line[..|line| - 1];
      AdmittedPrefix(init, j, measure, maxWidth);
      assert init[..j] == line[..j];
    } else {
      assert line[..j] == line;
    }
  }

  /** The converse of BrokenLine: lines that are each non-empty and admitted,
      and each closed because the next line's first word did not fit, are a
      greedy breaking. */
  lemma {:induction false} BrokenFromLines(lines: seq<seq<string>>, measure: string -> real, maxWidth: real)
    requires forall k :: 0 <= k < |lines| ==> lines[k] != [] && Admitted(lines[k], measure, maxWidth)
    requires forall k :: 0 < k < |lines| ==> measure(Spaced(lines[k - 1] + [lines[k][0]])) > maxWidth
    ensures Broken(lines, measure, maxWidth)
  {
    if lines != [] {
      var init := lines[..|lines| - 1];
      assert forall k :: 0 <= k < |init| ==> init[k] == lines[k];
      BrokenFromLines(init, measure, maxWidth);
    }
  }

  /** A greedy breaking stays greedy without its first line. */
  lemma BrokenTail(lines: seq<seq<string>>, measure: string -> real, maxWidth: real)
    requires Broken(lines, measure, maxWidth) && lines != []
    ensures Broken(lines[1..], measure, maxWidth)
  {
    var tail := lines[1..];
    forall k | 0 <= k < |tail|
      ensures tail[k] != [] && Admitted(tail[k], measure, maxWidth)
      ensures k > 0 ==> measure(Spaced(tail[k - 1] + [tail[k][0]])) > maxWidth
    {
      BrokenLine(lines, k + 1, measure, maxWidth);
    }
    BrokenFromLines(tail, measure, maxWidth);
  }

  lemma {:induction false} FlattenCons(lines: seq<seq<string>>)
    requires lines != []
    ensures Flatten(lines) == lines[0] + Flatten(lines[1..])
  {
    var init, last := lines[..|lines| - 1], lines[|lines| - 1];
    if init == [] {
      assert lines[1..] == [];
    } else {
      FlattenCons(init);
      assert lines[1..] == init[1..] + [last];
      FlattenSnoc(init[1..], last);
    }
  }

  /** The first line of a greedy breaking is a non-empty, admitted prefix of the words. */
  lemma GreedyHead(words: seq<string>, lines: seq<seq<string>>, measure: string -> real, maxWidth: real)
    requires GreedyBreak(words, lines, measure, maxWidth) && lines != []
    ensures lines[0] != [] && Admitted(lines[0], measure, maxWidth)
    ensures |lines[0]| <= |words| && words[..|lines[0]|] == lines[0]
  {
    FlattenCons(lines);
    BrokenLine(lines, 0, measure, maxWidth);
  }

  /** The lines after the first are a greedy breaking of the words after the first line. */
  lemma GreedyTail(words: seq<string>, lines: seq<seq<string>>, measure: string -> real, maxWidth: real)
    requires GreedyBreak(words, lines, measure, maxWidth) && lines != []
    ensures |lines[0]| <= |words| && GreedyBreak(words[|lines[0]|..], lines[1..], measure, maxWidth)
  {
    FlattenCons(lines);
    BrokenTail(lines, measure, maxWidth);
    assert words[|lines[0]|..] == Flatten(lines[1..]);
  }

  /** The greedy breaking is unique: the words and the measure determine the
      lines, so the wrapper's lines are the only ones GreedyBreak admits. */
  lemma {:induction false} GreedyBreakIsUnique(words: seq<string>, lines: seq<seq<string>>, other: seq<seq<string>>,
                                               measure: string -> real, maxWidth: real)
    requires GreedyBreak(words, lines, measure, maxWidth) && GreedyBreak(words, other, measure, maxWidth)
    ensures lines == other
    decreases |words|
  {
    if lines != [] && other != [] {
      GreedyHead(words, lines, measure, maxWidth);
      GreedyHead(words, other, measure, maxWidth);
      GreedyTail(words, lines, measure, maxWidth);
      GreedyTail(words, other, measure, maxWidth);
      FirstLineNotShorter(words, lines, other, measure, maxWidth);
      FirstLineNotShorter(words, other, lines, measure, maxWidth);
      GreedyBreakIsUnique(words[|lines[0]|..], lines[1..], other[1..], measure, maxWidth);
      SameHeadAndTail(lines, other);
    } else if lines != [] {
      GreedyHead(words, lines, measure, maxWidth);
    } else if other != [] {
      GreedyHead(words, other, measure, maxWidth);
    }
  }

  lemma SameHeadAndTail(lines: seq<seq<string>>, other: seq<seq<string>>)
    requires lines != [] && other != [] && lines[0] == other[0] && lines[1..] == other[1..]
    ensures lines == other
  {
    assert lines == [lines[0]] + lines[1..] && other == [other[0]] + other[1..];
  }

  /** A greedy first line takes every word that fits: no other greedy breaking
      of the same words has a longer first line. */
  lemma FirstLineNotShorter(words: seq<string>, lines: seq<seq<string>>, other: seq<seq<string>>,
                            measure: string -> real, maxWidth: real)
    requires GreedyBreak(words, lines, measure, maxWidth) && GreedyBreak(words, other, measure, maxWidth)
    requires lines != [] && other != []
    ensures |other[0]| <= |lines[0]|
  {
    var a, b := lines[0], other[0];
    GreedyHead(words, lines, measure, maxWidth);
    GreedyHead(words, other, measure, maxWidth);
    if |b| > |a| {
      var n := |a|;
      NextLineStart(words, lines, measure, maxWidth);
      assert b[..n + 1] == words[..n + 1] == a + [words[n]];
      AdmittedPrefix(b, n + 1, measure, maxWidth);
      assert false;
    }
  }

  /** When a greedy first line leaves words over, the next word did not fit on it. */
  lemma NextLineStart(words: seq<string>, lines: seq<seq<string>>, measure: string -> real, maxWidth: real)
    requires GreedyBreak(words, lines, measure, maxWidth) && lines != [] && |lines[0]| < |words|
    ensures measure(Spaced(lines[0] + [words[|lines[0]|]])) > maxWidth
  {
    var n := |lines[0]|;
    GreedyTail(words, lines, measure, maxWidth);
    var rest := words[n..];
    assert rest[0] == words[n];
    assert lines[1..] != [];
    GreedyHead(rest, lines[1..], measure, maxWidth);
    assert lines[1][0] == words[n];
    BrokenLine(lines, 1, measure, maxWidth);
  }
}
