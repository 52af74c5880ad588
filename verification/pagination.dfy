/** Laying the rewritten text out on PDF pages (main.py lines 60-72).

    The text is split on newlines; every piece, blank ones included, is
    drawn stripped at the current baseline `y`. `y` starts 50 points below
    the top of the page and moves down 15 points per line; before each line,
    a baseline below the 50-point bottom margin first ends the page and
    returns `y` to the top. The canvas is modelled by the list of calls made
    on it: `Draw(y, text)` for `drawString(50, y, text)` and `PageBreak` for
    `showPage()`. */
module Pagination {
  import opened Sequences
  import opened Strings

  /** Top and bottom margin, in points. */
  const Margin: int := 50
  /** Distance between consecutive baselines, in points. */
  const LineHeight: int := 15

  datatype Event = Draw(y: int, text: string) | PageBreak

  /** The baseline of the first line on every page. */
  function Top(height: int): int {
    height - Margin
  }

  /** Whether the line `k` rows below the top line (counting from 0) sits
      on or above the bottom margin. */
  predicate Fits(height: int, k: int) {
    Top(height) - LineHeight * k >= Margin
  }

  /** Lines on a full page: the number of rows `k >= 0` that fit. */
  function LinesPerPage(height: int): (n: nat)
    requires height >= 2 * Margin
    ensures n >= 1
    ensures forall k :: 0 <= k ==> (Fits(height, k) <==> k < n)
  {
    (height - 2 * Margin) / LineHeight + 1
  }

  /** Where the next line is drawn when the baseline is `y`: at `y`, or at
      the top of a new page when `y` is below the margin. */
  function DrawY(y: int, height: int): int {
    if y < Margin then Top(height) else y
  }

  /** The calls made for already stripped `texts` when the baseline is `y`.
      `LayoutDrawsEveryText`, `LayoutShape` and `LayoutLength` say what
      they are. */
  function Layout(texts: seq<string>, y: int, height: int): seq<Event>
    decreases |texts|
  {
    if texts == [] then []
    else
      (if y < Margin then [PageBreak] else []) + [Draw(DrawY(y, height), texts[0])]
        + Layout(texts[1..], DrawY(y, height) - LineHeight, height)
  }

  /** One draw per text, and at most one page break before each. */
  lemma {:induction false} LayoutLength(texts: seq<string>, y: int, height: int)
    ensures |texts| <= |Layout(texts, y, height)| <= 2 * |texts|
    decreases |texts|
  {
    if texts != [] {
      LayoutLength(texts[1..], DrawY(y, height) - LineHeight, height);
    }
  }

  /** Every line with `strip()` applied, as the loop passes it to `drawString`. */
  function StripAll(lines: seq<string>): (r: seq<string>)
    ensures |r| == |lines|
    ensures forall i :: 0 <= i < |lines| ==> r[i] == Strip(lines[i])
  {
    seq(|lines|, i requires 0 <= i < |lines| => Strip(lines[i]))
  }

  /** The calls made for `lines` on a fresh canvas. Stripping a line does
      not depend on where it goes, so it is applied up front. */
  function Render(lines: seq<string>, height: int): (r: seq<Event>)
    ensures |lines| <= |r| <= 2 * |lines|
  {
    LayoutLength(StripAll(lines), Top(height), height);
    Layout(StripAll(lines), Top(height), height)
  }

  /** The calls made for the rewritten text: one line per newline-separated
      piece, so at least one call more than there are newlines. */
  function RenderText(text: string, height: int): (r: seq<Event>)
    ensures |r| >= Count(text, '\n') + 1
  {
    Render(Split(text, '\n'), height)
  }

  // ---------------------------------------------------------------------
  // what gets drawn
  // ---------------------------------------------------------------------

  /** The texts drawn, in drawing order. */
  function DrawnTexts(events: seq<Event>): (r: seq<string>)
    ensures |r| <= |events|
    decreases |events|
  {
    if events == [] then []
    else (if events[0].Draw? then [events[0].text] else []) + DrawnTexts(events[1..])
  }

  lemma {:induction false} DrawnTextsAppend(a: seq<Event>, b: seq<Event>)
    ensures DrawnTexts(a + b) == DrawnTexts(a) + DrawnTexts(b)
    decreases |a|
  {
    if a == [] {
      assert a + b == b;
    } else {
      var head := if a[0].Draw? then [a[0].text] else [];
      assert (a + b)[0] == a[0] && (a + b)[1..] == a[1..] + b;
      assert DrawnTexts(a + b) == head + DrawnTexts(a[1..] + b);
      DrawnTextsAppend(a[1..], b);
    }
  }

  /** Laying texts out draws each of them once, in order, and nothing else. */
  lemma {:induction false} LayoutDrawsEveryText(texts: seq<string>, y: int, height: int)
    ensures DrawnTexts(Layout(texts, y, height)) == texts
    decreases |texts|
  {
    if texts != [] {
      var y' := DrawY(y, height);
      var pre := (if y < Margin then [PageBreak] else []) + [Draw(y', texts[0])];
      var rest := Layout(texts[1..], y' - LineHeight, height);
      assert Layout(texts, y, height) == pre + rest;
      LayoutDrawsEveryText(texts[1..], y' - LineHeight, height);
      DrawnTextsAppend(pre, rest);
      if y < Margin {
        DrawnTextsAppend([PageBreak], [Draw(y', texts[0])]);
      }
      assert DrawnTexts(pre) == [texts[0]];
      HeadTail(texts);
    }
  }

  /** Every line is drawn exactly once, stripped, in order, blank lines
      included; page breaks draw nothing. */
  lemma RenderDrawsEveryLine(lines: seq<string>, height: int)
    ensures DrawnTexts(Render(lines, height)) == StripAll(lines)
    ensures |DrawnTexts(Render(lines, height))| == |lines|
  {
    LayoutDrawsEveryText(StripAll(lines), Top(height), height);
  }

  // ---------------------------------------------------------------------
  // where it gets drawn
  // ---------------------------------------------------------------------

  /** What may follow what on the canvas: after a line at `y` the next line
      goes 15 points lower if that is still on or above the margin, and
      otherwise the page ends; after a page end the next line goes to the
      top. Two page ends never follow each other. */
  predicate Step(a: Event, b: Event, height: int) {
    match a
    case Draw(ya, _) =>
      (match b
       case Draw(yb, _) => ya - LineHeight >= Margin && yb == ya - LineHeight
       case PageBreak => ya - LineHeight < Margin)
    case PageBreak => b.Draw? && b.y == Top(height)
  }

  /** Every line is drawn between the margins. */
  predicate WithinMargins(events: seq<Event>, height: int) {
    forall i :: 0 <= i < |events| && events[i].Draw? ==> Margin <= events[i].y <= Top(height)
  }

  /** Every neighbouring pair of calls is a `Step`. */
  predicate Chained(events: seq<Event>, height: int) {
    forall i :: 0 <= i < |events| - 1 ==> Step(events[i], events[i + 1], height)
  }

  lemma ChainedAppend(a: seq<Event>, b: seq<Event>, height: int)
    requires Chained(a, height) && Chained(b, height)
    requires |a| > 0 && |b| > 0 ==> Step(a[|a| - 1], b[0], height)
    ensures Chained(a + b, height)
  {
    var ab := a + b;
    forall i | 0 <= i < |ab| - 1 ensures Step(ab[i], ab[i + 1], height) {
      if i < |a| - 1 {
        assert ab[i] == a[i] && ab[i + 1] == a[i + 1];
      } else if i == |a| - 1 {
        assert ab[i] == a[|a| - 1] && ab[i + 1] == b[0];
      } else {
        assert ab[i] == b[i - |a|] && ab[i + 1] == b[i - |a| + 1];
      }
    }
  }

  lemma WithinMarginsAppend(a: seq<Event>, b: seq<Event>, height: int)
    requires WithinMargins(a, height) && WithinMargins(b, height)
    ensures WithinMargins(a + b, height)
  {
    var ab := a + b;
    forall i | 0 <= i < |ab| && ab[i].Draw? ensures Margin <= ab[i].y <= Top(height) {
      if i >= |a| {
        assert ab[i] == b[i - |a|];
      }
    }
  }

  /** The first call for a line: a page break when the baseline is below
      the margin, the line itself otherwise. */
  function FirstCall(text: string, y: int): Event {
    if y < Margin then PageBreak else Draw(y, text)
  }

  /** From any baseline at or below the top, the calls keep every line
      between the margins, follow `Step`, end with a line, and begin with a
      page break exactly when the baseline is already below the margin. */
  lemma {:induction false} LayoutShape(texts: seq<string>, y: int, height: int)
    requires height >= 2 * Margin
    requires y <= Top(height)
    ensures var e := Layout(texts, y, height);
      && WithinMargins(e, height)
      && Chained(e, height)
      && (|texts| == 0 <==> |e| == 0)
      && (|e| > 0 ==> e[|e| - 1].Draw? && e[0] == FirstCall(texts[0], y))
    decreases |texts|
  {
    if texts != [] {
      var y' := DrawY(y, height);
      var draw := [Draw(y', texts[0])];
      var pre := (if y < Margin then [PageBreak] else []) + draw;
      var rest := Layout(texts[1..], y' - LineHeight, height);
      assert Layout(texts, y, height) == pre + rest;
      LayoutShape(texts[1..], y' - LineHeight, height);
      if y < Margin {
        ChainedAppend([PageBreak], draw, height);
      }
      assert pre[|pre| - 1] == Draw(y', texts[0]);
      assert Chained(pre, height);
      ChainedAppend(pre, rest, height);
      WithinMarginsAppend(pre, rest, height);
    }
  }

  /** The layout the source produces, given a page at least two margins
      high: every line between the margins; within a page each line 15
      points below the one before; a page ends only when the next baseline
      would fall below the margin, and the line after it goes to the top;
      the first line goes to the top of the first page, so it never starts
      with a page break, and no page break is left dangling at the end. */
  lemma RenderShape(lines: seq<string>, height: int)
    requires height >= 2 * Margin
    ensures var e := Render(lines, height);
      && WithinMargins(e, height)
      && Chained(e, height)
      && (|lines| > 0 ==> |e| > 0 && e[0] == Draw(Top(height), Strip(lines[0])) && e[|e| - 1].Draw?)
  {
    LayoutShape(StripAll(lines), Top(height), height);
  }

  // ---------------------------------------------------------------------
  // the layout rules determine the layout
  // ---------------------------------------------------------------------

  /** A list of calls ending with a line draws nothing only when empty. */
  lemma {:induction false} DrawnTextsEmpty(events: seq<Event>)
    requires |events| == 0 || events[|events| - 1].Draw?
    ensures |DrawnTexts(events)| == 0 <==> |events| == 0
    decreases |events|
  {
    if |events| > 0 && events[0].PageBreak? {
      DrawnTextsEmpty(events[1..]);
    }
  }

  lemma ChainedTail(events: seq<Event>, height: int)
    requires |events| >= 1 && Chained(events, height)
    ensures Chained(events[1..], height)
  {
    var tail := events[1..];
    forall i | 0 <= i < |tail| - 1 ensures Step(tail[i], tail[i + 1], height) {
      assert tail[i] == events[i + 1] && tail[i + 1] == events[i + 2];
    }
  }

  /** `Step` fixes what comes after a call, up to the text of a line. */
  lemma StepDeterminate(a: Event, b: Event, c: Event, height: int)
    requires Step(a, b, height) && Step(a, c, height)
    ensures b.Draw? <==> c.Draw?
    ensures b.Draw? ==> b.y == c.y
  {
  }

  /** Two chained lists of calls that start alike, end with a line and
      draw the same texts are the same list. */
  lemma {:induction false} ChainedUnique(a: seq<Event>, b: seq<Event>, height: int)
    requires Chained(a, height) && Chained(b, height)
    requires |a| >= 1 && |b| >= 1 && a[0] == b[0]
    requires a[|a| - 1].Draw? && b[|b| - 1].Draw?
    requires DrawnTexts(a) == DrawnTexts(b)
    ensures a == b
    decreases |a|
  {
    var head := if a[0].Draw? then [a[0].text] else [];
    var ta, tb := DrawnTexts(a[1..]), DrawnTexts(b[1..]);
    assert DrawnTexts(a) == head + ta && DrawnTexts(b) == head + tb;
    assert ta == DrawnTexts(a)[|head|..] == tb;
    DrawnTextsEmpty(a[1..]);
    DrawnTextsEmpty(b[1..]);
    if |a| == 1 {
      assert |b| == 1;
    } else {
      assert |b| > 1;
      StepDeterminate(a[0], a[1], b[1], height);
      if a[1].Draw? {
        assert ta[0] == a[1].text && tb[0] == b[1].text;
      }
      assert a[1..][0] == b[1..][0];
      ChainedTail(a, height);
      ChainedTail(b, height);
      ChainedUnique(a[1..], b[1..], height);
      HeadTail(a);
      HeadTail(b);
    }
  }

  /** The rules of `RenderShape` leave no freedom: any chained list of
      calls that draws the stripped lines, starts with a line at the top
      and ends with a line is exactly the one the loop produces. */
  lemma RenderUnique(lines: seq<string>, height: int, events: seq<Event>)
    requires height >= 2 * Margin
    requires DrawnTexts(events) == StripAll(lines)
    requires Chained(events, height)
    requires |events| > 0 ==> events[0].Draw? && events[0].y == Top(height) && events[|events| - 1].Draw?
    ensures events == Render(lines, height)
  {
    var r := Render(lines, height);
    RenderShape(lines, height);
    RenderDrawsEveryLine(lines, height);
    DrawnTextsEmpty(events);
    if |events| > 0 {
      assert DrawnTexts(events)[0] == events[0].text;
      ChainedUnique(events, r, height);
    }
  }

  // ---------------------------------------------------------------------
  // how many lines each page holds
  // ---------------------------------------------------------------------

  /** Lines drawn on each page, page by page: a page break starts a new
      count. */
  function PageCounts(events: seq<Event>): (r: seq<nat>)
    ensures |r| >= 1
    decreases |events|
  {
    if events == [] then [0]
    else
      var rest := PageCounts(events[1..]);
      if events[0].PageBreak? then [0] + rest
      else [rest[0] + 1] + rest[1..]
  }

  /** `total` lines filling pages of `perPage` in order: full pages, then
      whatever is left on the last one. */
  function FullPages(total: nat, perPage: nat): (r: seq<nat>)
    requires perPage >= 1
    ensures |r| >= 1
    decreases total
  {
    if total <= perPage then [total]
    else [perPage] + FullPages(total - perPage, perPage)
  }

  /** Every page but the last is full, and the last holds at least one
      line unless there are no lines at all. */
  lemma {:induction false} FullPagesShape(total: nat, perPage: nat)
    requires perPage >= 1
    ensures var r := FullPages(total, perPage);
      && (forall k :: 0 <= k < |r| - 1 ==> r[k] == perPage)
      && (total >= 1 ==> 1 <= r[|r| - 1] <= perPage)
    decreases total
  {
    if total > perPage {
      FullPagesShape(total - perPage, perPage);
    }
  }

  /** The number of pages is the number of lines over the lines per page,
      rounded up. */
  lemma {:induction false} FullPagesCount(total: nat, perPage: nat)
    requires perPage >= 1 && total >= 1
    ensures var k := |FullPages(total, perPage)|;
      perPage * (k - 1) < total <= perPage * k
    decreases total
  {
    if total > perPage {
      FullPagesCount(total - perPage, perPage);
      var k := |FullPages(total - perPage, perPage)|;
      assert perPage * k == perPage * (k - 1) + perPage;
      assert perPage * (k + 1) == perPage * k + perPage;
    }
  }

  /** Page counts with `p` more lines already on the current page. */
  function WithOnPage(counts: seq<nat>, p: nat): seq<nat>
    requires |counts| >= 1
  {
    [counts[0] + p] + counts[1..]
  }

  lemma PageCountsDraw(y: int, t: string, rest: seq<Event>)
    ensures PageCounts([Draw(y, t)] + rest) == WithOnPage(PageCounts(rest), 1)
  {
    assert ([Draw(y, t)] + rest)[1..] == rest;
  }

  lemma PageCountsBreak(rest: seq<Event>)
    ensures PageCounts([PageBreak] + rest) == [0] + PageCounts(rest)
  {
    assert ([PageBreak] + rest)[1..] == rest;
  }

  /** Helper for `DrawLines`: `Layout` unfolded once, re-associated so the
      loop invariant can take one step at a time. */
  lemma LayoutStep(texts: seq<string>, y: int, height: int)
    requires texts != []
    ensures Layout(texts, y, height)
      == (if y < Margin then [PageBreak] else [])
        + ([Draw(DrawY(y, height), texts[0])] + Layout(texts[1..], DrawY(y, height) - LineHeight, height))
  {
    var pre := if y < Margin then [PageBreak] else [];
    AppendAssoc(pre, [Draw(DrawY(y, height), texts[0])], Layout(texts[1..], DrawY(y, height) - LineHeight, height));
  }

  /** A line whose baseline is below the margin goes to the top of a new
      page. */
  lemma LayoutBreak(texts: seq<string>, y: int, height: int)
    requires texts != [] && y < Margin
    ensures Layout(texts, y, height)
      == [PageBreak] + ([Draw(Top(height), texts[0])] + Layout(texts[1..], Top(height) - LineHeight, height))
  {
  }

  /** A line whose baseline is on or above the margin is drawn there. */
  lemma LayoutNoBreak(texts: seq<string>, y: int, height: int)
    requires texts != [] && y >= Margin
    ensures Layout(texts, y, height)
      == [Draw(y, texts[0])] + Layout(texts[1..], y - LineHeight, height)
  {
    assert [] + [Draw(y, texts[0])] == [Draw(y, texts[0])];
  }

  /** A page break after a full page of `perPage` lines starts the
      counting of the remaining lines afresh. */
  lemma CountsAfterBreak(texts: seq<string>, y: int, height: int, perPage: nat)
    requires texts != [] && y < Margin && perPage >= 1
    requires WithOnPage(PageCounts(Layout(texts[1..], Top(height) - LineHeight, height)), 1)
      == FullPages(|texts|, perPage)
    ensures WithOnPage(PageCounts(Layout(texts, y, height)), perPage)
      == FullPages(perPage + |texts|, perPage)
  {
    var rest := Layout(texts[1..], Top(height) - LineHeight, height);
    LayoutBreak(texts, y, height);
    PageCountsDraw(Top(height), texts[0], rest);
    PageCountsBreak([Draw(Top(height), texts[0])] + rest);
  }

  /** A line drawn without a page break adds one to the current page. */
  lemma CountsAfterDraw(texts: seq<string>, y: int, height: int, p: nat, total: nat, perPage: nat)
    requires texts != [] && y >= Margin && perPage >= 1
    requires WithOnPage(PageCounts(Layout(texts[1..], y - LineHeight, height)), p + 1)
      == FullPages(total, perPage)
    ensures WithOnPage(PageCounts(Layout(texts, y, height)), p) == FullPages(total, perPage)
  {
    var rest := Layout(texts[1..], y - LineHeight, height);
    LayoutNoBreak(texts, y, height);
    PageCountsDraw(y, texts[0], rest);
  }

  /** With `p` lines on the page, the next baseline falls below the
      bottom margin exactly when the page is full. */
  lemma BreakWhenFull(height: int, p: nat, y: int)
    requires height >= 2 * Margin
    requires p <= LinesPerPage(height)
    requires y == Top(height) - LineHeight * p
    ensures y < Margin <==> p == LinesPerPage(height)
  {
    assert Fits(height, p) <==> p < LinesPerPage(height);
  }

  /** With `p` lines already on the page (`0 <= p <= LinesPerPage`) and the
      baseline where line `p` of the page goes, the remaining texts fill
      the pages exactly as `FullPages` says. */
  lemma {:induction false} LayoutPageCounts(texts: seq<string>, p: nat, y: int, height: int)
    requires height >= 2 * Margin
    requires p <= LinesPerPage(height)
    requires y == Top(height) - LineHeight * p
    requires p + |texts| >= 1
    ensures WithOnPage(PageCounts(Layout(texts, y, height)), p)
      == FullPages(p + |texts|, LinesPerPage(height))
    decreases |texts|
  {
    var n := LinesPerPage(height);
    var total := p + |texts|;
    if texts == [] {
      assert PageCounts(Layout(texts, y, height)) == [0];
      assert FullPages(p, n) == [p];
    } else {
      assert total == p + 1 + |texts[1..]|;
      BreakWhenFull(height, p, y);
      if p == n {
        LayoutPageCounts(texts[1..], 1, Top(height) - LineHeight, height);
        CountsAfterBreak(texts, y, height, n);
      } else {
        LayoutPageCounts(texts[1..], p + 1, y - LineHeight, height);
        CountsAfterDraw(texts, y, height, p, total, n);
      }
    }
  }

  /** Every page but the last holds exactly `LinesPerPage(height)` lines,
      the last holds between one and that many, and so the number of pages
      is the number of lines divided by the lines per page, rounded up. */
  lemma RenderPages(lines: seq<string>, height: int)
    requires height >= 2 * Margin
    requires |lines| >= 1
    ensures PageCounts(Render(lines, height)) == FullPages(|lines|, LinesPerPage(height))
    ensures var c := PageCounts(Render(lines, height));
      && (forall k :: 0 <= k < |c| - 1 ==> c[k] == LinesPerPage(height))
      && 1 <= c[|c| - 1] <= LinesPerPage(height)
      && LinesPerPage(height) * (|c| - 1) < |lines| <= LinesPerPage(height) * |c|
  {
    LayoutPageCounts(StripAll(lines), 0, Top(height), height);
    FullPagesShape(|lines|, LinesPerPage(height));
    FullPagesCount(|lines|, LinesPerPage(height));
    var c := PageCounts(Render(lines, height));
    assert WithOnPage(c, 0) == c;
  }

  // ---------------------------------------------------------------------
  // the loop as written
  // ---------------------------------------------------------------------

  /** The drawing loop, statement by statement: it makes exactly the calls
      `RenderText` describes. */
  method DrawLines(text: string, height: int) returns (events: seq<Event>)
    ensures events == RenderText(text, height)
  {
    var lines := Split(text, '\n');
    ghost var texts := StripAll(lines);
    var y := Top(height);
    events := [];
    var i := 0;
    while i < |lines|
      invariant 0 <= i <= |lines|
      invariant events + Layout(texts[i..], y, height) == Layout(texts, Top(height), height)
    {
      ghost var rest := Layout(texts[i + 1..], DrawY(y, height) - LineHeight, height);
      ghost var step := [Draw(DrawY(y, height), texts[i])] + rest;
      assert texts[i..][0] == texts[i] == Strip(lines[i]);
      assert texts[i..][1..] == texts[i + 1..];
      LayoutStep(texts[i..], y, height);
      if y < Margin {
        AppendAssoc(events, [PageBreak], step);
        events := events + [PageBreak];
        y := Top(height);
      } else {
        assert [] + step == step;
      }
      AppendAssoc(events, [Draw(y, texts[i])], rest);
      events := events + [Draw(y, Strip(lines[i]))];
      y := y - LineHeight;
      i := i + 1;
    }
    assert texts[i..] == [];
  }
}
