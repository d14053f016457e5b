/** The pagination bar the browser client draws under a blog list
    (`renderPagination`): a Previous button, the page numbers around the
    current page with the first and last page always shown and an ellipsis
    where a run of pages is skipped, and a Next button. */
module PaginationView {
  import opened Base

  /** One control of the bar. A `target` is the page the control's click
      handler asks for; `None` stands for an empty handler. */
  datatype Control =
    | Previous(disabled: bool, target: Option<int>)
    | PageButton(page: int, active: bool)
    | Gap
    | NextButton(disabled: bool, target: Option<int>)

  /** Page `i` gets a button: the current page, its two neighbours, and
      the first and last page. */
  predicate Shown(current: int, pages: int, i: int) {
    i == current || i == 1 || i == pages || (current - 1 <= i <= current + 1)
  }

  /** What loop step `i` adds: a button, an ellipsis two pages away from
      the current one when that page has no button, or nothing. */
  function Item(current: int, pages: int, i: int): seq<Control> {
    if Shown(current, pages, i) then [PageButton(i, i == current)]
    else if i == current - 2 || i == current + 2 then [Gap]
    else []
  }

  /** The controls loop steps `from` to `to - 1` add, in order. */
  function Strip(current: int, pages: int, from: int, to: int): seq<Control>
    decreases to - from
  {
    if to <= from then [] else Strip(current, pages, from, to - 1) + Item(current, pages, to - 1)
  }

  /** `renderPagination`: nothing at all for a single page (or none);
      otherwise Previous, the page strip for pages `1..pages`, and Next.
      Previous is disabled exactly on page 1 and targets the page before
      only when the current page exceeds 1; Next is disabled exactly on
      the last page and targets the page after only when the current page
      is below the last. */
  function RenderPagination(current: int, pages: int): (r: seq<Control>)
    ensures r == [] <==> pages <= 1
    ensures pages > 1 ==> |r| >= 2
    ensures pages > 1 ==> r[0].Previous? && (r[0].disabled <==> current == 1)
    ensures pages > 1 ==> (r[0].target.Some? <==> current > 1)
    ensures pages > 1 && current > 1 ==> r[0].target == Some(current - 1)
    ensures pages > 1 ==> r[|r| - 1].NextButton? && (r[|r| - 1].disabled <==> current == pages)
    ensures pages > 1 ==> (r[|r| - 1].target.Some? <==> current < pages)
    ensures pages > 1 && current < pages ==> r[|r| - 1].target == Some(current + 1)
    ensures forall k :: 0 < k < |r| - 1 ==> r[k].PageButton? || r[k].Gap?
  {
    if pages <= 1 then []
    else
      var strip := Strip(current, pages, 1, pages + 1);
      StripHoldsPagesAndGaps(current, pages, 1, pages + 1);
      [Previous(current == 1, if current > 1 then Some(current - 1) else None)]
      + strip
      + [NextButton(current == pages, if current < pages then Some(current + 1) else None)]
  }

  // ----------------------------------------------------------- the strip

  lemma {:induction false} StripHoldsPagesAndGaps(current: int, pages: int, from: int, to: int)
    ensures forall k :: 0 <= k < |Strip(current, pages, from, to)| ==>
              (Strip(current, pages, from, to)[k].PageButton? && from <= Strip(current, pages, from, to)[k].page < to)
              || Strip(current, pages, from, to)[k].Gap?
    decreases if to > from then to - from else 0
  {
    if to > from {
      StripHoldsPagesAndGaps(current, pages, from, to - 1);
    }
  }

  /** Page `i` has a button in the strip exactly when it is in range and
      shown, and the button is marked active exactly on the current page. */
  lemma {:induction false} StripButtonIff(current: int, pages: int, from: int, to: int, i: int, active: bool)
    ensures PageButton(i, active) in Strip(current, pages, from, to) <==>
              from <= i < to && Shown(current, pages, i) && active == (i == current)
    decreases if to > from then to - from else 0
  {
    if to > from {
      StripButtonIff(current, pages, from, to - 1, i, active);
      StripHoldsPagesAndGaps(current, pages, from, to - 1);
    }
  }

  /** A page has a button in the bar exactly when it is in `1..pages` and
      shown, and the button is active exactly on the current page. */
  lemma ButtonShownIff(current: int, pages: int, i: int, active: bool)
    requires pages > 1
    ensures PageButton(i, active) in RenderPagination(current, pages) <==>
              1 <= i <= pages && Shown(current, pages, i) && active == (i == current)
  {
    var strip := Strip(current, pages, 1, pages + 1);
    StripButtonIff(current, pages, 1, pages + 1, i, active);
    var r := RenderPagination(current, pages);
    assert r == [r[0]] + strip + [r[|r| - 1]];
  }

  /** The page buttons of `s` are in increasing page order. */
  predicate Ascending(s: seq<Control>) {
    forall j, k :: 0 <= j < k < |s| && s[j].PageButton? && s[k].PageButton? ==> s[j].page < s[k].page
  }

  /** The buttons of the strip are in increasing page order. */
  lemma {:induction false} StripAscending(current: int, pages: int, from: int, to: int)
    ensures Ascending(Strip(current, pages, from, to))
    decreases if to > from then to - from else 0
  {
    if to > from {
      StripAscending(current, pages, from, to - 1);
      StripHoldsPagesAndGaps(current, pages, from, to - 1);
      var prev := Strip(current, pages, from, to - 1);
      var s := Strip(current, pages, from, to);
      forall j, k | 0 <= j < k < |s| && s[j].PageButton? && s[k].PageButton?
        ensures s[j].page < s[k].page
      {
        assert s[j] == prev[j];
        if k >= |prev| {
          assert s[k] == Item(current, pages, to - 1)[k - |prev|];
          assert s[k].page == to - 1;
          assert prev[j].page < to - 1;
        } else {
          assert s[k] == prev[k];
          assert Ascending(prev);
        }
      }
    }
  }

  /** The page buttons of the whole bar are in increasing page order. */
  lemma BarAscending(current: int, pages: int)
    ensures Ascending(RenderPagination(current, pages))
  {
    if pages > 1 {
      var strip := Strip(current, pages, 1, pages + 1);
      StripAscending(current, pages, 1, pages + 1);
      var r := RenderPagination(current, pages);
      forall j, k | 0 <= j < k < |r| && r[j].PageButton? && r[k].PageButton?
        ensures r[j].page < r[k].page
      {
        assert r[j] == strip[j - 1] && r[k] == strip[k - 1];
      }
    }
  }

  lemma {:induction false} StripSplit(current: int, pages: int, a: int, b: int, c: int)
    requires a <= b <= c
    ensures Strip(current, pages, a, c) == Strip(current, pages, a, b) + Strip(current, pages, b, c)
    decreases if c > b then c - b else 0
  {
    if c > b {
      StripSplit(current, pages, a, b, c - 1);
    }
  }

  lemma {:induction false} StripHidden(current: int, pages: int, a: int, b: int)
    requires forall i :: a <= i < b ==> Item(current, pages, i) == []
    ensures Strip(current, pages, a, b) == []
    decreases if b > a then b - a else 0
  {
    if b > a {
      StripHidden(current, pages, a, b - 1);
    }
  }

  /** The buttons for the consecutive pages `lo..to - 1`. */
  function Run(current: int, lo: int, to: int): seq<Control>
    requires lo <= to
  {
    seq(to - lo, k requires 0 <= k < to - lo => PageButton(lo + k, lo + k == current))
  }

  lemma {:induction false} StripOfShownRun(current: int, pages: int, lo: int, to: int)
    requires lo <= to
    requires forall i :: lo <= i < to ==> Shown(current, pages, i)
    ensures Strip(current, pages, lo, to) == Run(current, lo, to)
    decreases if to > lo then to - lo else 0
  {
    if to > lo {
      StripOfShownRun(current, pages, lo, to - 1);
      assert Run(current, lo, to) == Run(current, lo, to - 1) + [PageButton(to - 1, to - 1 == current)];
    }
  }

  lemma StripOne(current: int, pages: int, i: int)
    ensures Strip(current, pages, i, i + 1) == Item(current, pages, i)
  {
    assert Strip(current, pages, i, i) == [];
  }

  /** Pages `1..lo - 1` contribute page 1 and, when more lies between,
      one ellipsis. */
  lemma StripLeft(current: int, pages: int)
    requires 1 <= current <= pages && pages > 1
    ensures var lo := if current > 1 then current - 1 else 1;
      Strip(current, pages, 1, lo)
      == (if lo > 1 then [PageButton(1, false)] else []) + (if lo > 2 then [Gap] else [])
  {
    var lo := if current > 1 then current - 1 else 1;
    if lo > 2 {
      StripSplit(current, pages, 1, 2, lo);
      StripSplit(current, pages, 2, lo - 1, lo);
      forall i | 2 <= i < lo - 1
        ensures Item(current, pages, i) == []
      {
      }
      StripHidden(current, pages, 2, lo - 1);
      StripOne(current, pages, 1);
      StripOne(current, pages, lo - 1);
      assert Item(current, pages, 1) == [PageButton(1, false)];
      assert Item(current, pages, lo - 1) == [Gap];
    } else if lo == 2 {
      StripOne(current, pages, 1);
      assert Item(current, pages, 1) == [PageButton(1, false)];
    }
  }

  /** Pages `hi + 1..pages` contribute, when more lies between, one
      ellipsis and the last page. */
  lemma StripRight(current: int, pages: int)
    requires 1 <= current <= pages && pages > 1
    ensures var hi := if current < pages then current + 1 else pages;
      Strip(current, pages, hi + 1, pages + 1)
      == (if hi < pages - 1 then [Gap] else []) + (if hi < pages then [PageButton(pages, false)] else [])
  {
    var hi := if current < pages then current + 1 else pages;
    if hi < pages - 1 {
      StripSplit(current, pages, hi + 1, hi + 2, pages + 1);
      StripSplit(current, pages, hi + 2, pages, pages + 1);
      forall i | hi + 2 <= i < pages
        ensures Item(current, pages, i) == []
      {
      }
      StripHidden(current, pages, hi + 2, pages);
      StripOne(current, pages, hi + 1);
      StripOne(current, pages, pages);
      assert Item(current, pages, hi + 1) == [Gap];
      assert Item(current, pages, pages) == [PageButton(pages, false)];
    } else if hi < pages {
      StripOne(current, pages, pages);
      assert Item(current, pages, pages) == [PageButton(pages, false)];
    }
  }

  /** The shape of the strip when the current page is in range: page 1,
      an ellipsis when pages between 1 and the current page's left
      neighbour are skipped, the current page with its neighbours, an
      ellipsis when pages before the last are skipped, and the last page. */
  lemma StripShape(current: int, pages: int)
    requires 1 <= current <= pages && pages > 1
    ensures var lo := if current > 1 then current - 1 else 1;
      var hi := if current < pages then current + 1 else pages;
      Strip(current, pages, 1, pages + 1)
      == (if lo > 1 then [PageButton(1, false)] else [])
         + (if lo > 2 then [Gap] else [])
         + Run(current, lo, hi + 1)
         + (if hi < pages - 1 then [Gap] else [])
         + (if hi < pages then [PageButton(pages, false)] else [])
  {
    var lo := if current > 1 then current - 1 else 1;
    var hi := if current < pages then current + 1 else pages;
    var first := if lo > 1 then [PageButton(1, false)] else [];
    var leftGap := if lo > 2 then [Gap] else [];
    var rightGap := if hi < pages - 1 then [Gap] else [];
    var last := if hi < pages then [PageButton(pages, false)] else [];
    StripThree(current, pages, lo, hi + 1);
    StripLeft(current, pages);
    StripOfShownRun(current, pages, lo, hi + 1);
    StripRight(current, pages);
    Regroup(first + leftGap, Run(current, lo, hi + 1), rightGap, last);
  }

  lemma StripThree(current: int, pages: int, a: int, b: int)
    requires 1 <= a <= b <= pages + 1
    ensures Strip(current, pages, 1, pages + 1)
            == Strip(current, pages, 1, a) + (Strip(current, pages, a, b) + Strip(current, pages, b, pages + 1))
  {
    StripSplit(current, pages, 1, a, pages + 1);
    StripSplit(current, pages, a, b, pages + 1);
  }

  lemma Regroup(a: seq<Control>, b: seq<Control>, c: seq<Control>, d: seq<Control>)
    ensures a + (b + (c + d)) == a + b + c + d
  {
  }

  /** A page number past the last (a stale page after deletions) leaves
      Next enabled with an empty click handler. */
  lemma StaleNextHasNoTarget()
    ensures var r := RenderPagination(5, 3);
      r[|r| - 1] == NextButton(false, None)
  {
  }
}
