/** The scrollable tab strip of the property sheet: a singly linked list of pages with two
    cursors, the active page and the first displayed one, and a budget of pixels. */
module PropSheets {
  import opened Options
  import opened Sequences

  const MIN_TAB_WIDTH := 10

  /* ---------- Widths ---------- */

  /** The total width of the tabs `i` up to but not including `j`. */
  function Sum(w: seq<int>, i: nat, j: nat): int
    requires i <= j <= |w|
    decreases j - i
  {
    if i == j then 0 else Sum(w, i, j - 1) + w[j - 1]
  }

  /** The total width of the tabs `i` through `a`. */
  function Through(w: seq<int>, i: nat, a: nat): int
    requires i <= a < |w|
  {
    Sum(w, i, a + 1)
  }

  /** Some leading tabs together exceed the limit. */
  ghost predicate Overloaded(w: seq<int>, limit: int) {
    exists k :: 0 < k <= |w| && Sum(w, 0, k) > limit
  }

  /** The leftmost tab, from `start` on, whose tabs through `a` fit in the budget: the least
      scrolling that shows tab `a`. */
  function FirstFit(w: seq<int>, start: nat, a: nat, budget: int): (r: Option<nat>)
    requires a < |w| && start <= a + 1
    ensures r.Some? ==> start <= r.value <= a && Through(w, r.value, a) <= budget
    ensures r.Some? ==> forall k :: start <= k < r.value ==> Through(w, k, a) > budget
    ensures r.None? ==> forall k :: start <= k <= a ==> Through(w, k, a) > budget
    decreases a + 1 - start
  {
    if start > a then None
    else if Through(w, start, a) <= budget then Some(start)
    else FirstFit(w, start + 1, a, budget)
  }

  lemma FirstFitNext(w: seq<int>, start: nat, a: nat, budget: int)
    requires start <= a < |w|
    ensures FirstFit(w, start, a, budget) ==
      if Through(w, start, a) <= budget then Some(start)
      else if start < a then FirstFit(w, start + 1, a, budget) else None
  {
  }

  lemma SumNone(w: seq<int>)
    ensures Sum(w, 0, 0) == 0
  {
  }

  lemma SumNext(w: seq<int>, i: nat)
    requires i < |w|
    ensures Sum(w, 0, i + 1) == Sum(w, 0, i) + w[i]
    ensures Sum(w, 0, 0) == 0
  {
  }

  /** A tab that fits alone can always be shown. */
  lemma FitsAlone(w: seq<int>, start: nat, a: nat, budget: int)
    requires a < |w| && start <= a && w[a] <= budget
    ensures FirstFit(w, start, a, budget).Some?
  {
    assert Sum(w, a, a + 1) == w[a];
    assert Through(w, a, a) == w[a];
  }

  /** Widening the sum to the left never shrinks it, when no width is negative. */
  lemma {:induction false} SumGrows(w: seq<int>, i: nat, j: nat)
    requires i <= j <= |w| && forall k :: 0 <= k < |w| ==> w[k] >= 0
    ensures Sum(w, i, j) >= 0
    ensures i < j ==> Sum(w, i, j) >= w[j - 1]
    decreases j - i
  {
    if i < j {
      SumGrows(w, i, j - 1);
    }
  }

  /** Without negative widths, no page can be displayed first exactly when the active tab
      alone is wider than the budget. */
  lemma NothingFits(w: seq<int>, start: nat, a: nat, budget: int)
    requires a < |w| && start <= a && forall k :: 0 <= k < |w| ==> w[k] >= 0
    ensures FirstFit(w, start, a, budget) == None <==> w[a] > budget
  {
    if w[a] <= budget {
      FitsAlone(w, start, a, budget);
    } else if FirstFit(w, start, a, budget).Some? {
      SumGrows(w, FirstFit(w, start, a, budget).value, a + 1);
    }
  }

  /** A sheet that is not overloaded shows everything from the head. */
  lemma FitsFromHead(w: seq<int>, a: nat, limit: int, budget: int)
    requires a < |w| && !Overloaded(w, limit) && limit <= budget
    ensures FirstFit(w, 0, a, budget) == Some(0)
  {
    assert Sum(w, 0, a + 1) <= limit;
  }

  /* ---------- Layouts that do not scroll ---------- */

  /** The width of every tab in the simple style. */
  function EqualWidth(right: nat, count: nat): int
    requires count > 0
  {
    var width := right * 8 / (count * 10);
    if width < MIN_TAB_WIDTH then right / count else width
  }

  function Repeat(x: int, n: nat): (w: seq<int>)
    ensures |w| == n && forall i :: 0 <= i < n ==> w[i] == x
  {
    seq(n, i => x)
  }

  /** What each tab gives up in the compact style when the tabs are wider than the head. */
  function ShrinkStep(total: int, right: int, count: nat): int
    requires count > 0 && total > right
  {
    var step := (total - right) / count;
    if step == 0 then 1 else step
  }

  function Shrunk(width: int, step: int): int {
    if width - step < MIN_TAB_WIDTH then MIN_TAB_WIDTH else width - step
  }

  function ShrunkAll(w: seq<int>, step: int): (r: seq<int>)
    ensures |r| == |w| && forall i :: 0 <= i < |w| ==> r[i] == Shrunk(w[i], step)
  {
    seq(|w|, i requires 0 <= i < |w| => Shrunk(w[i], step))
  }

  /** The last tab is cut to what is left of the head when the tabs overflow it. */
  function CutLast(s: seq<int>, right: int): (r: seq<int>)
    requires s != []
    ensures |r| == |s|
  {
    var n := |s|;
    if Sum(s, 0, n) > right then s[n - 1 := right - Sum(s, 0, n - 1)] else s
  }

  /** Cutting makes the tabs fit, and fill the head when they overflowed it. */
  lemma CutFits(s: seq<int>, right: int)
    requires s != []
    ensures Sum(CutLast(s, right), 0, |s|) == if Sum(s, 0, |s|) > right then right else Sum(s, 0, |s|)
    ensures Sum(CutLast(s, right), 0, |s| - 1) == Sum(s, 0, |s| - 1)
  {
    SumSame(CutLast(s, right), s, 0, |s| - 1);
  }

  /** The compact layout of tabs with the given natural widths: if they overflow, all shrink,
      and the last one takes whatever is left when they still do. */
  function CompactWidths(w: seq<int>, right: int): (r: seq<int>)
    ensures |r| == |w|
  {
    var n := |w|;
    if n == 0 || Sum(w, 0, n) <= right then w
    else CutLast(ShrunkAll(w, ShrinkStep(Sum(w, 0, n), right, n)), right)
  }

  lemma {:induction false} SumSame(w: seq<int>, v: seq<int>, i: nat, j: nat)
    requires i <= j <= |w| && j <= |v| && forall k :: i <= k < j ==> w[k] == v[k]
    ensures Sum(w, i, j) == Sum(v, i, j)
    decreases j - i
  {
    if i < j {
      SumSame(w, v, i, j - 1);
    }
  }

  lemma {:induction false} SumRepeat(x: int, n: nat, j: nat)
    requires j <= n
    ensures Sum(Repeat(x, n), 0, j) == x * j
  {
    if j > 0 {
      SumRepeat(x, n, j - 1);
    }
  }

  /** The simple layout never overflows the head. */
  lemma EqualFits(right: nat, count: nat)
    requires count > 0
    ensures Sum(Repeat(EqualWidth(right, count), count), 0, count) == EqualWidth(right, count) * count <= right
  {
    SumRepeat(EqualWidth(right, count), count, count);
    var width := right * 8 / (count * 10);
    Quotient(right * 8, count * 10);
    Quotient(right, count);
    assert width * (count * 10) == (width * count) * 10;
  }

  /** The widest tabs that leave a fifth of the head free, if those have the minimal width, else
      the widest that fit. */
  lemma EqualWidthExactly(right: nat, count: nat)
    requires count > 0
    ensures var w := EqualWidth(right, count);
      if right * 8 >= 10 * (count * 10) then w * (count * 10) <= right * 8 < (w + 1) * (count * 10)
      else w * count <= right < (w + 1) * count
  {
    Quotient(right * 8, count * 10);
    Quotient(right, count);
    if right * 8 >= 10 * (count * 10) {
      QuotientAtLeast(right * 8, count * 10, 10);
    } else {
      QuotientBelow(right * 8, count * 10, 10);
    }
  }

  lemma Quotient(a: nat, b: nat)
    requires b > 0
    ensures a / b * b <= a < (a / b + 1) * b
  {
  }

  lemma QuotientAtLeast(a: nat, b: nat, q: nat)
    requires b > 0 && a >= q * b
    ensures a / b >= q
  {
    Quotient(a, b);
    if a / b < q {
      Monotone(a / b + 1, q, b);
    }
  }

  lemma QuotientBelow(a: nat, b: nat, q: nat)
    requires b > 0 && a < q * b
    ensures a / b < q
  {
    Quotient(a, b);
    if a / b >= q {
      Monotone(q, a / b, b);
    }
  }

  lemma Monotone(p: nat, q: nat, b: nat)
    requires p <= q
    ensures p * b <= q * b
  {
  }

  /** The common step: an equal share of what is too much, rounded down, but at least one. */
  lemma ShrinkStepExactly(total: int, right: int, count: nat)
    requires count > 0 && total > right
    ensures var step := ShrinkStep(total, right, count);
      if total - right < count then step == 1 else step * count <= total - right < (step + 1) * count
  {
    var q := (total - right) / count;
    Quotient(total - right, count);
    AtLeastOne(total - right, count, q);
  }

  lemma AtLeastOne(excess: nat, count: nat, q: nat)
    requires q * count <= excess < (q + 1) * count
    ensures q == 0 <==> excess < count
  {
    if q > 0 {
      Monotone(1, q, count);
    }
  }

  /** Tabs that fit keep their natural widths. Others give up the common step, down to the
      minimum, except a last one that is cut to what is left. */
  lemma CompactExactly(w: seq<int>, right: int, i: nat)
    requires i < |w|
    ensures Sum(w, 0, |w|) <= right ==> CompactWidths(w, right) == w
    ensures Sum(w, 0, |w|) > right && !(i == |w| - 1 && CompactCutsLast(w, right)) ==>
      var step := ShrinkStep(Sum(w, 0, |w|), right, |w|);
      CompactWidths(w, right)[i] == if w[i] < 10 + step then 10 else w[i] - step
    ensures CompactCutsLast(w, right) <==>
      Sum(w, 0, |w|) > right && Sum(ShrunkAll(w, ShrinkStep(Sum(w, 0, |w|), right, |w|)), 0, |w|) > right
  {
    hide Sum, ShrinkStep;
  }

  /** The compact layout never overflows the head, and an overflowing one that had to cut its
      last tab fills the head exactly. */
  lemma CompactFits(w: seq<int>, right: int)
    requires w != []
    ensures Sum(CompactWidths(w, right), 0, |w|) <= right
    ensures CompactCutsLast(w, right) ==> Sum(CompactWidths(w, right), 0, |w|) == right
  {
    hide CutLast, ShrunkAll, ShrinkStep;
    if Sum(w, 0, |w|) > right {
      CutFits(ShrunkAll(w, ShrinkStep(Sum(w, 0, |w|), right, |w|)), right);
    }
  }

  /** The tabs still overflow after shrinking, so the last one is cut. */
  predicate CompactCutsLast(w: seq<int>, right: int) {
    var n := |w|;
    n > 0 && Sum(w, 0, n) > right && Sum(ShrunkAll(w, ShrinkStep(Sum(w, 0, n), right, n)), 0, n) > right
  }

  /** No tab grows, and none but the last goes below the minimum; the last one ends with a
      negative width exactly when the tabs overflow the head and all but the last, each less
      the common step but no narrower than the minimum, still do. */
  lemma CompactBounds(w: seq<int>, right: int, i: nat)
    requires i < |w| && forall k :: 0 <= k < |w| ==> w[k] >= MIN_TAB_WIDTH
    ensures CompactWidths(w, right)[i] <= w[i]
    ensures i + 1 < |w| ==> CompactWidths(w, right)[i] >= MIN_TAB_WIDTH
    ensures CompactWidths(w, right)[|w| - 1] < 0 <==>
      Sum(w, 0, |w|) > right && Sum(ShrunkAll(w, ShrinkStep(Sum(w, 0, |w|), right, |w|)), 0, |w| - 1) > right
  {
    hide Sum, CutLast, ShrinkStep;
    var n := |w|;
    if Sum(w, 0, n) <= right {
      SumNext(w, n - 1);
    } else {
      StepPositive(Sum(w, 0, n), right, n);
      CutBounds(ShrunkAll(w, ShrinkStep(Sum(w, 0, n), right, n)), right, i);
    }
  }

  lemma CutBounds(s: seq<int>, right: int, i: nat)
    requires i < |s| && s[|s| - 1] >= 0
    ensures CutLast(s, right)[i] <= s[i]
    ensures i + 1 < |s| ==> CutLast(s, right)[i] == s[i]
    ensures CutLast(s, right)[|s| - 1] < 0 <==> Sum(s, 0, |s| - 1) > right
  {
    SumNext(s, |s| - 1);
  }

  lemma StepPositive(total: int, right: int, count: nat)
    requires count > 0 && total > right
    ensures ShrinkStep(total, right, count) > 0
  {
  }

  /** Cutting the last tab can leave it a negative width. */
  lemma CompactCanGoNegative()
    ensures CompactWidths([200, 10, 10], 100) == [160, 10, -70]
  {
    var w := [200, 10, 10];
    assert Sum(w, 0, 1) == 200 && Sum(w, 0, 2) == 210 && Sum(w, 0, 3) == 220;
    assert ShrinkStep(220, 100, 3) == 40;
    var s := ShrunkAll(w, 40);
    assert s == [160, 10, 10];
    assert Sum(s, 0, 1) == 160 && Sum(s, 0, 2) == 170 && Sum(s, 0, 3) == 180;
  }

  /* ---------- Pages ---------- */

  /** A page; its title counts only by the extent it is measured with. */
  class Page {
    var title: Option<nat>
    var icon: bool
    var width: int
    var next: Page?

    constructor (title: Option<nat>, icon: bool)
      ensures this.title == title && this.icon == icon && next == null && width == 0
    {
      this.title, this.icon, width, next := title, icon, 0, null;
    }
  }

  /** `head` leads through exactly the pages of `s`. */
  ghost predicate Chain(head: Page?, s: seq<Page>)
    reads s
  {
    && Distinct(s)
    && head == (if s == [] then null else s[0])
    && forall i {:trigger s[i].next} :: 0 <= i < |s| ==> s[i].next == if i + 1 < |s| then s[i + 1] else null
  }

  function Widths(s: seq<Page>): (w: seq<int>)
    reads s
    ensures |w| == |s| && forall i {:trigger w[i]} :: 0 <= i < |s| ==> w[i] == s[i].width
  {
    seq(|s|, i requires 0 <= i < |s| reads s => s[i].width)
  }

  /* ---------- The sheet ---------- */

  /** What the window procedure receives. A failed page creation or title allocation is part
      of the message. */
  datatype Message =
    | AddPage(title: Option<nat>, icon: bool, created: bool)
    | RemovePage(index: int)
    | SetTitle(index: int, text: Option<nat>, stored: bool)
    | SetActiveIndex(index: int)
    | Click(x: int, inBar: bool)
    | ScrollRight
    | ScrollLeft
    | Resize(newRight: int)

  /** The sheet never shrinks in the course of these messages. */
  predicate Growing(msgs: seq<Message>, right: int) {
    msgs == []
    || (if msgs[0].Resize? then right <= msgs[0].newRight && Growing(msgs[1..], msgs[0].newRight)
        else Growing(msgs[1..], right))
  }

  class PropSheet {
    const sbWidth: nat
    const iconX: nat
    var right: int
    var headWidth: int
    var pageCount: int
    var active: Page?
    var firstDisplay: Page?
    var head: Page?
    var overload: bool
    ghost var pages: seq<Page>
    ghost var activeAt: nat
    ghost var firstAt: nat

    /** What is left of the head when both scroll buttons are shown. */
    function Limit(): int
      reads this
    {
      right - sbWidth * 2
    }

    ghost predicate ListOk()
      reads this, pages
    {
      Chain(head, pages) && pageCount == |pages|
    }

    ghost predicate ActiveOk()
      reads this
    {
      activeAt < |pages| && active == pages[activeAt]
    }

    ghost predicate FirstOk()
      reads this
    {
      firstAt < |pages| && firstDisplay == pages[firstAt]
    }

    /** Every tab fits between the scroll buttons, and those fit in the head. */
    ghost predicate WidthsOk()
      reads this, pages
    {
      (forall i {:trigger pages[i].width} :: 0 <= i < |pages| ==> pages[i].width <= Limit()) && Limit() <= headWidth
    }

    /** The invariant of every run. */
    ghost predicate Valid()
      reads this, pages
    {
      && ListOk() && WidthsOk()
      && (pages == [] ==> active == null && firstDisplay == null)
      && (pages != [] ==> ActiveOk() && FirstOk() && firstAt <= activeAt)
      && (|pages| <= 1 ==> !overload)
    }

    /** The tabs from the first displayed one through the active one fit in the head. */
    ghost predicate Shown()
      reads this, pages
    {
      || pages == []
      || (ActiveOk() && FirstOk() && firstAt <= activeAt && Through(Widths(pages), firstAt, activeAt) <= headWidth)
    }

    constructor (sbWidth: nat, iconX: nat)
      ensures Valid() && pages == [] && right == 0
      ensures this.sbWidth == sbWidth && this.iconX == iconX
    {
      this.sbWidth, this.iconX := sbWidth, iconX;
      right, headWidth, pageCount, overload := 0, 0, 0, false;
      active, firstDisplay, head := null, null, null;
      pages, activeAt, firstAt := [], 0, 0;
    }

    /** The page where update_propsheet starts looking. */
    ghost function Start(): nat
      reads this
      requires ActiveOk() && (firstDisplay == null || FirstOk())
    {
      if firstDisplay == null then 0
      else if firstAt > activeAt then activeAt
      else firstAt
    }

    /** The first loop of update_propsheet. */
    method TestOverload()
      requires ListOk()
      modifies `overload, `headWidth
      ensures ListOk() && Widths(pages) == old(Widths(pages))
      ensures overload == Overloaded(Widths(pages), Limit())
      ensures headWidth == if overload then Limit() else old(headWidth)
    {
      ghost var w := Widths(pages);
      var page := head;
      var tabWidth := 0;
      ghost var i := 0;
      overload := false;
      while page != null
        invariant 0 <= i <= |pages|
        invariant page == if i < |pages| then pages[i] else null
        invariant tabWidth == Sum(w, 0, i) && !overload && headWidth == old(headWidth)
        invariant forall k :: 0 < k <= i ==> Sum(w, 0, k) <= Limit()
        decreases |pages| - i
      {
        assert w[i] == pages[i].width;
        tabWidth := tabWidth + page.width;
        assert tabWidth == Sum(w, 0, i + 1);
        if tabWidth > right - sbWidth * 2 {
          overload := true;
          headWidth := right - sbWidth * 2;
          break;
        }
        page := page.next;
        i := i + 1;
      }
    }

    /** The second loop: a first page right of the active one is moved to it. */
    method TestRightOfActive()
      requires ListOk() && ActiveOk() && FirstOk()
      modifies `firstDisplay, `firstAt
      ensures ListOk() && Widths(pages) == old(Widths(pages))
      ensures FirstOk() && firstAt == if old(firstAt) > activeAt then activeAt else old(firstAt)
    {
      var page := active.next;
      ghost var i := activeAt + 1;
      while page != null
        invariant activeAt < i <= |pages|
        invariant page == if i < |pages| then pages[i] else null
        invariant firstDisplay == old(firstDisplay) && firstAt == old(firstAt)
        invariant !(activeAt < firstAt < i)
        decreases |pages| - i
      {
        if page == firstDisplay {
          firstDisplay := active;
          firstAt := activeAt;
          break;
        }
        page := page.next;
        i := i + 1;
      }
    }

    /** The inner loop of the last step: whether the tabs from `page` through the active one
        fit in the head. */
    method ReachesActive(page: Page, ghost j: nat) returns (fits: bool)
      requires ListOk() && ActiveOk() && j < |pages| && page == pages[j]
      ensures fits <==> j <= activeAt && Through(Widths(pages), j, activeAt) <= headWidth
    {
      ghost var w := Widths(pages);
      var temp: Page? := page;
      var tabWidth := 0;
      ghost var i := j;
      fits := false;
      while temp != null
        invariant j <= i <= |pages|
        invariant temp == if i < |pages| then pages[i] else null
        invariant tabWidth == Sum(w, j, i)
        invariant j <= activeAt < i ==> Sum(w, j, activeAt + 1) > headWidth
        decreases |pages| - i
      {
        assert w[i] == pages[i].width;
        tabWidth := tabWidth + temp.width;
        assert tabWidth == Sum(w, j, i + 1);
        if temp == active {
          if tabWidth <= headWidth {
            return true;
          }
        }
        temp := temp.next;
        i := i + 1;
      }
    }

    /** The last loop: the first displayed page moves right until the active tab shows. */
    method ScrollToActive()
      requires ListOk() && ActiveOk() && FirstOk() && firstAt <= activeAt
      modifies `firstDisplay, `firstAt
      ensures ListOk() && Widths(pages) == old(Widths(pages))
      ensures var fit := FirstFit(Widths(pages), old(firstAt), activeAt, headWidth);
        if fit.Some? then FirstOk() && firstAt == fit.value else firstDisplay == null
    {
      hide FirstFit, Through;
      ghost var w := Widths(pages);
      var page := firstDisplay;
      while page != null
        invariant old(firstAt) <= firstAt <= |pages|
        invariant page == firstDisplay == if firstAt < |pages| then pages[firstAt] else null
        invariant FirstFit(w, old(firstAt), activeAt, headWidth)
               == if firstAt <= activeAt then FirstFit(w, firstAt, activeAt, headWidth) else None
        decreases |pages| - firstAt
      {
        var fits := ReachesActive(page, firstAt);
        if fits {
          FirstFitNext(w, firstAt, activeAt, headWidth);
          return;
        }
        assert page == pages[firstAt];
        if firstAt <= activeAt {
          FirstFitNext(w, firstAt, activeAt, headWidth);
        }
        firstDisplay := firstDisplay.next;
        firstAt := firstAt + 1;
        page := page.next;
      }
    }

    /** update_propsheet: the least scrolling that shows the active tab; no page at all is
        displayed first when not even the active tab alone fits. */
    method UpdatePropsheet()
      requires ListOk() && ActiveOk() && (firstDisplay == null || FirstOk())
      modifies `overload, `headWidth, `firstDisplay, `firstAt
      ensures ListOk() && Widths(pages) == old(Widths(pages))
      ensures overload == Overloaded(Widths(pages), Limit())
      ensures headWidth == if overload then Limit() else old(headWidth)
      ensures var fit := FirstFit(Widths(pages), if overload then old(Start()) else 0, activeAt, headWidth);
        if fit.Some? then FirstOk() && firstAt == fit.value else firstDisplay == null
    {
      hide FirstFit, Overloaded;
      ghost var start, w := Start(), Widths(pages);
      if firstDisplay == null {
        firstDisplay := head;
        firstAt := 0;
      }
      assert ListOk() && FirstOk() && Widths(pages) == w;
      hide Chain, Widths;
      TestOverload();
      if !overload {
        firstDisplay := head;
        firstAt := 0;
      }
      assert ListOk() && FirstOk() && Widths(pages) == w;
      TestRightOfActive();
      ScrollToActive();
    }

    /** update_propsheet in a run: every tab fits alone, so the invariant is restored and the
        active tab is shown. */
    method Update()
      requires ListOk() && WidthsOk() && ActiveOk() && (firstDisplay == null || FirstOk())
      modifies `overload, `headWidth, `firstDisplay, `firstAt
      ensures Valid() && Shown()
      ensures overload == Overloaded(Widths(pages), Limit())
      ensures headWidth == if overload then Limit() else old(headWidth)
      ensures FirstFit(Widths(pages), if overload then old(Start()) else 0, activeAt, headWidth) == Some(firstAt)
      ensures !overload ==> firstAt == 0
    {
      ghost var start := Start();
      UpdatePropsheet();
      ghost var w := Widths(pages);
      FitsAlone(w, if overload then start else 0, activeAt, headWidth);
      if !overload {
        FitsFromHead(w, activeAt, Limit(), headWidth);
      }
      if |pages| == 1 {
        assert w[0] <= Limit() && Sum(w, 0, 1) == w[0];
      }
    }

    /* ---------- List operations ---------- */

    /** append_page: returns the index of the new page. */
    method AppendPage(newPage: Page) returns (i: int)
      requires ListOk() && newPage !in pages
      modifies `head, `pageCount, `pages, newPage`next, pages`next
      ensures pages == old(pages) + [newPage] && i == |old(pages)|
      ensures ListOk()
    {
      i := 0;
      ghost var s := pages;
      var page := head;
      while page != null && page.next != null
        invariant 0 <= i && (s == [] ==> i == 0 && page == null)
        invariant s != [] ==> i < |s| && page == s[i]
        decreases |s| - i
      {
        i := i + 1;
        page := page.next;
      }
      newPage.next := null;
      if page != null {
        i := i + 1;
        page.next := newPage;
      } else {
        head := newPage;
      }
      pageCount := pageCount + 1;
      pages := pages + [newPage];
      assert forall j {:trigger pages[j].next} :: 0 <= j < |pages| ==> pages[j].next == if j + 1 < |pages| then pages[j + 1] else null;
    }

    /** get_left_page of page `k`. */
    method GetLeftPage(page: Page, ghost k: nat) returns (left: Page?)
      requires ListOk() && k < |pages| && page == pages[k]
      ensures left == if k == 0 then null else pages[k - 1]
    {
      left := head;
      ghost var i := 0;
      if page == left {
        return null;
      }
      while left.next != null
        invariant 0 <= i < k && left == pages[i]
        decreases k - i
      {
        if left.next == page {
          return left;
        }
        left := left.next;
        i := i + 1;
      }
      return null;
    }

    /** get_page. */
    method GetPage(index: int) returns (page: Page?)
      requires ListOk()
      ensures page == if 0 <= index < |pages| then pages[index] else null
    {
      var i := 0;
      page := head;
      while page != null
        invariant 0 <= i <= |pages| && (i <= index || index < 0)
        invariant page == if i < |pages| then pages[i] else null
        decreases |pages| - i
      {
        if i == index {
          return page;
        }
        i := i + 1;
        page := page.next;
      }
      return null;
    }

    /** remove_page of page `k`. */
    method UnlinkPage(rmPage: Page, ghost k: nat)
      requires ListOk() && k < |pages| && rmPage == pages[k]
      modifies `head, `pageCount, `pages, pages`next
      ensures pages == Without(old(pages), k)
      ensures ListOk()
    {
      var page, prev: Page? := head, null;
      ghost var s := pages;
      ghost var i := 0;
      while page != null
        invariant 0 <= i <= k && page == s[i] && prev == (if i == 0 then null else s[i - 1])
        invariant ListOk() && pages == s && head == old(head)
        decreases k - i
      {
        if page == rmPage {
          if prev != null {
            prev.next := rmPage.next;
          } else {
            head := rmPage.next;
          }
          pageCount := pageCount - 1;
          pages := Without(s, k);
          assert forall j {:trigger pages[j].next} :: 0 <= j < |pages| ==> pages[j] == s[if j < k then j else j + 1];
          break;
        }
        prev := page;
        page := page.next;
        i := i + 1;
      }
    }

    /** tab_required_width. */
    function TabRequiredWidth(page: Page): (width: int)
      reads this, page
      ensures width <= Limit()
    {
      var text := if page.title.Some? then page.title.value + 8 else 0;
      var full := text + if page.icon then iconX else 0;
      var least := if full < MIN_TAB_WIDTH then MIN_TAB_WIDTH else full;
      if least >= Limit() then Limit() else least
    }

    /** The text, 8 more, and the icon, but at least 10, and at most what the scroll buttons
        leave. */
    lemma TabWidthExactly(page: Page)
      ensures var width := TabRequiredWidth(page);
        var room := right - sbWidth * 2;
        var full := (if page.title.Some? then page.title.value + 8 else 0) + (if page.icon then iconX else 0);
        && (full < 10 < room ==> width == 10)
        && (10 <= full < room ==> width == full)
        && (full >= room || 10 >= room ==> width == room)
    {
    }

    /** tab_required_width, step by step. */
    method MeasureTab(page: Page) returns (width: int)
      ensures width == TabRequiredWidth(page)
    {
      width := 0;
      if page.title.Some? {
        width := page.title.value + 8;
      }
      if page.icon {
        width := width + iconX;
      }
      if width < MIN_TAB_WIDTH {
        width := MIN_TAB_WIDTH;
      }
      if width >= right - sbWidth * 2 {
        width := right - sbWidth * 2;
      }
    }

    /* ---------- Layouts that do not scroll ---------- */

    /** The natural width of a tab in the compact style. */
    function NaturalWidth(page: Page): (width: int)
      reads page
      ensures width >= MIN_TAB_WIDTH
    {
      var text := if page.title.Some? then page.title.value + 8 else 0;
      var full := text + if page.icon then iconX else 0;
      if full < MIN_TAB_WIDTH then MIN_TAB_WIDTH else full
    }

    lemma NaturalWidthExactly(page: Page)
      ensures var full := (if page.title.Some? then page.title.value + 8 else 0) + (if page.icon then iconX else 0);
        NaturalWidth(page) == if full < 10 then 10 else full
    {
    }

    /** The measuring of one tab in the compact style. */
    method MeasureNatural(page: Page)
      modifies page`width
      ensures page.width == NaturalWidth(page)
    {
      page.width := 0;
      if page.title.Some? {
        page.width := page.title.value + 8;
      }
      if page.icon {
        page.width := page.width + iconX;
      }
      if page.width < MIN_TAB_WIDTH {
        page.width := MIN_TAB_WIDTH;
      }
    }

    ghost function NaturalWidths(): (w: seq<int>)
      reads this, pages
      ensures |w| == |pages| && forall i {:trigger w[i]} :: 0 <= i < |w| ==> w[i] == NaturalWidth(pages[i])
    {
      seq(|pages|, i requires 0 <= i < |pages| reads this, pages => NaturalWidth(pages[i]))
    }

    method Measure() returns (total: int)
      requires ListOk()
      modifies pages`width
      ensures Widths(pages) == old(NaturalWidths()) && total == Sum(Widths(pages), 0, |pages|)
    {
      hide Sum;
      ghost var w := NaturalWidths();
      total := 0;
      SumNone(w);
      var page := head;
      ghost var i := 0;
      while page != null
        invariant 0 <= i <= |pages| && page == if i < |pages| then pages[i] else null
        invariant forall k {:trigger pages[k].width} :: 0 <= k < i ==> pages[k].width == w[k]
        invariant total == Sum(w, 0, i)
        decreases |pages| - i
      {
        assert w[i] == NaturalWidth(page);
        MeasureNatural(page);
        total := total + page.width;
        SumNext(w, i);
        page := page.next;
        i := i + 1;
      }
      assert Widths(pages) == w;
    }

    /** One tab of the shrinking loop. */
    method ShrinkTab(page: Page, step: int)
      modifies page`width
      ensures page.width == Shrunk(old(page.width), step)
    {
      page.width := page.width - step;
      if page.width < MIN_TAB_WIDTH {
        page.width := MIN_TAB_WIDTH;
      }
    }

    /** The shrinking loop of the compact style; the returned width leaves out a last tab that
        was cut. */
    method ShrinkBy(step: int) returns (newWidth: int)
      requires ListOk() && pages != []
      modifies pages`width
      ensures Widths(pages) == CutLast(ShrunkAll(old(Widths(pages)), step), right)
      ensures newWidth == var s := ShrunkAll(old(Widths(pages)), step);
        if Sum(s, 0, |s|) > right then Sum(s, 0, |s| - 1) else Sum(s, 0, |s|)
    {
      hide Shrunk, Sum;
      ghost var w, n := Widths(pages), |pages|;
      ghost var s := ShrunkAll(w, step);
      ghost var c := CutLast(s, right);
      assert forall k {:trigger c[k]} :: 0 <= k < n - 1 ==> c[k] == s[k];
      newWidth := 0;
      SumNext(s, 0);
      var page := head;
      ghost var i := 0;
      while page != null
        invariant 0 <= i <= n && page == if i < n then pages[i] else null
        invariant forall k {:trigger pages[k].width} :: i <= k < n ==> pages[k].width == w[k]
        invariant forall k {:trigger pages[k].width} :: 0 <= k < i ==> pages[k].width == c[k]
        invariant newWidth == if i == n && Sum(s, 0, n) > right then Sum(s, 0, n - 1) else Sum(s, 0, i)
        decreases n - i
      {
        ShrinkTab(page, step);
        assert page.width == s[i];
        SumNext(s, i);
        if page.next == null && newWidth + page.width > right {
          page.width := right - newWidth;
        } else {
          newWidth := newWidth + page.width;
        }
        page := page.next;
        i := i + 1;
      }
      assert Widths(pages) == c;
    }

    method StepOf(total: int) returns (step: int)
      requires pageCount == |pages| > 0 && total > right
      ensures step == ShrinkStep(total, right, |pages|)
    {
      step := (total - right) / pageCount;
      if step == 0 {
        step := 1;
      }
    }

    method Shrink(total: int) returns (newWidth: int)
      requires ListOk() && pages != []
      requires total == Sum(Widths(pages), 0, |pages|) && total > right
      modifies pages`width
      ensures Widths(pages) == CompactWidths(old(Widths(pages)), right)
      ensures newWidth == if CompactCutsLast(old(Widths(pages)), right)
        then Sum(Widths(pages), 0, |pages| - 1) else Sum(Widths(pages), 0, |pages|)
    {
      hide CutLast, ShrunkAll, Chain, Sum, ShrinkStep;
      ghost var w := Widths(pages);
      var step := StepOf(total);
      newWidth := ShrinkBy(step);
      CutFits(ShrunkAll(w, step), right);
    }

    method CompactLayout() returns (total: int)
      requires ListOk() && pages != []
      modifies pages`width
      ensures Widths(pages) == CompactWidths(old(NaturalWidths()), right)
      ensures total == if CompactCutsLast(old(NaturalWidths()), right)
        then Sum(Widths(pages), 0, |pages| - 1) else Sum(Widths(pages), 0, |pages|)
    {
      hide CutLast, ShrunkAll, ShrinkStep;
      total := Measure();
      if total > right {
        total := Shrink(total);
      }
    }

    method SimpleLayout() returns (total: int)
      requires ListOk() && pages != [] && right >= 0
      modifies pages`width
      ensures Widths(pages) == Repeat(EqualWidth(right, |pages|), |pages|)
      ensures total == Sum(Widths(pages), 0, |pages|) <= right
    {
      var width := right * 8 / (pageCount * 10);
      if width < MIN_TAB_WIDTH {
        width := right / pageCount;
      }
      EqualFits(right, pageCount);
      Equalize(width);
      total := width * pageCount;
    }

    method Equalize(width: int)
      requires ListOk()
      modifies pages`width
      ensures Widths(pages) == Repeat(width, |pages|)
    {
      var page := head;
      ghost var i := 0;
      while page != null
        invariant 0 <= i <= |pages| && page == if i < |pages| then pages[i] else null
        invariant forall k {:trigger pages[k].width} :: 0 <= k < i ==> pages[k].width == width
        decreases |pages| - i
      {
        page.width := width;
        page := page.next;
        i := i + 1;
      }
      assert Widths(pages) == Repeat(width, |pages|);
    }

    /** recalc_tab_widths: in both styles the tabs never exceed the head. In the simple style
        head_width is exactly their sum; in the compact style it misses a cut last tab. */
    method RecalcTabWidths(compact: bool)
      requires ListOk() && right >= 0
      modifies `headWidth, pages`width
      ensures pages == [] ==> headWidth == old(headWidth)
      ensures compact ==> Widths(pages) == CompactWidths(old(NaturalWidths()), right)
      ensures !compact && pages != [] ==> Widths(pages) == Repeat(EqualWidth(right, |pages|), |pages|)
      ensures pages != [] ==> Sum(Widths(pages), 0, |pages|) <= right
      ensures pages != [] ==> headWidth == if compact && CompactCutsLast(old(NaturalWidths()), right)
        then Sum(Widths(pages), 0, |pages| - 1) else Sum(Widths(pages), 0, |pages|)
    {
      hide Repeat, EqualWidth, CompactWidths, CompactCutsLast, Chain;
      if pageCount == 0 {
        assert Widths(pages) == [];
        return;
      }
      if compact {
        CompactFits(NaturalWidths(), right);
        headWidth := CompactLayout();
      } else {
        headWidth := SimpleLayout();
      }
    }

    /* ---------- Messages ---------- */

    /** The new page is measured, appended and made active. */
    method PlacePage(page: Page) returns (index: int)
      requires Valid() && page !in pages
      modifies `active, `activeAt, `head, `pageCount, `pages, page`width, page`next, pages`next
      ensures ListOk() && WidthsOk() && ActiveOk() && (firstDisplay == null || FirstOk())
      ensures pages == old(pages) + [page] && index == activeAt == |old(pages)|
      ensures page.width == TabRequiredWidth(page)
    {
      hide Chain;
      page.width := MeasureTab(page);
      active := page;
      index := AppendPage(page);
      activeAt := |pages| - 1;
    }

    /** insert_new_page_normal_style: the new page is the last, active and shown. */
    method InsertNewPage(page: Page) returns (index: int)
      requires Valid() && page !in pages
      modifies this, page, pages`next
      ensures Valid() && Shown()
      ensures pages == old(pages) + [page] && index == activeAt == |old(pages)|
      ensures right == old(right) && page.width == TabRequiredWidth(page)
      ensures page.title == old(page.title) && page.icon == old(page.icon)
    {
      index := PlacePage(page);
      Update();
    }

    /** scroll_tab_right. */
    method ScrollTabRight()
      requires Valid() && pages != []
      modifies this
      ensures Valid() && pages == old(pages) && right == old(right)
      ensures activeAt == if old(activeAt) + 1 < |pages| then old(activeAt) + 1 else old(activeAt)
      ensures activeAt != old(activeAt) ==> Shown()
    {
      if active.next == null {
        return;
      }
      active := active.next;
      activeAt := activeAt + 1;
      Update();
    }

    /** scroll_tab_left. */
    method ScrollTabLeft()
      requires Valid()
      modifies this
      ensures Valid() && pages == old(pages) && right == old(right)
      ensures pages != [] ==> activeAt == if old(activeAt) > 0 then old(activeAt) - 1 else 0
      ensures activeAt != old(activeAt) ==> Shown()
    {
      if active == head {
        return;
      }
      // The list has a page left of the active one, so the fallback of the source to the head
      // is never taken.
      active := GetLeftPage(active, activeAt);
      activeAt := activeAt - 1;
      Update();
    }

    /** PSM_SETACTIVEINDEX: whether another page became active. */
    method ActivateIndex(index: int) returns (ok: bool)
      requires Valid()
      modifies this
      ensures Valid() && pages == old(pages) && right == old(right)
      ensures ok <==> 0 <= index < |pages| && index != old(activeAt)
      ensures if ok then activeAt == index && Shown() else activeAt == old(activeAt)
    {
      var page := GetPage(index);
      if page == null || page == active {
        return false;
      }
      active := page;
      activeAt := index;
      Update();
      return true;
    }

    /** set_page_title_normal_style: a failed allocation or a missing text leaves the page
        without title and its width as it was. */
    method SetPageTitle(page: Page, ghost k: nat, text: Option<nat>, stored: bool) returns (ok: bool)
      requires Valid() && k < |pages| && page == pages[k]
      modifies this, page`title, page`width
      ensures Valid() && pages == old(pages) && right == old(right) && activeAt == old(activeAt)
      ensures ok <==> text.None? || stored
      ensures page.title == if stored then text else None
      ensures text.Some? && stored ==> page.width == TabRequiredWidth(page) && Shown()
      ensures !(text.Some? && stored) ==> page.width == old(page.width)
    {
      if text.None? || !stored {
        page.title := None;
        return text.None?;
      }
      page.title := text;
      page.width := MeasureTab(page);
      Update();
      return true;
    }

    /** The first half of delete_page: both cursors leave page `k`. */
    method LeavePage(page: Page, ghost k: nat)
      requires Valid() && k < |pages| && page == pages[k]
      modifies `active, `firstDisplay, `activeAt, `firstAt
      ensures ListOk() && WidthsOk()
      ensures |pages| == 1 ==> active == null && firstDisplay == null
      ensures |pages| > 1 ==> ActiveOk() && FirstOk() && firstAt <= activeAt && activeAt != k && firstAt != k
      ensures |pages| > 1 ==> activeAt == if old(activeAt) != k then old(activeAt) else if k + 1 < |pages| then k + 1 else k - 1
    {
      ghost var n := |pages|;
      if active == page && firstDisplay == page {
        if page.next != null {
          active, firstDisplay := page.next, page.next;
          activeAt, firstAt := k + 1, k + 1;
        } else {
          var left := GetLeftPage(page, k);
          active, firstDisplay := left, left;
          activeAt, firstAt := if k > 0 then k - 1 else 0, if k > 0 then k - 1 else 0;
        }
      } else if active == page {
        if active.next == null {
          active := GetLeftPage(page, k);
          activeAt := k - 1;
        } else {
          active := active.next;
          activeAt := k + 1;
        }
      } else if firstDisplay == page {
        // The active page is further right, so there is a next page.
        firstDisplay := firstDisplay.next;
        firstAt := k + 1;
      }
    }

    /** The second half: the page is unlinked, and positions behind it move up. */
    method DropPage(page: Page, ghost k: nat)
      requires ListOk() && WidthsOk() && k < |pages| && page == pages[k]
      requires |pages| > 1 ==> ActiveOk() && FirstOk() && activeAt != k && firstAt != k
      modifies `head, `pageCount, `pages, `activeAt, `firstAt, pages`next
      ensures ListOk() && WidthsOk() && pages == Without(old(pages), k)
      ensures pages != [] ==> ActiveOk() && FirstOk()
    {
      hide Chain;
      ghost var s := pages;
      UnlinkPage(page, k);
      activeAt := if activeAt > k then activeAt - 1 else activeAt;
      firstAt := if firstAt > k then firstAt - 1 else firstAt;
      if pages != [] {
        WithoutAt(s, k, activeAt);
        WithoutAt(s, k, firstAt);
      }
      forall i | 0 <= i < |pages|
        ensures pages[i].width <= Limit()
      {
        WithoutAt(s, k, i);
        assert s[if i < k then i else i + 1].width <= Limit();
      }
    }

    /** delete_page: the page right of a removed active page takes over, or the one left of it
        when it was the last; any other active page stays active. */
    method DeletePage(index: int) returns (ok: bool)
      requires Valid()
      modifies this, pages`next
      ensures Valid() && right == old(right)
      ensures ok <==> 0 <= index < |old(pages)|
      ensures !ok ==> pages == old(pages) && activeAt == old(activeAt) && firstAt == old(firstAt)
      ensures ok ==> pages == Without(old(pages), index) && Shown()
      ensures ok && index != old(activeAt) ==> active == old(active)
      ensures ok && index == old(activeAt) ==>
        active == if index + 1 < |old(pages)| then old(pages)[index + 1] else if index > 0 then old(pages)[index - 1] else null
    {
      var page := GetPage(index);
      if page == null {
        return false;
      }
      LeavePage(page, index);
      DropPage(page, index);
      if head != null {
        Update();
      }
      return true;
    }

    /** The loop of click_tab_bar over the displayed tabs: the tab under `x`, other than the
        active one. */
    method HitTab(x: int, left: int) returns (page: Page?, ghost j: nat)
      requires Valid()
      ensures page != null ==>
        && pages != [] && firstAt <= j < |pages| && page == pages[j] && j != activeAt
        && left + Sum(Widths(pages), firstAt, j) <= x < left + Through(Widths(pages), firstAt, j)
      ensures pages != [] ==> forall i :: firstAt <= i < (if page != null then j else |pages|) && i != activeAt ==>
        !(left + Sum(Widths(pages), firstAt, i) <= x < left + Through(Widths(pages), firstAt, i))
    {
      ghost var w := Widths(pages);
      page := firstDisplay;
      j := if pages == [] then 0 else firstAt;
      var r := left;
      while page != null
        invariant pages == [] ==> page == null
        invariant pages != [] ==> firstAt <= j <= |pages| && page == if j < |pages| then pages[j] else null
        invariant pages != [] ==> r == left + Sum(w, firstAt, j)
        invariant pages != [] ==> forall i :: firstAt <= i < j && i != activeAt ==>
          !(left + Sum(w, firstAt, i) <= x < left + Through(w, firstAt, i))
        decreases |pages| - j
      {
        var l := r;
        r := l + page.width;
        assert r == left + Through(w, firstAt, j);
        if l <= x < r && page != active {
          return;
        }
        page := page.next;
        j := j + 1;
      }
    }

    /** A click at `x` has gone to the leftmost displayed tab under it other than the one that
        was active at `before`, or to none; the tabs are drawn from `left` on. */
    ghost predicate TabClicked(x: int, left: int, before: nat)
      reads this, pages
    {
      pages == []
      || (firstAt < |pages| && activeAt < |pages|
          && (activeAt != before ==>
                (firstAt <= activeAt
                && left + Sum(Widths(pages), firstAt, activeAt) <= x < left + Through(Widths(pages), firstAt, activeAt)))
          && (forall i :: firstAt <= i < (if activeAt != before then activeAt else |pages|) && i != before ==>
            !(left + Sum(Widths(pages), firstAt, i) <= x < left + Through(Widths(pages), firstAt, i))))
    }

    /** click_tab_bar: the scroll buttons of an overloaded sheet, else the tab under `x`. The
        first displayed page stays when a tab is clicked. */
    method ClickTabBar(x: int, inBar: bool)
      requires Valid()
      modifies this
      ensures Valid() && pages == old(pages) && right == old(right)
      ensures !inBar ==> activeAt == old(activeAt) && firstAt == old(firstAt)
      ensures old(overload) && inBar && 0 <= x < sbWidth ==> activeAt == if old(activeAt) > 0 then old(activeAt) - 1 else 0
      ensures old(overload) && inBar && !(0 <= x < sbWidth) && right - sbWidth <= x < right ==>
        activeAt == if old(activeAt) + 1 < |pages| then old(activeAt) + 1 else old(activeAt)
      ensures inBar && !(old(overload) && (0 <= x < sbWidth || right - sbWidth <= x < right)) ==>
        && firstAt == old(firstAt) && overload == old(overload) && headWidth == old(headWidth)
        && TabClicked(x, if old(overload) then sbWidth else 0, old(activeAt))
    {
      var left := if overload then sbWidth else 0;
      if overload && inBar {
        if 0 <= x < sbWidth {
          ScrollTabLeft();
          return;
        }
        if right - sbWidth <= x < right {
          ScrollTabRight();
          return;
        }
      }
      if inBar {
        ClickTab(x, left);
      }
    }

    /** The tab under the click becomes active, and no other. */
    method ClickTab(x: int, left: int)
      requires Valid()
      modifies `active, `activeAt
      ensures Valid() && TabClicked(x, left, old(activeAt))
    {
      hide Sum, Through, Chain;
      ghost var j: nat;
      var page;
      page, j := HitTab(x, left);
      if page != null {
        active := page;
        activeAt := j;
      }
    }

    /** MSG_SIZECHANGED of a scrollable sheet. */
    method SizeChanged(newRight: int)
      requires Valid() && right <= newRight
      modifies `right, `headWidth
      ensures Valid() && right == headWidth == newRight
    {
      right := newRight;
      headWidth := newRight;
    }

    /** add_new_page_normal_style. */
    method AddNewPage(title: Option<nat>, icon: bool, created: bool)
      requires Valid()
      modifies this, pages`next
      ensures Valid() && right == old(right)
      ensures if created then
          && |pages| == |old(pages)| + 1 && pages[..|old(pages)|] == old(pages)
          && activeAt == |old(pages)| && Shown() && fresh(pages[activeAt])
          && pages[activeAt].title == title && pages[activeAt].icon == icon
          && pages[activeAt].width == TabRequiredWidth(pages[activeAt])
        else pages == old(pages) && activeAt == old(activeAt) && firstAt == old(firstAt)
    {
      if created {
        var page := new Page(title, icon);
        var index := InsertNewPage(page);
      }
    }

    /** PSM_SETTITLE. */
    method SetTitleAt(index: int, text: Option<nat>, stored: bool)
      requires Valid()
      modifies this, pages`title, pages`width
      ensures Valid() && pages == old(pages) && right == old(right) && activeAt == old(activeAt)
      ensures 0 <= index < |pages| ==>
        && pages[index].title == (if stored then text else None)
        && (text.Some? && stored ==> Shown() && pages[index].width == TabRequiredWidth(pages[index]))
    {
      var page := GetPage(index);
      if page != null {
        var ok := SetPageTitle(page, index, text, stored);
      }
    }

    lemma HeadOrNone()
      requires Valid()
      ensures head == null <==> pages == []
    {
    }

    /** The window procedure of a scrollable sheet: every message keeps the invariant. */
    method ControlProc(m: Message)
      requires Valid() && (m.Resize? ==> right <= m.newRight)
      modifies this, pages
      ensures Valid() && right == if m.Resize? then m.newRight else old(right)
      ensures forall i :: 0 <= i < |pages| ==> pages[i] in old(pages) || fresh(pages[i])
      ensures !m.AddPage? && !m.RemovePage? ==> pages == old(pages)
      ensures m.AddPage? ==>
        if m.created then
          && |pages| == |old(pages)| + 1 && pages[..|old(pages)|] == old(pages)
          && activeAt == |old(pages)| && Shown() && fresh(pages[activeAt])
          && pages[activeAt].title == m.title && pages[activeAt].icon == m.icon
          && pages[activeAt].width == TabRequiredWidth(pages[activeAt])
        else pages == old(pages) && activeAt == old(activeAt) && firstAt == old(firstAt)
      ensures m.RemovePage? ==>
        if 0 <= m.index < |old(pages)| then
          && pages == Without(old(pages), m.index) && Shown()
          && (m.index != old(activeAt) ==> active == old(active))
          && (m.index == old(activeAt) ==>
            active == if m.index + 1 < |old(pages)| then old(pages)[m.index + 1]
                      else if m.index > 0 then old(pages)[m.index - 1] else null)
        else pages == old(pages) && activeAt == old(activeAt) && firstAt == old(firstAt)
      ensures m.SetTitle? ==> activeAt == old(activeAt)
      ensures m.SetTitle? && 0 <= m.index < |pages| ==>
        && pages[m.index].title == (if m.stored then m.text else None)
        && (m.text.Some? && m.stored ==> Shown() && pages[m.index].width == TabRequiredWidth(pages[m.index]))
      ensures m.SetActiveIndex? ==> activeAt == if 0 <= m.index < |pages| then m.index else old(activeAt)
      ensures m.Click? ==>
        if !m.inBar then activeAt == old(activeAt) && firstAt == old(firstAt)
        else if old(overload) && 0 <= m.x < sbWidth then activeAt == if old(activeAt) > 0 then old(activeAt) - 1 else 0
        else if old(overload) && right - sbWidth <= m.x < right then
          activeAt == if old(activeAt) + 1 < |pages| then old(activeAt) + 1 else old(activeAt)
        else firstAt == old(firstAt) && TabClicked(m.x, if old(overload) then sbWidth else 0, old(activeAt))
      ensures m.ScrollRight? ==> activeAt == if old(activeAt) + 1 < |pages| then old(activeAt) + 1 else old(activeAt)
      ensures m.ScrollLeft? && pages != [] ==> activeAt == if old(activeAt) > 0 then old(activeAt) - 1 else 0
      ensures m.Resize? ==> headWidth == right && activeAt == old(activeAt) && firstAt == old(firstAt)
    {
      hide Valid, Shown, TabClicked, TabRequiredWidth;
      HeadOrNone();
      match m
      case AddPage(title, icon, created) =>
        AddNewPage(title, icon, created);
      case RemovePage(index) =>
        var ok := DeletePage(index);
      case SetTitle(index, text, stored) =>
        SetTitleAt(index, text, stored);
      case SetActiveIndex(index) =>
        var ok := ActivateIndex(index);
      case Click(x, inBar) =>
        ClickTabBar(x, inBar);
      case ScrollRight =>
        if head != null {
          ScrollTabRight();
        }
      case ScrollLeft =>
        if head != null {
          ScrollTabLeft();
        }
      case Resize(newRight) =>
        SizeChanged(newRight);
    }

    /** Any run of messages in which the sheet never shrinks. */
    method Run(msgs: seq<Message>)
      requires Valid() && Growing(msgs, right)
      modifies this, pages
      ensures Valid()
    {
      var i := 0;
      while i < |msgs|
        invariant 0 <= i <= |msgs| && Valid() && Growing(msgs[i..], right)
        invariant forall k :: 0 <= k < |pages| ==> pages[k] in old(pages) || fresh(pages[k])
      {
        assert msgs[i..][0] == msgs[i] && msgs[i..][1..] == msgs[i + 1..];
        ControlProc(msgs[i]);
        i := i + 1;
      }
    }
  }
}
