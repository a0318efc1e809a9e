/** The paged grid: page counts, which filtered entry each grid slot shows,
    which entry a click selects, page navigation targets, the grid shape chosen
    from the monitor geometry, and what a slot displays. */
module Pager {
  import opened Text
  import opened Menu

  // ---------------------------------------------------------------------
  // Page count

  /** The number of pages needed for `n` entries on a `rows` x `cols` grid. */
  function TotalPages(n: nat, rows: int, cols: int): (pages: nat)
    requires rows > 0 && cols > 0
    ensures pages == 0 <==> n == 0
    ensures n > 0 ==> (pages - 1) * (rows * cols) < n <= pages * (rows * cols)
  {
    var size := rows * cols;
    var q, m := n / size, n % size;
    assert n == q * size + m && 0 <= m < size;
    var pages := q + (if m > 0 then 1 else 0);
    assert pages * size == q * size + (if m > 0 then size else 0);
    assert (pages - 1) * size == pages * size - size;
    pages
  }

  /** Ceiling division pins the page count down: it is the least page count
      whose pages hold all `n` entries. */
  lemma TotalPagesIsLeast(n: nat, rows: int, cols: int, p: nat)
    requires rows > 0 && cols > 0
    requires n <= p * (rows * cols)
    ensures TotalPages(n, rows, cols) <= p
  {
    var t := TotalPages(n, rows, cols);
    var size := rows * cols;
    MulMonotone(p, t as int - 1, size);
  }

  lemma MulMonotone(a: int, b: int, c: int)
    ensures a <= b && c >= 0 ==> a * c <= b * c
  {
  }

  /** The launcher multiplies the page by the column count first. */
  lemma MulSwap(a: int, b: int, c: int)
    ensures a * c * b == a * b * c
  {
  }

  /** Fewer entries never need more pages. */
  lemma TotalPagesMonotone(n: nat, m: nat, rows: int, cols: int)
    requires rows > 0 && cols > 0 && n <= m
    ensures TotalPages(n, rows, cols) <= TotalPages(m, rows, cols)
  {
    if n > 0 {
      TotalPagesIsLeast(n, rows, cols, TotalPages(m, rows, cols));
    }
  }

  /** How many entries page `p` shows when `n` entries fill pages of `size`. */
  function PageFill(n: nat, size: nat, p: nat): nat
  {
    if n <= p * size then 0 else if n - p * size < size then n - p * size else size
  }

  function FilledUpTo(n: nat, size: nat, k: nat): nat
  {
    if k == 0 then 0 else FilledUpTo(n, size, k - 1) + PageFill(n, size, k - 1)
  }

  lemma {:induction false} FilledUpToIsMin(n: nat, size: nat, k: nat)
    ensures FilledUpTo(n, size, k) == if n <= k * size then n else k * size
  {
    if k > 0 {
      FilledUpToIsMin(n, size, k - 1);
      assert k * size == (k - 1) * size + size;
    }
  }

  /** The pages together show every entry exactly once over. */
  lemma PagesHoldAll(n: nat, rows: int, cols: int)
    requires rows > 0 && cols > 0
    ensures FilledUpTo(n, rows * cols, TotalPages(n, rows, cols)) == n
  {
    FilledUpToIsMin(n, rows * cols, TotalPages(n, rows, cols));
  }

  /** On a 2 x 2 grid four entries fill one page and five take two. */
  lemma FiveEntriesOnTwoByTwo()
    ensures TotalPages(4, 2, 2) == 1
    ensures TotalPages(5, 2, 2) == 2
  {
    assert 2 * 2 == 4;
    assert 4 / 4 == 1 && 4 % 4 == 0;
    assert 5 / 4 == 1 && 5 % 4 == 1;
  }

  // ---------------------------------------------------------------------
  // Slots

  /** The entry that slot `k` (counted row by row) shows on page `active`, or
      None for a blank slot past the end of the list. */
  function SlotEntry(filtered: seq<Entry>, active: nat, rows: nat, cols: nat, k: nat): (r: Option<Entry>)
    ensures r.Some? <==> active * rows * cols + k < |filtered|
    ensures r.Some? ==> r.value == filtered[active * rows * cols + k]
  {
    var i := active * rows * cols + k;
    if i < |filtered| then Some(filtered[i]) else None
  }

  lemma SlotPosition(rows: nat, cols: nat, r: nat, c: nat)
    requires r < rows && c < cols
    ensures 0 <= r * cols + c < rows * cols
    ensures (r * cols + c) / cols == r && (r * cols + c) % cols == c
  {
    assert r * cols + c < r * cols + cols == (r + 1) * cols;
    MulMonotone(r + 1, rows, cols);
    DivModUnique(r * cols + c, cols, r, c);
  }

  /** Division with remainder has one answer. */
  lemma DivModUnique(k: int, d: int, q: int, m: int)
    requires d > 0 && 0 <= m < d && k == q * d + m
    ensures k / d == q && k % d == m
  {
    var q', m' := k / d, k % d;
    assert k == q' * d + m' && 0 <= m' < d;
    MulMonotone(q + 1, q', d);
    MulMonotone(q' + 1, q, d);
  }

  /** Row `r` of the grid ends where row `r + 1` starts, inside the grid. */
  lemma RowFits(rows: nat, cols: nat, r: nat)
    requires r < rows
    ensures (r + 1) * cols == r * cols + cols <= rows * cols
  {
    MulMonotone(r + 1, rows, cols);
  }

  /** Row `r`, column `c` of page `active` shows entry `active*R*C + r*C + c`
      of the filtered list, or is blank when there is no such entry; distinct
      cells show distinct entries. */
  lemma CellShows(filtered: seq<Entry>, active: nat, rows: nat, cols: nat, r: nat, c: nat)
    requires r < rows && c < cols
    ensures var k := r * cols + c;
            k < rows * cols
            && SlotEntry(filtered, active, rows, cols, k)
               == if active * rows * cols + r * cols + c < |filtered|
                  then Some(filtered[active * rows * cols + r * cols + c]) else None
  {
    SlotPosition(rows, cols, r, c);
  }

  lemma CellsDistinct(rows: nat, cols: nat, r: nat, c: nat, r': nat, c': nat)
    requires r < rows && c < cols && r' < rows && c' < cols
    requires r * cols + c == r' * cols + c'
    ensures r == r' && c == c'
  {
    SlotPosition(rows, cols, r, c);
    SlotPosition(rows, cols, r', c');
  }

  /** A full page shows exactly the slice of the list that starts at the page. */
  lemma FullPageShowsSlice(filtered: seq<Entry>, active: nat, rows: nat, cols: nat, k: nat)
    requires k < rows * cols
    requires (active + 1) * (rows * cols) <= |filtered|
    ensures SlotEntry(filtered, active, rows, cols, k) == Some(filtered[active * (rows * cols) + k])
  {
    assert active * rows * cols == active * (rows * cols);
  }

  /** When the list fits one page but the active page is a later one, every
      slot of that page is blank. */
  lemma StalePageIsBlank(filtered: seq<Entry>, active: nat, rows: nat, cols: nat, k: nat)
    requires rows > 0 && cols > 0
    requires active >= 1 && TotalPages(|filtered|, rows, cols) <= 1
    ensures SlotEntry(filtered, active, rows, cols, k).None?
  {
    assert |filtered| <= rows * cols;
    MulMonotone(1, active, rows * cols);
    assert active * rows * cols == active * (rows * cols);
  }

  /** The entry a click on slot `index` selects, or None when it selects nothing. */
  function ClickTarget(filtered: seq<Entry>, active: nat, rows: nat, cols: nat, index: int): (r: Option<Entry>)
    ensures r.Some? ==> 0 <= index && r.value in filtered
    ensures index < 0 ==> r.None?
  {
    if index < 0 then None
    else
      var pos := index + active * rows * cols;
      if pos < |filtered| then Some(filtered[pos]) else None
  }

  /** A click selects exactly the entry its slot shows. */
  lemma ClickSelectsShownEntry(filtered: seq<Entry>, active: nat, rows: nat, cols: nat, index: int)
    requires 0 <= index
    ensures ClickTarget(filtered, active, rows, cols, index) == SlotEntry(filtered, active, rows, cols, index)
    ensures index < rows * cols && |filtered| <= rows * cols && active >= 1
            ==> ClickTarget(filtered, active, rows, cols, index).None?
  {
    if index < rows * cols && |filtered| <= rows * cols && active >= 1 {
      MulMonotone(1, active, rows * cols);
      assert active * rows * cols == active * (rows * cols);
    }
  }

  // ---------------------------------------------------------------------
  // Navigation

  /** The page that "page left" activates: the previous one, or none at page 0. */
  function PageLeftTarget(active: int): (r: Option<int>)
    ensures r.Some? <==> active >= 1
    ensures r.Some? ==> r.value == active - 1 && r.value >= 0
  {
    if active >= 1 then Some(active - 1) else None
  }

  /** The page that "page right" activates: the next one, or none on the last page. */
  function PageRightTarget(active: int, total: int): (r: Option<int>)
    ensures r.Some? <==> active + 1 < total
    ensures r.Some? ==> r.value == active + 1 && r.value < total
  {
    if active + 1 < total then Some(active + 1) else None
  }

  /** From any page of a list of `total` pages, navigation stays on a page of
      that list, and going right then left comes back to where it started. */
  lemma NavigationStaysInRange(active: int, total: int)
    requires 0 <= active < total
    ensures PageRightTarget(active, total).Some? ==> 0 <= PageRightTarget(active, total).value < total
    ensures PageLeftTarget(active).Some? ==> 0 <= PageLeftTarget(active).value < total
    ensures PageRightTarget(active, total).Some?
            ==> PageLeftTarget(PageRightTarget(active, total).value) == Some(active)
    ensures PageLeftTarget(active).Some?
            ==> PageRightTarget(PageLeftTarget(active).value, total) == Some(active)
  {
  }

  /** The arrow keys page only on an edge column: Left on the first column,
      Right on the last. */
  predicate LeftKeyPages(index: nat, cols: nat)
    requires cols > 0
  {
    index % cols == 0
  }

  predicate RightKeyPages(index: nat, cols: nat)
    requires cols > 0
  {
    index % cols == cols - 1
  }

  lemma ArrowKeysPageOnEdges(rows: nat, cols: nat, r: nat, c: nat)
    requires r < rows && c < cols
    ensures LeftKeyPages(r * cols + c, cols) <==> c == 0
    ensures RightKeyPages(r * cols + c, cols) <==> c == cols - 1
  {
    SlotPosition(rows, cols, r, c);
  }

  // ---------------------------------------------------------------------
  // Grid shape

  datatype Geometry = Geometry(rows: int, cols: int, itemWidth: int, itemHeight: int)

  /** The grid chosen from the primary monitor: 4 x 4 when the integer ratio
      width/height is below 1.4, otherwise 3 rows of 6; each item takes half of
      its share of the monitor in each direction. */
  function GridGeometry(width: int, height: int): (g: Geometry)
    requires width > 0 && height > 0
    ensures (g.rows == 4 && g.cols == 4) <==> width < 2 * height
    ensures (g.rows == 3 && g.cols == 6) <==> width >= 2 * height
    ensures g.rows > 0 && g.cols > 0
    ensures g.itemWidth * (g.cols * 2) <= width < (g.itemWidth + 1) * (g.cols * 2)
    ensures g.itemHeight * (g.rows * 2) <= height < (g.itemHeight + 1) * (g.rows * 2)
  {
    var ratio := width / height;
    assert ratio <= 1 <==> width < 2 * height;
    var rows, cols := if (ratio as real) < 1.4 then 4 else 3, if (ratio as real) < 1.4 then 4 else 6;
    Geometry(rows, cols, width / (cols * 2), height / (rows * 2))
  }

  /** An ordinary 1920 x 1080 monitor gets the 4 x 4 grid; only a monitor at
      least twice as wide as high gets 3 x 6. */
  lemma GridExamples()
    ensures GridGeometry(1920, 1080).rows == 4 && GridGeometry(1920, 1080).cols == 4
    ensures GridGeometry(2560, 1080).rows == 3 && GridGeometry(2560, 1080).cols == 6
    ensures GridGeometry(1920, 1080).itemWidth == 240 && GridGeometry(1920, 1080).itemHeight == 135
  {
  }

  // ---------------------------------------------------------------------
  // What a slot displays

  /** The state of one grid button: whether it reacts, its icon, caption and tooltip. */
  datatype Slot = Slot(sensitive: bool, icon: Option<string>, caption: string, tooltip: string)

  /** A blank, insensitive slot. */
  const Blank := Slot(false, None, "", "")

  /** The tooltip is the name, followed by ":", a newline and the description
      when there is a non-empty one. */
  function Tooltip(name: string, description: Option<string>): (t: string)
    ensures name <= t
    ensures t == name <==> description.None? || description.value == ""
    ensures t != name ==> t[|name|..] == ":\n" + description.value
  {
    if description.None? || description.value == "" then name
    else name + ":\n" + description.value
  }

  /** What a slot displays after a refresh, given what it showed before and the
      entry it is to show: a blank slot past the end of the list; an insensitive
      slot that keeps its old picture for an entry without application info; the
      application's icon, name and tooltip otherwise. */
  function RenderSlot(previous: Slot, shown: Option<Entry>): (s: Slot)
    ensures s.sensitive <==> shown.Some? && shown.value.info.Some?
    ensures shown.None? ==> s == Blank
    ensures shown.Some? && shown.value.info.None? ==> s == previous.(sensitive := false)
    ensures shown.Some? && shown.value.info.Some? ==> s.caption == shown.value.info.value.name && shown.value.info.value.name <= s.tooltip
    ensures shown.Some? && shown.value.info.Some? ==>
              s.icon == shown.value.info.value.icon
              && s.tooltip == Tooltip(shown.value.info.value.name, shown.value.info.value.description)
  {
    match shown
    case None => Blank
    case Some(e) =>
      match e.info
      case None => previous.(sensitive := false)
      case Some(info) => Slot(true, info.icon, info.name, Tooltip(info.name, info.description))
  }
}
