/** The launcher window: the catalog built at start-up, the filtered list the
    grid pages through, the grid of application buttons, the page indicator,
    and the handlers that search, page, click and debounce the search entry. */
module LauncherWindow {
  import opened Text
  import opened Menu
  import opened Catalog
  import opened Filtering
  import opened Pager
  import opened Launch
  import opened IndicatorState

  /** A freshly created grid button: it reacts, and shows nothing yet. */
  const NewButton := Slot(true, None, "", "")

  /** What the grid buttons show on page `active` after a refresh, given what
      they showed before. */
  function GridContents(prev: seq<Slot>, filtered: seq<Entry>, active: nat, rows: nat, cols: nat): (g: seq<Slot>)
    ensures |g| == |prev|
    ensures forall k :: 0 <= k < |g| ==> g[k] == RenderSlot(prev[k], SlotEntry(filtered, active, rows, cols, k))
  {
    seq(|prev|, k requires 0 <= k < |prev| => RenderSlot(prev[k], SlotEntry(filtered, active, rows, cols, k)))
  }

  /** With nothing to show every button is blank, whatever the page. */
  lemma EmptyListBlanksGrid(prev: seq<Slot>, active: nat, rows: nat, cols: nat)
    ensures GridContents(prev, [], active, rows, cols) == seq(|prev|, _ => Blank)
  {
  }

  /** The page buttons after the refresh: the first `n` shown, the rest hidden. */
  function ShowPagesUpTo(children: seq<PageButton>, n: int): (r: seq<PageButton>)
    ensures |r| == |children|
    ensures forall q :: 0 <= q < |r| ==> r[q] == children[q].(visible := q + 1 <= n)
  {
    seq(|children|, q requires 0 <= q < |children| => children[q].(visible := q + 1 <= n))
  }

  /** The indicator's visibility and page buttons after a refresh for `n`
      filtered entries: untouched when there are none; otherwise the indicator is
      shown exactly when there is more than one page, and then as many buttons as
      there are pages are shown. */
  function RefreshedPages(shown: bool, children: seq<PageButton>, n: nat, rows: int, cols: int): (r: (bool, seq<PageButton>))
    requires rows > 0 && cols > 0
    ensures |r.1| == |children|
    ensures r.0 ==> n > 0 || shown
  {
    if n == 0 then (shown, children)
    else if TotalPages(n, rows, cols) > 1 then (true, ShowPagesUpTo(children, TotalPages(n, rows, cols)))
    else (false, children)
  }

  /** After a refresh for a non-empty list the indicator is shown iff the list
      spans several pages; then page button `p` (counted from 1) is shown iff
      `p` is at most the page count; no button is added or removed. */
  lemma RefreshedPagesVisibility(shown: bool, children: seq<PageButton>, n: nat, rows: int, cols: int)
    requires rows > 0 && cols > 0
    ensures |RefreshedPages(shown, children, n, rows, cols).1| == |children|
    ensures n == 0 ==> RefreshedPages(shown, children, n, rows, cols) == (shown, children)
    ensures n > 0 ==> (RefreshedPages(shown, children, n, rows, cols).0 <==> TotalPages(n, rows, cols) > 1)
    ensures n > 0 && TotalPages(n, rows, cols) > 1 ==>
              forall q :: 0 <= q < |children| ==>
                (RefreshedPages(shown, children, n, rows, cols).1[q].visible <==> q + 1 <= TotalPages(n, rows, cols))
  {
  }

  /** A filtered list that is a subsequence of the catalog never needs more
      pages than the catalog, so a page of the filtered list is always a page
      the indicator has a button for. */
  lemma FilteredPagesWithinCatalog(filtered: seq<Entry>, apps: seq<Entry>, rows: int, cols: int)
    requires rows > 0 && cols > 0
    requires IsSubseq(filtered, apps)
    ensures TotalPages(|filtered|, rows, cols) <= TotalPages(|apps|, rows, cols)
  {
    SubseqLength(filtered, apps);
    TotalPagesMonotone(|filtered|, |apps|, rows, cols);
  }

  /** A search that leaves at most one page while a later page is active
      refreshes the grid to blank buttons only. */
  lemma StaleSearchShowsNothing(prev: seq<Slot>, apps: seq<Entry>, query: string, active: nat, rows: nat, cols: nat)
    requires rows > 0 && cols > 0
    requires active >= 1 && TotalPages(|SearchResult(apps, query)|, rows, cols) <= 1
    ensures forall k :: 0 <= k < |prev| ==> GridContents(prev, SearchResult(apps, query), active, rows, cols)[k] == Blank
  {
    forall k | 0 <= k < |prev|
      ensures GridContents(prev, SearchResult(apps, query), active, rows, cols)[k] == Blank
    {
      StalePageIsBlank(SearchResult(apps, query), active, rows, cols, k);
    }
  }

  /** The grid at start-up shows the de-duplicated catalog from its first
      entry: button `r*C + c` shows entry `r*C + c` (by its picture when it has
      application info) and every button past the end is blank. */
  lemma FirstPageShowsCatalogStart(apps: seq<Entry>, rows: nat, cols: nat, k: nat)
    requires k < rows * cols
    ensures var g := GridContents(seq(rows * cols, _ => NewButton), Dedup(apps), 0, rows, cols);
            (k < |Dedup(apps)| ==> g[k] == RenderSlot(NewButton, Some(Dedup(apps)[k])))
            && (k >= |Dedup(apps)| ==> g[k] == Blank)
  {
  }

  /** The scroll directions a pointer can report. */
  datatype ScrollDirection = ScrollUp | ScrollDown | ScrollLeft | ScrollRight | ScrollSmooth

  /** The keys the window tells apart; every other key is `OtherKey`. */
  datatype Key = Escape | LeftArrow | RightArrow | OtherKey(code: int)

  /** The page an arrow key moves to, if any: Left on a focused button of the
      first column goes one page back, Right on a focused button of the last
      column one page forward. */
  function KeyPageTarget(key: Key, focus: Option<nat>, cols: nat, active: int, total: int): (t: Option<int>)
    requires cols > 0
    ensures t.Some? ==> focus.Some? && (key.LeftArrow? || key.RightArrow?)
    ensures key.LeftArrow? && focus.Some? && focus.value % cols == 0 ==> t == PageLeftTarget(active)
    ensures key.RightArrow? && focus.Some? && focus.value % cols == cols - 1 ==> t == PageRightTarget(active, total)
    ensures key.LeftArrow? && focus.Some? && focus.value % cols != 0 ==> t.None?
    ensures key.RightArrow? && focus.Some? && focus.value % cols != cols - 1 ==> t.None?
  {
    match key
    case LeftArrow => if focus.Some? && LeftKeyPages(focus.value, cols) then PageLeftTarget(active) else None
    case RightArrow => if focus.Some? && RightKeyPages(focus.value, cols) then PageRightTarget(active, total) else None
    case _ => None
  }

  /** An arrow key on the button in row `r`, column `c` pages only from the
      edge columns and only to a neighbouring page of the list. */
  lemma ArrowKeyTargets(key: Key, rows: nat, cols: nat, r: nat, c: nat, active: int, total: int)
    requires r < rows && c < cols && 0 <= active < total
    ensures var t := KeyPageTarget(key, Some(r * cols + c), cols, active, total);
            t.Some? ==> 0 <= t.value < total && (t.value == active - 1 || t.value == active + 1)
    ensures KeyPageTarget(key, Some(r * cols + c), cols, active, total).Some? && key.LeftArrow? ==> c == 0
    ensures KeyPageTarget(key, Some(r * cols + c), cols, active, total).Some? && key.RightArrow? ==> c == cols - 1
  {
    ArrowKeysPageOnEdges(rows, cols, r, c);
  }

  class Window {
    /** Every application of the menu, blacklisted ones removed, duplicates kept. */
    const apps: seq<Entry>
    /** The entries the grid pages through. */
    var filtered: seq<Entry>
    /** The grid shape: `rows` rows of `cols` buttons. */
    const rows: nat
    const cols: nat
    const itemWidth: int
    const itemHeight: int
    /** The text of the last search, None until the first one. */
    var filterText: Option<string>
    /** The id of the pending search, 0 when none is pending. */
    var idleId: nat
    /** The grid buttons, row by row. */
    const slots: array<Slot>
    const pages: Indicator
    /** Whether "child-activate" of the indicator refreshes the grid; this is
        connected at start-up only when the catalog spans several pages. */
    const activateConnected: bool

    ghost predicate Valid()
      reads this, pages
    {
      rows > 0 && cols > 0 && slots.Length == rows * cols
      && pages.Valid()
      && activateConnected == (TotalPages(|apps|, rows, cols) > 1)
      && |pages.children| == (if activateConnected then TotalPages(|apps|, rows, cols) else 0)
      && IsSubseq(filtered, apps) && NoDuplicateIds(filtered)
    }

    /** The grid and the indicator show page `pages.active` of `filtered`,
        refreshed from the given earlier state. */
    ghost predicate GridShows(prevSlots: seq<Slot>, prevShown: bool, prevChildren: seq<PageButton>)
      requires Valid()
      reads this, pages, slots
    {
      |prevSlots| == slots.Length
      && slots[..] == GridContents(prevSlots, filtered, pages.active, rows, cols)
      && (pages.shown, pages.children) == RefreshedPages(prevShown, prevChildren, |filtered|, rows, cols)
    }

    /** The outcome of a page change to `target`: nothing changes when there is
        none; otherwise that page becomes active, "child-activate" fires once
        and the grid is refreshed. */
    ghost predicate MovedTo(target: Option<int>, prevActive: int, prevSlots: seq<Slot>, prevShown: bool,
                            prevChildren: seq<PageButton>, prevActivations: nat)
      requires Valid()
      reads this, pages, slots
    {
      match target
      case None =>
        pages.active == prevActive && slots[..] == prevSlots && pages.shown == prevShown
        && pages.children == prevChildren && pages.activations == prevActivations
      case Some(t) =>
        pages.active == t && pages.activations == prevActivations + 1
        && GridShows(prevSlots, prevShown, prevChildren)
    }

    /** Start-up: resolve the blacklist against the installed applications,
        flatten the menu, de-duplicate it, choose the grid from the monitor, and
        set up the indicator with one button per page of the catalog when there
        are several pages. */
    constructor (menu: Option<Directory>, configured: seq<string>, installed: seq<AppInfo>, width: int, height: int)
      requires width > 0 && height > 0
      ensures Valid()
      ensures apps == AllApplications(menu, ResolvedBlacklist(configured, installed))
      ensures filtered == Dedup(apps)
      ensures var g := GridGeometry(width, height);
              rows == g.rows && cols == g.cols && itemWidth == g.itemWidth && itemHeight == g.itemHeight
      ensures filterText.None? && idleId == 0
      ensures fresh(pages) && fresh(slots)
      ensures pages.active == 0
      ensures pages.activations == (if activateConnected then 1 else 0)
      ensures slots[..] == GridContents(seq(rows * cols, _ => NewButton), filtered, 0, rows, cols)
      ensures (pages.shown, pages.children)
              == RefreshedPages(activateConnected, seq(|pages.children|, _ => PageButton(true)), |filtered|, rows, cols)
    {
      var blacklist := ResolveBlacklist(configured, installed);
      var all := GetAllApplications(menu, blacklist);
      var unique := DedupEntries(all);
      DedupSubseq(all);
      DedupUnique(all);
      var g := GridGeometry(width, height);
      var total := TotalPages(|all|, g.rows, g.cols);
      MulMonotone(1, g.rows, g.cols);
      var indicator := NewIndicator(total);
      apps := all;
      filtered := unique;
      rows := g.rows;
      cols := g.cols;
      itemWidth := g.itemWidth;
      itemHeight := g.itemHeight;
      filterText := None;
      idleId := 0;
      slots := new Slot[g.rows * g.cols](_ => NewButton);
      pages := indicator;
      activateConnected := total > 1;
      new;
      assert slots[..] == seq(rows * cols, _ => NewButton);
      if total > 1 {
        pages.SetActive(0);
        ChildActivated();
      } else {
        UpdateGrid();
        FilteredPagesWithinCatalog(filtered, apps, rows, cols);
        assert seq(|pages.children|, _ => PageButton(true)) == [];
      }
    }

    /** The indicator of a new window: shown with one page button per page when
        the catalog needs more than one page, hidden and empty otherwise. */
    static method NewIndicator(total: nat) returns (indicator: Indicator)
      ensures fresh(indicator) && indicator.Valid()
      ensures indicator.active == 0 && indicator.activations == 0
      ensures indicator.shown == (total > 1)
      ensures indicator.children == if total > 1 then seq(total, _ => PageButton(true)) else []
    {
      indicator := new Indicator();
      if total > 1 {
        indicator.shown := true;
        var p := 1;
        while p <= total
          invariant 1 <= p <= total + 1
          invariant indicator.Valid() && indicator.active == 0 && indicator.activations == 0 && indicator.shown
          invariant indicator.children == seq(p - 1, _ => PageButton(true))
        {
          indicator.Append("");
          p := p + 1;
        }
      }
    }

    /** Shows or hides the indicator and its page buttons for the filtered
        list; does nothing when the list is empty. */
    method UpdatePages()
      requires Valid()
      modifies pages
      ensures Valid()
      ensures (pages.shown, pages.children) == RefreshedPages(old(pages.shown), old(pages.children), |filtered|, rows, cols)
      ensures pages.active == old(pages.active) && pages.activations == old(pages.activations)
    {
      if filtered == [] {
        return;
      }
      var filteredPages := TotalPages(|filtered|, rows, cols);
      if filteredPages > 1 {
        pages.shown := true;
        var children := pages.GetChildren();
        var total := |children|;
        var p := 1;
        while p <= total
          invariant 1 <= p <= total + 1
          invariant pages.shown && pages.active == old(pages.active) && pages.activations == old(pages.activations)
          invariant |pages.children| == total
          invariant forall q :: 0 <= q < total ==>
                      pages.children[q] == if q < p - 1 then children[q].(visible := q + 1 <= filteredPages) else children[q]
          modifies pages
        {
          pages.children := pages.children[p - 1 := children[p - 1].(visible := p <= filteredPages)];
          p := p + 1;
        }
        assert pages.children == ShowPagesUpTo(children, filteredPages);
      } else {
        pages.shown := false;
      }
    }

    /** Refreshes every grid button for the active page, then the indicator.
        With an empty filtered list every button is blanked and the indicator
        is left alone. */
    method UpdateGrid()
      requires Valid()
      modifies slots, pages
      ensures Valid()
      ensures GridShows(old(slots[..]), old(pages.shown), old(pages.children))
      ensures pages.active == old(pages.active) && pages.activations == old(pages.activations)
    {
      if filtered == [] {
        ghost var prev := slots[..];
        BlankGrid();
        EmptyListBlanksGrid(prev, pages.active, rows, cols);
        assert slots[..] == seq(slots.Length, _ => Blank);
        return;
      }
      var active := pages.GetActive();
      RenderGrid(active);
      UpdatePages();
    }

    /** The refresh for an empty filtered list: every button blank and
        insensitive. */
    method BlankGrid()
      requires slots.Length == rows * cols
      modifies slots
      ensures forall k :: 0 <= k < slots.Length ==> slots[k] == Blank
    {
      var r := 0;
      while r < rows
        invariant 0 <= r <= rows
        invariant r * cols <= slots.Length
        invariant forall k :: 0 <= k < r * cols ==> slots[k] == Blank
        modifies slots
      {
        ghost var start := r * cols;
        RowFits(rows, cols, r);
        var c := 0;
        while c < cols
          invariant 0 <= c <= cols
          invariant forall k :: 0 <= k < start + c ==> slots[k] == Blank
          modifies slots
        {
          var pos := c + r * cols;
          SlotPosition(rows, cols, r, c);
          slots[pos] := Blank;
          c := c + 1;
        }
        r := r + 1;
      }
    }

    /** The refresh of the grid buttons for page `active`, button by button
        with the running index `iter` of the entry shown. */
    method RenderGrid(active: nat)
      requires slots.Length == rows * cols
      modifies slots
      ensures slots[..] == GridContents(old(slots[..]), filtered, active, rows, cols)
    {
      ghost var prev := slots[..];
      var iter := active * cols * rows;
      MulSwap(active, rows, cols);
      var r := 0;
      while r < rows
        invariant 0 <= r <= rows
        invariant iter == active * rows * cols + r * cols
        invariant r * cols <= slots.Length
        invariant forall k :: 0 <= k < r * cols ==> slots[k] == RenderSlot(prev[k], SlotEntry(filtered, active, rows, cols, k))
        invariant forall k :: r * cols <= k < slots.Length ==> slots[k] == prev[k]
        modifies slots
      {
        RowFits(rows, cols, r);
        RenderRow(active, r * cols, iter);
        iter := iter + cols;
        r := r + 1;
      }
      assert slots[..] == GridContents(prev, filtered, active, rows, cols);
    }

    /** Renders the row of buttons from position `start` on, its first button
        from the entry at position `iter` of the filtered list. */
    method RenderRow(active: nat, start: nat, iter: nat)
      requires start + cols <= slots.Length
      requires iter == active * rows * cols + start
      modifies slots
      ensures forall k :: start <= k < start + cols ==> slots[k] == RenderSlot(old(slots[k]), SlotEntry(filtered, active, rows, cols, k))
      ensures forall k :: 0 <= k < slots.Length && !(start <= k < start + cols) ==> slots[k] == old(slots[k])
    {
      var c := 0;
      while c < cols
        invariant 0 <= c <= cols
        invariant forall k :: start <= k < start + c ==> slots[k] == RenderSlot(old(slots[k]), SlotEntry(filtered, active, rows, cols, k))
        invariant forall k :: 0 <= k < slots.Length && !(start <= k < start + c) ==> slots[k] == old(slots[k])
        modifies slots
      {
        RenderCell(start + c, iter + c);
        assert SlotEntry(filtered, active, rows, cols, start + c) == Shown(iter + c);
        c := c + 1;
      }
    }

    /** The entry at position `iter` of the filtered list, if there is one. */
    function Shown(iter: nat): (e: Option<Entry>)
      reads this
      ensures e.Some? <==> iter < |filtered|
    {
      if iter < |filtered| then Some(filtered[iter]) else None
    }

    /** Renders one button from the entry at position `iter`. */
    method RenderCell(pos: nat, iter: nat)
      requires pos < slots.Length
      modifies slots
      ensures slots[pos] == RenderSlot(old(slots[pos]), Shown(iter))
      ensures forall k :: 0 <= k < slots.Length && k != pos ==> slots[k] == old(slots[k])
    {
      if iter < |filtered| {
        var entry := filtered[iter];
        match entry.info {
          case None =>
            slots[pos] := slots[pos].(sensitive := false);
          case Some(info) =>
            slots[pos] := Slot(true, info.icon, info.name, Tooltip(info.name, info.description));
        }
      } else {
        slots[pos] := Blank;
      }
    }

    /** The handler of "child-activate": a grid refresh, when it is connected. */
    method ChildActivated()
      requires Valid()
      modifies slots, pages
      ensures Valid()
      ensures pages.active == old(pages.active) && pages.activations == old(pages.activations)
      ensures activateConnected ==> GridShows(old(slots[..]), old(pages.shown), old(pages.children))
      ensures !activateConnected ==>
                slots[..] == old(slots[..]) && pages.shown == old(pages.shown) && pages.children == old(pages.children)
    {
      if activateConnected {
        UpdateGrid();
      }
    }

    /** Replaces the filtered list by the search result for the current text,
        then goes back to page 0 when the result spans several pages or only
        refreshes the grid otherwise. */
    method Search()
      requires Valid() && filterText.Some?
      modifies this, pages, slots
      ensures Valid()
      ensures filterText == old(filterText) && idleId == old(idleId)
      ensures filtered == SearchResult(apps, filterText.value)
      ensures pages.active == if TotalPages(|filtered|, rows, cols) > 1 then 0 else old(pages.active)
      ensures pages.activations == old(pages.activations) + if TotalPages(|filtered|, rows, cols) > 1 then 1 else 0
      ensures GridShows(old(slots[..]), old(pages.shown), old(pages.children))
    {
      var found := CollectMatches(apps, filterText.value);
      SearchSubseqUnique(apps, filterText.value);
      filtered := found;
      var total := TotalPages(|filtered|, rows, cols);
      if total > 1 {
        FilteredPagesWithinCatalog(filtered, apps, rows, cols);
        pages.SetActive(0);
        ChildActivated();
      } else {
        UpdateGrid();
      }
    }

    /** One page back, when the active page is not the first. */
    method PageLeft()
      requires Valid()
      modifies pages, slots
      ensures Valid()
      ensures MovedTo(PageLeftTarget(old(pages.active)), old(pages.active), old(slots[..]), old(pages.shown),
                      old(pages.children), old(pages.activations))
    {
      var active := pages.GetActive();
      if active >= 1 {
        pages.SetActive(active - 1);
        ChildActivated();
      }
    }

    /** One page forward, when the active page is not the last page of the
        filtered list. */
    method PageRight()
      requires Valid()
      modifies pages, slots
      ensures Valid()
      ensures MovedTo(PageRightTarget(old(pages.active), TotalPages(|filtered|, rows, cols)), old(pages.active),
                      old(slots[..]), old(pages.shown), old(pages.children), old(pages.activations))
    {
      var total := TotalPages(|filtered|, rows, cols);
      var active := pages.GetActive();
      if active + 1 < total {
        FilteredPagesWithinCatalog(filtered, apps, rows, cols);
        pages.SetActive(active + 1);
        ChildActivated();
      }
    }

    /** Scrolling up pages back, scrolling down pages forward; other
        directions are not handled. */
    method Scroll(direction: ScrollDirection) returns (handled: bool)
      requires Valid()
      modifies pages, slots
      ensures Valid()
      ensures handled <==> direction.ScrollUp? || direction.ScrollDown?
      ensures var target := match direction
                            case ScrollUp => PageLeftTarget(old(pages.active))
                            case ScrollDown => PageRightTarget(old(pages.active), TotalPages(|filtered|, rows, cols))
                            case _ => None;
              MovedTo(target, old(pages.active), old(slots[..]), old(pages.shown), old(pages.children), old(pages.activations))
    {
      match direction {
        case ScrollUp =>
          PageLeft();
          handled := true;
        case ScrollDown =>
          PageRight();
          handled := true;
        case _ =>
          handled := false;
      }
    }

    /** Key presses: Escape asks for the window to be destroyed; Left and
        Right page from a focused button on an edge column; `focus` is the
        position of the focused grid button, if any. */
    method KeyPress(key: Key, focus: Option<nat>) returns (destroy: bool)
      requires Valid()
      modifies pages, slots
      ensures Valid()
      ensures destroy <==> key.Escape?
      ensures MovedTo(KeyPageTarget(key, focus, cols, old(pages.active), TotalPages(|filtered|, rows, cols)),
                      old(pages.active), old(slots[..]), old(pages.shown), old(pages.children), old(pages.activations))
    {
      destroy := false;
      match key {
        case Escape =>
          destroy := true;
        case LeftArrow =>
          if focus.Some? {
            var index := focus.value;
            if index % cols == 0 {
              PageLeft();
            }
          }
        case RightArrow =>
          if focus.Some? {
            var index := focus.value;
            if index % cols == cols - 1 {
              PageRight();
            }
          }
        case OtherKey(_) =>
      }
    }

    /** A page button was toggled. */
    method PageButtonToggled(index: int, nowActive: bool)
      requires Valid()
      requires 0 <= index < |pages.children|
      modifies pages, slots
      ensures Valid()
      ensures MovedTo(if nowActive then Some(index) else None, old(pages.active), old(slots[..]), old(pages.shown),
                      old(pages.children), old(pages.activations))
    {
      pages.OnChildToggled(index, nowActive);
      if nowActive {
        ChildActivated();
      }
    }

    /** A click on grid button `index` (-1 when the button is not in the grid):
        the command to launch for the entry that button shows, or nothing. */
    method Click(index: int) returns (command: Option<string>)
      requires Valid()
      requires index < rows * cols
      ensures command == match ClickTarget(filtered, pages.active, rows, cols, index)
                         case None => None
                         case Some(e) => CommandOf(e)
      ensures command.Some? ==> 0 <= index
      ensures 0 <= index ==> command == match SlotEntry(filtered, pages.active, rows, cols, index)
                                       case None => None
                                       case Some(e) => CommandOf(e)
      ensures 0 <= index < rows * cols && |filtered| <= rows * cols && pages.active >= 1 ==> command.None?
    {
      if index < 0 {
        return None;
      }
      var active := pages.GetActive();
      var pos := index + active * cols * rows;
      MulSwap(active, rows, cols);
      ClickSelectsShownEntry(filtered, active, rows, cols, index);
      if pos >= |filtered| {
        return None;
      }
      var entry := filtered[pos];
      command := CommandOf(entry);
    }

    /** Enter in the search entry: nothing on an empty list; a click on the
        focused button when there is one; otherwise focus the first button and
        click it only when the list holds exactly one entry. */
    method Activate(focus: Option<nat>) returns (focusFirst: bool, command: Option<string>)
      requires Valid()
      requires focus.Some? ==> focus.value < rows * cols
      ensures filtered == [] ==> !focusFirst && command.None?
      ensures filtered != [] && focus.Some? ==> !focusFirst
      ensures filtered != [] && focus.Some? ==> command == match SlotEntry(filtered, pages.active, rows, cols, focus.value)
                                                           case None => None
                                                           case Some(e) => CommandOf(e)
      ensures filtered != [] && focus.None? ==> focusFirst
      ensures filtered != [] && focus.None? && |filtered| != 1 ==> command.None?
      ensures focus.None? && |filtered| == 1 && pages.active == 0 ==> command == CommandOf(filtered[0])
      ensures focus.None? && |filtered| == 1 && pages.active >= 1 ==> command.None?
    {
      if |filtered| == 0 {
        return false, None;
      }
      if focus.Some? {
        command := Click(focus.value);
        return false, command;
      }
      focusFirst := true;
      if |filtered| == 1 {
        assert rows * cols >= 1 by {
          MulMonotone(1, rows, cols);
        }
        command := Click(0);
      } else {
        command := None;
      }
    }

    /** The search entry changed: a pending search is cancelled and a new one
        with id `newId` is scheduled; the cancelled id, if any, is returned. */
    method OnSearchEntryChanged(newId: nat) returns (cancelled: Option<nat>)
      requires newId != 0
      modifies this
      ensures idleId == newId
      ensures cancelled == if old(idleId) != 0 then Some(old(idleId)) else None
      ensures filtered == old(filtered) && filterText == old(filterText)
    {
      cancelled := None;
      if idleId != 0 {
        cancelled := Some(idleId);
        IdleDestroyed();
      }
      idleId := newId;
    }

    /** The pending search is gone. */
    method IdleDestroyed()
      modifies this
      ensures idleId == 0
      ensures filtered == old(filtered) && filterText == old(filterText)
    {
      idleId := 0;
    }

    /** The pending search runs with the entry's current text (the empty text
        when there is none) and, being done, is no longer pending. */
    method FireIdleSearch(text: Option<string>)
      requires Valid()
      modifies this, pages, slots
      ensures Valid()
      ensures filterText == Some(if text.None? then "" else text.value)
      ensures idleId == 0
      ensures filtered == SearchResult(apps, filterText.value)
      ensures pages.active == if TotalPages(|filtered|, rows, cols) > 1 then 0 else old(pages.active)
      ensures pages.activations == old(pages.activations) + if TotalPages(|filtered|, rows, cols) > 1 then 1 else 0
      ensures GridShows(old(slots[..]), old(pages.shown), old(pages.children))
    {
      filterText := Some(if text.None? then "" else text.value);
      Search();
      IdleDestroyed();
    }
  }
}
