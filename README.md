# Gooroom application launcher: catalog, search and pager

This project models the core of the Gooroom panel application launcher. It
covers two parts of the program:

- the application catalog and paged grid of `panel-plugin/applauncher-window.c`;
- the page indicator object of `panel-plugin/applauncher-indicator.c`.

It proves properties of that model in Dafny.

What the window does at start-up:

- resolves the configured blacklist against the installed applications;
- flattens the menu tree depth-first, dropping blacklisted entries;
- removes later entries with a repeated id;
- picks a 4 x 4 or 3 x 6 grid from the monitor size;
- when the catalog needs more than one page, shows the indicator with one page button per page; otherwise hides it and creates no buttons.

What it does while running:

- **Search.** Keystrokes in the search entry are debounced through one pending idle source. Each search rebuilds the filtered list. A match is an executable or a desktop-file `Name*` value that contains the query, case-insensitively.
- **Grid.** The grid shows one page of the filtered list.
- **Navigation.** Scrolling, the arrow keys on an edge column and the page buttons change the active page. Each change refreshes the grid through the indicator's "child-activate" signal.
- **Launch.** A click hands the application's command line, without leading white space, to the launcher. The launcher strips `%` field codes from it before running it.

Modules, one per file:

| module | file | what it holds |
|---|---|---|
| `Text` | text.dfy | `Option`, ASCII case folding and case-insensitive substring search |
| `Menu` | menu.dfy | applications, entries, the menu tree, the blacklist test and the flattening, both as functions and as the recursive accumulator methods of the source |
| `Catalog` | catalog.dfy | ids, `has_application`, the start-up de-duplication, desktop-file name matching, blacklist resolution |
| `Filtering` | filtering.dfy | the search loop and its specification |
| `Pager` | pager.dfy | page counts, slot and click indices, navigation targets, grid shape, what a button shows |
| `Launch` | launch.dfy | field-code stripping, the command taken from a clicked entry, the menu file name |
| `IndicatorState` | indicator.dfy | the class `Indicator` |
| `LauncherWindow` | window.dfy | the class `Window`, whose methods are the window's handlers |

Inputs the source reads from the system become plain values:

- the loaded menu tree (`None` when it fails to load);
- the configured blacklist strings;
- the list of installed applications, each with the key/value pairs of the "Desktop Entry" group of its desktop file;
- the monitor size;
- the focused grid button;
- the entry text;
- the idle source ids.

## Behaviour worth knowing

- **De-duplication.** `priv->apps` keeps duplicates. Only the initial filtered list is de-duplicated, and every search scans `priv->apps` and de-duplicates its own result.
- **Entries without an id.** An entry with no id is kept and is never treated as a duplicate.
- **Entries without application info.** They are kept in the catalog and show as an insensitive button. A search never finds them (`Filtering.NoInfoNeverFound`).
- **Empty query.** An empty query keeps only entries that have application info and either an executable, or an id and a desktop file with some key starting with "Name". The result is de-duplicated by id like every search result. `Filtering.EmptyQueryIsDedup` states the case where every entry has an executable.
- **Blacklist resolution.** Each installed application in turn is tested for an exact id or a matching name, and the first application that passes either test wins (`Catalog.NameMatchBeatsLaterExactId`).
- **`set_active` bounds.** `set_active` neither validates nor clamps its index. The model makes an in-range index a precondition, and every caller in the window proves it.
- **Empty filtered list.** When the filtered list is empty, the grid is blanked and the indicator is left exactly as it was.
- **Search on a later page.** A search that leaves at most one page does not reset the active page. When a later page was active, the refreshed grid is entirely blank (`LauncherWindow.StaleSearchShowsNothing`).
- **Page count.** The page count is a ceiling division: five entries on a 2 x 2 grid take two pages (`Pager.FiveEntriesOnTwoByTwo`).

## Model

| member | source | states |
|---|---|---|
| Text.ContainsCI | panel-plugin/applauncher-window.c:126 | the case-insensitive test, with ASCII folding standing in for the Unicode folding: a found query is never longer than the haystack (a fact of the length-preserving ASCII fold), and a query whose folding starts the folded haystack is found |
| Text.ContainsIffOccurs | panel-plugin/applauncher-window.c:537 | the substring scan succeeds exactly when the needle occurs at some position of the haystack |
| Text.EmptyNeedleFound | panel-plugin/applauncher-window.c:537 | the empty query is contained in every string |
| Text.ContainsCIIgnoresCase | panel-plugin/applauncher-window.c:127 | the case-insensitive test does not change when haystack or query are case-folded first |
| Text.FireQueryExamples | panel-plugin/applauncher-window.c:537 | "fire" is found in "Firefox" and not in "FILEMANAGER" |
| Menu.BlacklistScan | panel-plugin/applauncher-window.c:184-193 | the scan finds the id exactly when the id is non-empty and in the list, skipping empty strings |
| Menu.HasBlacklist | panel-plugin/applauncher-window.c:172-198 | an entry is blacklisted iff it has an id that is a non-empty member of the blacklist; an entry without info or id never is |
| Menu.FromItem | panel-plugin/applauncher-window.c:292-316 | what one item of a directory contributes to the flattening: it never holds a blacklisted entry |
| Menu.FromAlias | panel-plugin/applauncher-window.c:256-274 | what an alias contributes: it never holds a blacklisted entry |
| Menu.FromDir | panel-plugin/applauncher-window.c:283-323 | the depth-first flattening of a directory: it never holds a blacklisted entry |
| Menu.AppendFromDir | panel-plugin/applauncher-window.c:283-323 | the accumulator walk over a directory returns the given list followed by the directory's flattened entries |
| Menu.AppendFromAlias | panel-plugin/applauncher-window.c:252-278 | an alias appends its entry (unless blacklisted) or its directory's entries, and nothing for other item kinds |
| Menu.AllApplications | panel-plugin/applauncher-window.c:361-386 | the applications of the menu: none when it fails to load, and never a blacklisted entry |
| Menu.GetAllApplications | panel-plugin/applauncher-window.c:361-386 | the applications are the flattened root directory, and no applications at all when the menu fails to load |
| Menu.WithoutBlacklistedMembers | panel-plugin/applauncher-window.c:172-198 | an entry survives the blacklist filter iff it was in the list and is not blacklisted |
| Menu.FromDirIsFiltered | panel-plugin/applauncher-window.c:252-323 | flattening with a blacklist equals the depth-first list of all entries of the tree with the blacklisted ones removed |
| Menu.FromDirPrefixIsFiltered | panel-plugin/applauncher-window.c:290-318 | the same for the first n items of a directory |
| Menu.FromItemIsFiltered | panel-plugin/applauncher-window.c:256-274 | the same for one item: entry, directory, alias or other |
| Menu.FlattenDropsExactlyBlacklisted | panel-plugin/applauncher-window.c:171-198 | an entry is in the flattened menu iff it is in the tree and not blacklisted; no blacklisted id survives; entries without id are never dropped |
| Menu.NoBlacklistKeepsAll | panel-plugin/applauncher-window.c:187-188 | a blacklist of empty strings drops nothing |
| Catalog.ListHasId | panel-plugin/applauncher-window.c:342-353 | the scan finds an id iff some entry of the list has it |
| Catalog.HasApplication | panel-plugin/applauncher-window.c:326-356 | true iff the entry has an id and some entry of the list has the same id; false for an entry without id |
| Catalog.Dedup | panel-plugin/applauncher-window.c:1009-1013 | the first-occurrence de-duplication: never longer than its input, and empty only for an empty input |
| Catalog.DedupEntries | panel-plugin/applauncher-window.c:1009-1013 | the start-up loop builds the first-occurrence de-duplication of the catalog |
| Catalog.DedupSubseq | panel-plugin/applauncher-window.c:1009-1013 | the de-duplicated list is an order-preserving subsequence of the catalog |
| Catalog.DedupSameIds | panel-plugin/applauncher-window.c:1009-1013 | de-duplication keeps every id of the catalog |
| Catalog.DedupUnique | panel-plugin/applauncher-window.c:1009-1013 | no two entries of the de-duplicated list share an id |
| Catalog.DedupMembers | panel-plugin/applauncher-window.c:1009-1013 | an entry is kept iff it occurs at a position where no earlier entry has its id |
| Catalog.DedupOfUniqueIsIdentity | panel-plugin/applauncher-window.c:1009-1013 | a list without repeated ids is left unchanged |
| Catalog.DedupIdempotent | panel-plugin/applauncher-window.c:1009-1013 | de-duplicating twice is de-duplicating once |
| Catalog.NameKeyMatches | panel-plugin/applauncher-window.c:120-131 | true iff some key starting with "Name" has a value containing the query |
| Catalog.DesktopHasName | panel-plugin/applauncher-window.c:98-140 | true iff the application has an id, its desktop file is found, and one of its `Name*` values contains the query |
| Catalog.Picks | panel-plugin/applauncher-window.c:152-165 | the per-application test of the lookup: the string equals the id or matches a name, and only an application with an id is picked |
| Catalog.FirstPick | panel-plugin/applauncher-window.c:149-166 | the position of the first application whose id equals the string or whose name matches it |
| Catalog.FindFrom | panel-plugin/applauncher-window.c:149-166 | an id found is the id of one of the applications |
| Catalog.FindFromFirstPick | panel-plugin/applauncher-window.c:149-166 | the scan stops at the first application the string picks and answers with its id, or with none when no application is picked |
| Catalog.FindDesktopById | panel-plugin/applauncher-window.c:143-147 | the empty string resolves to nothing |
| Catalog.FindDesktopByIdFirst | panel-plugin/applauncher-window.c:143-169 | a non-empty string resolves to nothing iff no application passes the test, and otherwise to the id of the first application that does |
| Catalog.ResolvedBlacklist | panel-plugin/applauncher-window.c:215-225 | the resolved blacklist: at most one id per configured string |
| Catalog.ResolveBlacklist | panel-plugin/applauncher-window.c:215-225 | the loop builds the resolved blacklist from the configured strings |
| Catalog.ResolvedBlacklistMembers | panel-plugin/applauncher-window.c:215-225 | an id is resolved iff some non-empty configured string resolves to it |
| Catalog.ResolvedPrefixMembers | panel-plugin/applauncher-window.c:215-225 | the same membership, for the blacklist built from the first n configured strings |
| Catalog.ResolvedStep | panel-plugin/applauncher-window.c:216-223 | reading one more configured string adds exactly the id it resolves to |
| Catalog.ResolvedBlacklistDistinct | panel-plugin/applauncher-window.c:220-222 | the resolved blacklist holds no id twice |
| Catalog.NameMatchBeatsLaterExactId | panel-plugin/applauncher-window.c:152-165 | an earlier application whose name matches wins over a later one whose id equals the string |
| Filtering.Matches | panel-plugin/applauncher-window.c:527-550 | the per-entry test of the search: only an entry with application info can match |
| Filtering.SearchResult | panel-plugin/applauncher-window.c:522-554 | the list the search builds: never longer than the catalog |
| Filtering.CollectMatches | panel-plugin/applauncher-window.c:527-551 | the search loop builds the search result: matching entries, each only when its id is not in the result yet |
| Filtering.SearchIsDedupOfMatches | panel-plugin/applauncher-window.c:527-551 | the search result is the de-duplication of the matching entries |
| Filtering.MatchingEntriesMembers | panel-plugin/applauncher-window.c:530-549 | an entry is among the matches iff it is in the catalog and matches |
| Filtering.SearchSubseqUnique | panel-plugin/applauncher-window.c:521-554 | the result is an order-preserving subsequence of the catalog, no two of its entries share an id, and it is no longer than the catalog |
| Filtering.SearchMembers | panel-plugin/applauncher-window.c:530-550 | every result entry matches; an entry without id is in the result iff it matches; a matching entry is in the result iff it is a first occurrence among the matches |
| Filtering.NoInfoNeverFound | panel-plugin/applauncher-window.c:532-533 | an entry without application info is never in a search result |
| Filtering.EmptyQueryIsDedup | panel-plugin/applauncher-window.c:536-541 | over entries that all have an executable, the empty query gives the de-duplicated catalog |
| Pager.TotalPages | panel-plugin/applauncher-window.c:389-404 | zero pages iff no entries; otherwise the pages hold all entries and one page fewer would not |
| Pager.TotalPagesIsLeast | panel-plugin/applauncher-window.c:389-404 | the page count is the least count of pages holding all entries |
| Pager.TotalPagesMonotone | panel-plugin/applauncher-window.c:389-404 | fewer entries never need more pages |
| Pager.PagesHoldAll | panel-plugin/applauncher-window.c:389-404 | the fill of all pages adds up to the number of entries |
| Pager.FiveEntriesOnTwoByTwo | panel-plugin/applauncher-window.c:396-400 | on a 2 x 2 grid four entries take one page and five take two |
| Pager.SlotEntry | panel-plugin/applauncher-window.c:464-504 | slot k of page a shows entry a*R*C + k when it exists and nothing otherwise |
| Pager.SlotPosition | panel-plugin/applauncher-window.c:469 | the button position c + r*C lies in the grid and gives back its row and column |
| Pager.CellShows | panel-plugin/applauncher-window.c:464-504 | row r, column c of page a shows entry a*R*C + r*C + c, or is blank past the end |
| Pager.CellsDistinct | panel-plugin/applauncher-window.c:469 | distinct cells have distinct button positions |
| Pager.FullPageShowsSlice | panel-plugin/applauncher-window.c:464-504 | a full page shows the slice of the list that starts at the page |
| Pager.StalePageIsBlank | panel-plugin/applauncher-window.c:464-504 | when the list fits one page and a later page is active, every slot is blank |
| Pager.ClickTarget | panel-plugin/applauncher-window.c:699-709 | the entry a click selects: nothing for a negative index, and otherwise an entry of the filtered list |
| Pager.ClickSelectsShownEntry | panel-plugin/applauncher-window.c:699-709 | a click on button i selects the entry button i shows, and nothing on a later page of a one-page list |
| Pager.PageLeftTarget | panel-plugin/applauncher-window.c:847-856 | page left moves iff the active page is at least 1, to the previous page |
| Pager.PageRightTarget | panel-plugin/applauncher-window.c:859-869 | page right moves iff the next page is below the page count, to the next page |
| Pager.NavigationStaysInRange | panel-plugin/applauncher-window.c:847-869 | from a page of the list navigation stays on a page of the list, and left undoes right and right undoes left |
| Pager.ArrowKeysPageOnEdges | panel-plugin/applauncher-window.c:905-918 | Left pages exactly from column 0, Right exactly from the last column |
| Pager.GridGeometry | panel-plugin/applauncher-window.c:1015-1024 | 4 x 4 iff the width is less than twice the height, 3 x 6 otherwise; items are the integer quotients of the monitor size by twice the grid size |
| Pager.GridExamples | panel-plugin/applauncher-window.c:1015-1024 | 1920 x 1080 gets 4 x 4 with 240 x 135 items; 2560 x 1080 gets 3 x 6 |
| Pager.Tooltip | panel-plugin/applauncher-window.c:493-499 | the tooltip starts with the name, is the name alone iff there is no or an empty description, and otherwise continues with ":\n" and the description |
| Pager.RenderSlot | panel-plugin/applauncher-window.c:471-504 | a button is sensitive iff it shows an entry with info; blank past the end; keeps its picture but turns insensitive for an entry without info; otherwise shows the application's icon, its name as caption and the tooltip built from its name and description |
| Launch.StripFieldCodes | panel-plugin/applauncher-window.c:655-666 | the stripped command: a first character other than '%' is copied, and a leading "%%" gives a leading '%' |
| Launch.StripFieldCodesLoop | panel-plugin/applauncher-window.c:655-666 | the loop computes the field-code stripping of the command |
| Launch.StripNeverLonger | panel-plugin/applauncher-window.c:655-666 | stripping never makes the command longer |
| Launch.NoPercentUnchanged | panel-plugin/applauncher-window.c:664-665 | a command without '%' is copied unchanged |
| Launch.StripRules | panel-plugin/applauncher-window.c:656-665 | "%%" becomes "%", '%' with another character drops the '%' and that character (one byte of the locale string in the source), other characters are copied, a lone '%' at the end is kept |
| Launch.StripUndoesEscape | panel-plugin/applauncher-window.c:658-660 | stripping gives back any command whose '%' characters were doubled |
| Launch.StripPlainPrefix | panel-plugin/applauncher-window.c:664-665 | a prefix without '%' is copied in front of the stripped rest |
| Launch.StripUrlCode | panel-plugin/applauncher-window.c:656-662 | "firefox %u" becomes "firefox " |
| Launch.StripEscapedPercent | panel-plugin/applauncher-window.c:658-660 | "100%%" becomes "100%" |
| Launch.StripKeepsTrailingPercent | panel-plugin/applauncher-window.c:656 | "a%" is kept as it is |
| Launch.LeadingSpaces | panel-plugin/applauncher-window.c:713 | the count of leading white-space characters: all of them are white space and the next one is not |
| Launch.Chug | panel-plugin/applauncher-window.c:713 | the result is a suffix of the line, starts with no white space, and everything removed was white space |
| Launch.CommandOf | panel-plugin/applauncher-window.c:711-719 | a command is returned only for an entry with info and a command line, is that line without leading white space, is non-empty, and is returned whenever the line has a non-space character |
| Launch.ApplicationsMenu | panel-plugin/applauncher-window.c:235-246 | "gnome-applications.menu" without or with an empty prefix, the prefix followed by "applications.menu" otherwise |
| IndicatorState.Indicator.constructor | panel-plugin/applauncher-indicator.c:78-87 | a new indicator has page 0 active, no page buttons and has emitted nothing |
| IndicatorState.Indicator.GetActive | panel-plugin/applauncher-indicator.c:120-128 | returns the active index, which is a page button's index whenever there are buttons |
| IndicatorState.Indicator.SetActive | panel-plugin/applauncher-indicator.c:130-153 | the index becomes active, "child-activate" is emitted exactly once even for the current index, and the page buttons are unchanged |
| IndicatorState.Indicator.GetChildren | panel-plugin/applauncher-indicator.c:155-163 | returns the page buttons |
| IndicatorState.Indicator.Append | panel-plugin/applauncher-indicator.c:165-186 | exactly one shown page button is added at the end; the active index and the emissions are unchanged |
| IndicatorState.Indicator.OnChildToggled | panel-plugin/applauncher-indicator.c:53-65 | a button becoming active makes its position the active page and emits once; a button becoming inactive changes nothing |
| LauncherWindow.GridContents | panel-plugin/applauncher-window.c:464-507 | every button shows the rendering of the entry its slot maps to on the active page |
| LauncherWindow.EmptyListBlanksGrid | panel-plugin/applauncher-window.c:447-460 | with an empty list every button is blank on any page |
| LauncherWindow.ShowPagesUpTo | panel-plugin/applauncher-window.c:429-435 | page button p (from 1) is shown iff p is at most the page count; no button is added or removed |
| LauncherWindow.RefreshedPages | panel-plugin/applauncher-window.c:407-440 | the indicator after a refresh: no button is added or removed, and the indicator is only shown for a non-empty list or when it already was |
| LauncherWindow.RefreshedPagesVisibility | panel-plugin/applauncher-window.c:407-440 | an empty list leaves the indicator untouched; otherwise it is shown iff there are several pages, then exactly the first page-count buttons are shown |
| LauncherWindow.FilteredPagesWithinCatalog | panel-plugin/applauncher-window.c:1038-1051 | a subsequence of the catalog never needs more pages than the indicator has buttons for |
| LauncherWindow.StaleSearchShowsNothing | panel-plugin/applauncher-window.c:556-561 | a search leaving at most one page while a later page is active refreshes every button to blank |
| LauncherWindow.FirstPageShowsCatalogStart | panel-plugin/applauncher-window.c:1009-1054 | at start-up button k shows entry k of the de-duplicated catalog, and is blank past its end |
| LauncherWindow.KeyPageTarget | panel-plugin/applauncher-window.c:901-923 | Left on column 0 targets the previous page, Right on the last column the next one, and nothing else pages |
| LauncherWindow.ArrowKeyTargets | panel-plugin/applauncher-window.c:901-923 | an arrow key pages only from an edge column and only to a neighbouring page of the list |
| LauncherWindow.Window.constructor | panel-plugin/applauncher-window.c:1005-1055 | start-up builds the catalog from the resolved blacklist, de-duplicates it, picks the grid, gives the indicator one button per catalog page when there are several, activates page 0 and renders it |
| LauncherWindow.Window.NewIndicator | panel-plugin/applauncher-window.c:1034-1049 | the new indicator has page 0 active and nothing emitted; it is shown with one button per page when there are several pages, and hidden and empty otherwise |
| LauncherWindow.Window.UpdatePages | panel-plugin/applauncher-window.c:407-440 | the indicator's visibility and buttons become the refreshed ones for the filtered list; the active page is untouched |
| LauncherWindow.Window.UpdateGrid | panel-plugin/applauncher-window.c:443-511 | every button shows its slot of the active page and the indicator is refreshed, or every button is blanked and the indicator is untouched for an empty list |
| LauncherWindow.Window.BlankGrid | panel-plugin/applauncher-window.c:447-460 | every button becomes blank and insensitive |
| LauncherWindow.Window.RenderGrid | panel-plugin/applauncher-window.c:464-507 | the nested row and column loops with the running entry index render every button of the page |
| LauncherWindow.Window.RenderRow | panel-plugin/applauncher-window.c:468-506 | the inner loop renders every button of one row from consecutive entries and leaves the other rows alone |
| LauncherWindow.Window.RenderCell | panel-plugin/applauncher-window.c:470-503 | one button shows its entry, is made insensitive for an entry without application info, or is blanked past the end of the list; no other button changes |
| LauncherWindow.Window.Shown | panel-plugin/applauncher-window.c:471-472 | there is an entry at the running index exactly when the index is inside the filtered list |
| LauncherWindow.Window.ChildActivated | panel-plugin/applauncher-window.c:514-519 | when connected, "child-activate" refreshes the grid; otherwise nothing changes |
| LauncherWindow.Window.Search | panel-plugin/applauncher-window.c:522-562 | the filtered list becomes the search result; page 0 becomes active, with one emission, iff the result spans several pages; the grid is refreshed in every case |
| LauncherWindow.Window.PageLeft | panel-plugin/applauncher-window.c:847-856 | moves to the previous page and refreshes when not on page 0, changes nothing otherwise |
| LauncherWindow.Window.PageRight | panel-plugin/applauncher-window.c:859-869 | moves to the next page and refreshes when it is a page of the filtered list, changes nothing otherwise |
| LauncherWindow.Window.Scroll | panel-plugin/applauncher-window.c:872-886 | up pages back, down pages forward, both handled; other directions are not handled and change nothing |
| LauncherWindow.Window.KeyPress | panel-plugin/applauncher-window.c:889-930 | Escape asks for destruction; the arrows page as the key target says; other keys change nothing |
| LauncherWindow.Window.PageButtonToggled | panel-plugin/applauncher-indicator.c:53-65 | a page button becoming active moves to its page and refreshes the grid |
| LauncherWindow.Window.Click | panel-plugin/applauncher-window.c:694-719 | for the index of a grid button, a click yields the command of the entry `Pager.ClickTarget` selects; this is the command of the entry its button shows, nothing for a negative index, a blank button or an entry without a usable command, and nothing on a later page of a one-page list |
| LauncherWindow.Window.Activate | panel-plugin/applauncher-window.c:791-813 | Enter does nothing on an empty list; clicks the focused button; otherwise focuses the first button and clicks it only for a one-entry list, which yields nothing when a later page is active |
| LauncherWindow.Window.OnSearchEntryChanged | panel-plugin/applauncher-window.c:774-788 | a pending search is cancelled, its id returned, and the new one becomes the only pending search |
| LauncherWindow.Window.IdleDestroyed | panel-plugin/applauncher-window.c:752-755 | no search is pending any more |
| LauncherWindow.Window.FireIdleSearch | panel-plugin/applauncher-window.c:758-771 | the current text (empty when there is none) becomes the filter, the search runs, "child-activate" is emitted once exactly when the result spans several pages, and nothing is pending afterwards |

## Left out

- Icon size. It is chosen from a floating-point cube root of the monitor area (panel-plugin/applauncher-window.c:993-1003), and it only affects drawing.
- Drawing. The cairo background, widget sizes, grid row and column insertion and the button widgets themselves are not modelled. A grid button is the value it displays.
- Process launch. The model stops at the command line the launcher would run. It leaves out the locale conversion, `g_uri_parse_scheme` and the absolute-path test that can skip a launch, the working directory lookup, `command_is_executable`, the spawn and the error dialogs. That part of the program calls into the operating system.
- Menu loading, desktop files, GSettings and the list of installed applications are inputs. `XDG_MENU_PREFIX` is the argument of `Launch.ApplicationsMenu`.
- Case-insensitive search. The source of `panel_g_utf8_strstrcase` is not part of this model. `Text.ContainsCI` folds ASCII capitals only, with no Unicode case folding.
- `g_utf8_collate`. It is read as string equality when resolved ids are compared.
- Null ids. The source passes a null application id on without a test in three places, and the model treats it as no match in each: `has_application` would hand it to `g_str_equal` (`Catalog.ListHasId`); `find_desktop_by_id` would hand it to `g_str_equal` and `desktop_has_name` (`Catalog.Picks` is false when `a.id` is `None`); and the search's `desktop_has_name` call would hand it to `g_desktop_app_info_new` (`Catalog.DesktopHasName` is false when `info.id` is `None`).
- Radio-button exclusivity. The toggled state of the indicator's radio buttons is GTK behaviour, so a page button only records whether it is shown.
- The event loop. Signal dispatch and the timing of the idle source are toolkit behaviour:
  - callers invoke the handlers directly;
  - the idle source ids are parameters;
  - `Window.ChildActivated` is the connected "child-activate" handler.
- The no-op comparison at panel-plugin/applauncher-window.c:780. `==` is written where `=` was meant. A cancelled source is cleared by its destroy notification, and the id is overwritten right after.
- Chaining to the parent handler. The key press handler's call into the GTK parent class is left out, and so is Escape's widget destruction, which `Window.KeyPress` reports as a flag.
- Finalisers, the panel plugin and the button widget files. They are UI plumbing.
- IndicatorState.Indicator.SetActive: requires an index of an existing page button. The source stores any index and emits anyway; only the widget calls on a missing button fail. Every caller in the window is proved to pass an existing index.
- IndicatorState.Indicator.GetActive: the `NULL` indicator case, which returns -1, does not arise: Dafny references are never null.
- LauncherWindow.Window.Search: requires a filter text. Its only caller sets one first.
- Strings are whole C strings with no embedded NUL character. The field-code scan's test for the end of the string is the end of the sequence.
- Launch.StripFieldCodes: scans characters, where the source scans the bytes of the locale-encoded command (`g_locale_from_utf8` at panel-plugin/applauncher-window.c:722, the scan at lines 655-666). The two agree on ASCII. Before a multi-byte character, a '%' drops the whole character in the model but only its first byte in the source: in a UTF-8 locale the source turns "a%éb" into "a", the byte 0xA9 and "b", and the model gives "ab". The locale conversion is left out, and with it the byte encoding. The same holds for `Launch.StripFieldCodesLoop` and `Launch.StripRules`.
- LauncherWindow.Window.Click: requires an index below the number of grid buttons. The source's index comes from `g_list_index` over the grid buttons, so it is either one of them or -1. `LauncherWindow.Window.Activate` requires the same of its focused button.
