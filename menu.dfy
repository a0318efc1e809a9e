/** The application menu as the launcher sees it: desktop applications, menu
    entries and the menu tree, and the depth-first flattening of that tree into
    the list of entries that the catalog is built from. */
module Menu {
  import opened Text

  /** What the launcher reads from one desktop application.
      `desktopEntry` is the key/value list of the "Desktop Entry" group of the
      desktop file that `id` resolves to (translated keys included), or None
      when no desktop file can be found or loaded for it. */
  datatype AppInfo = AppInfo(
    id: Option<string>,
    executable: Option<string>,
    commandline: Option<string>,
    name: string,
    description: Option<string>,
    icon: Option<string>,
    desktopEntry: Option<seq<(string, string)>>)

  /** A menu entry; `info` is None for an entry whose application could not be read. */
  datatype Entry = Entry(info: Option<AppInfo>)

  /** The items a menu directory iterates over. An alias points at another item;
      separators and headers carry no application. */
  datatype Item =
    | EntryItem(entry: Entry)
    | DirectoryItem(items: seq<Item>)
    | AliasItem(target: Item)
    | Separator
    | Header

  type Directory = d: Item | d.DirectoryItem? witness DirectoryItem([])

  /** The application id of an entry, when it has application info with an id. */
  function Id(e: Entry): Option<string>
  {
    if e.info.Some? then e.info.value.id else None
  }

  /** Scans `blacklist` in order for `id`, skipping empty strings. */
  function BlacklistScan(id: string, blacklist: seq<string>): (r: bool)
    ensures r <==> id != "" && id in blacklist
  {
    if blacklist == [] then false
    else if blacklist[0] == "" then BlacklistScan(id, blacklist[1..])
    else if blacklist[0] == id then true
    else BlacklistScan(id, blacklist[1..])
  }

  /** An entry is blacklisted when it has an id that equals a non-empty
      blacklist string; an entry without info or without id never is. */
  function HasBlacklist(e: Entry, blacklist: seq<string>): (r: bool)
    ensures r <==> Id(e).Some? && Id(e).value != "" && Id(e).value in blacklist
    ensures Id(e).None? ==> !r
  {
    match Id(e)
    case None => false
    case Some(id) => BlacklistScan(id, blacklist)
  }

  // ---------------------------------------------------------------------
  // Flattening with the blacklist applied, as the tree walk does it.

  function FromDir(d: Directory, blacklist: seq<string>): (r: seq<Entry>)
    ensures forall k :: 0 <= k < |r| ==> !HasBlacklist(r[k], blacklist)
    decreases d, 1
  {
    FromDirPrefix(d, |d.items|, blacklist)
  }

  /** The entries contributed by the first `n` items of `d`. */
  function FromDirPrefix(d: Directory, n: nat, blacklist: seq<string>): (r: seq<Entry>)
    requires n <= |d.items|
    ensures forall k :: 0 <= k < |r| ==> !HasBlacklist(r[k], blacklist)
    decreases d, 0, n
  {
    if n == 0 then []
    else FromDirPrefix(d, n - 1, blacklist) + FromItem(d.items[n - 1], blacklist)
  }

  /** What one item of a directory contributes: an entry unless it is
      blacklisted, a directory or alias recursively, anything else nothing. */
  function FromItem(item: Item, blacklist: seq<string>): (r: seq<Entry>)
    ensures forall k :: 0 <= k < |r| ==> !HasBlacklist(r[k], blacklist)
    decreases item, 2
  {
    match item
    case EntryItem(e) => if HasBlacklist(e, blacklist) then [] else [e]
    case DirectoryItem(_) => FromDir(item, blacklist)
    case AliasItem(_) => FromAlias(item, blacklist)
    case _ => []
  }

  /** An alias contributes its entry (unless blacklisted) or its directory;
      an alias of any other kind of item contributes nothing. */
  function FromAlias(alias: Item, blacklist: seq<string>): (r: seq<Entry>)
    requires alias.AliasItem?
    ensures forall k :: 0 <= k < |r| ==> !HasBlacklist(r[k], blacklist)
    decreases alias, 1
  {
    match alias.target
    case EntryItem(e) => if HasBlacklist(e, blacklist) then [] else [e]
    case DirectoryItem(_) => FromDir(alias.target, blacklist)
    case _ => []
  }

  /** Appends the entries of `d` to `list`, threading the list through the
      recursion over sub-directories and aliases. */
  method AppendFromDir(d: Directory, list: seq<Entry>, blacklist: seq<string>) returns (r: seq<Entry>)
    decreases d
    ensures r == list + FromDir(d, blacklist)
  {
    r := list;
    var i := 0;
    while i < |d.items|
      invariant 0 <= i <= |d.items|
      invariant r == list + FromDirPrefix(d, i, blacklist)
    {
      var item := d.items[i];
      match item {
        case EntryItem(e) =>
          if !HasBlacklist(e, blacklist) {
            r := r + [e];
          }
        case DirectoryItem(_) =>
          r := AppendFromDir(item, r, blacklist);
        case AliasItem(_) =>
          r := AppendFromAlias(item, r, blacklist);
        case _ =>
      }
      i := i + 1;
    }
  }

  method AppendFromAlias(alias: Item, list: seq<Entry>, blacklist: seq<string>) returns (r: seq<Entry>)
    requires alias.AliasItem?
    decreases alias
    ensures r == list + FromAlias(alias, blacklist)
  {
    r := list;
    match alias.target {
      case EntryItem(e) =>
        if !HasBlacklist(e, blacklist) {
          r := r + [e];
        }
      case DirectoryItem(_) =>
        r := AppendFromDir(alias.target, r, blacklist);
      case _ =>
    }
  }

  /** The applications of a menu: its flattened root directory, or no
      applications at all when the menu could not be loaded. */
  function AllApplications(menu: Option<Directory>, blacklist: seq<string>): (r: seq<Entry>)
    ensures menu.None? ==> r == []
    ensures forall k :: 0 <= k < |r| ==> !HasBlacklist(r[k], blacklist)
  {
    match menu
    case None => []
    case Some(root) => FromDir(root, blacklist)
  }

  method GetAllApplications(menu: Option<Directory>, blacklist: seq<string>) returns (apps: seq<Entry>)
    ensures apps == AllApplications(menu, blacklist)
    ensures menu.None? ==> apps == []
  {
    match menu {
      case None => apps := [];
      case Some(root) => apps := AppendFromDir(root, [], blacklist);
    }
  }

  // ---------------------------------------------------------------------
  // Reference definition: every entry of the tree in depth-first order,
  // without any blacklist.

  function EntriesOfDir(d: Directory): seq<Entry>
    decreases d, 1
  {
    EntriesOfDirPrefix(d, |d.items|)
  }

  function EntriesOfDirPrefix(d: Directory, n: nat): seq<Entry>
    requires n <= |d.items|
    decreases d, 0, n
  {
    if n == 0 then [] else EntriesOfDirPrefix(d, n - 1) + EntriesOfItem(d.items[n - 1])
  }

  function EntriesOfItem(item: Item): seq<Entry>
    decreases item, 2
  {
    match item
    case EntryItem(e) => [e]
    case DirectoryItem(_) => EntriesOfDir(item)
    case AliasItem(target) =>
      (match target
       case EntryItem(e) => [e]
       case DirectoryItem(_) => EntriesOfDir(target)
       case _ => [])
    case _ => []
  }

  /** The entries of `s` that the blacklist does not name, in order. */
  function WithoutBlacklisted(s: seq<Entry>, blacklist: seq<string>): seq<Entry>
  {
    if s == [] then []
    else WithoutBlacklisted(s[..|s| - 1], blacklist)
         + (if HasBlacklist(s[|s| - 1], blacklist) then [] else [s[|s| - 1]])
  }

  lemma {:induction false} WithoutBlacklistedAppend(a: seq<Entry>, b: seq<Entry>, blacklist: seq<string>)
    ensures WithoutBlacklisted(a + b, blacklist) == WithoutBlacklisted(a, blacklist) + WithoutBlacklisted(b, blacklist)
    decreases |b|
  {
    if b == [] {
      assert a + b == a;
    } else {
      var b' := b[..|b| - 1];
      assert (a + b)[..|a + b| - 1] == a + b';
      assert (a + b)[|a + b| - 1] == b[|b| - 1];
      WithoutBlacklistedAppend(a, b', blacklist);
    }
  }

  /** Membership: an entry survives exactly when it is in `s` and not blacklisted. */
  lemma {:induction false} WithoutBlacklistedMembers(s: seq<Entry>, blacklist: seq<string>, e: Entry)
    ensures e in WithoutBlacklisted(s, blacklist) <==> e in s && !HasBlacklist(e, blacklist)
  {
    if s != [] {
      var s' := s[..|s| - 1];
      WithoutBlacklistedMembers(s', blacklist, e);
      assert s == s' + [s[|s| - 1]];
    }
  }

  /** Flattening with a blacklist is the depth-first list of all entries of
      the tree with exactly the blacklisted ones removed. */
  lemma {:induction false} FromDirIsFiltered(d: Directory, blacklist: seq<string>)
    ensures FromDir(d, blacklist) == WithoutBlacklisted(EntriesOfDir(d), blacklist)
    decreases d, 1
  {
    FromDirPrefixIsFiltered(d, |d.items|, blacklist);
  }

  lemma {:induction false} FromDirPrefixIsFiltered(d: Directory, n: nat, blacklist: seq<string>)
    requires n <= |d.items|
    ensures FromDirPrefix(d, n, blacklist) == WithoutBlacklisted(EntriesOfDirPrefix(d, n), blacklist)
    decreases d, 0, n
  {
    if n > 0 {
      FromDirPrefixIsFiltered(d, n - 1, blacklist);
      FromItemIsFiltered(d.items[n - 1], blacklist);
      WithoutBlacklistedAppend(EntriesOfDirPrefix(d, n - 1), EntriesOfItem(d.items[n - 1]), blacklist);
    }
  }

  lemma {:induction false} FromItemIsFiltered(item: Item, blacklist: seq<string>)
    ensures FromItem(item, blacklist) == WithoutBlacklisted(EntriesOfItem(item), blacklist)
    decreases item, 2
  {
    match item {
      case EntryItem(e) =>
        assert [e][..0] == [];
      case DirectoryItem(_) =>
        FromDirIsFiltered(item, blacklist);
      case AliasItem(target) =>
        match target {
          case EntryItem(e) =>
            assert [e][..0] == [];
          case DirectoryItem(_) =>
            FromDirIsFiltered(target, blacklist);
          case _ =>
        }
      case _ =>
    }
  }

  /** The flattened menu holds an entry exactly when the tree does and the
      blacklist does not name it; in particular no blacklisted id survives and
      an entry without id is never dropped. */
  lemma FlattenDropsExactlyBlacklisted(d: Directory, blacklist: seq<string>, e: Entry)
    ensures e in FromDir(d, blacklist) <==> e in EntriesOfDir(d) && !HasBlacklist(e, blacklist)
    ensures e in FromDir(d, blacklist) ==> !(Id(e).Some? && Id(e).value != "" && Id(e).value in blacklist)
    ensures Id(e).None? ==> (e in FromDir(d, blacklist) <==> e in EntriesOfDir(d))
  {
    FromDirIsFiltered(d, blacklist);
    WithoutBlacklistedMembers(EntriesOfDir(d), blacklist, e);
  }

  /** With an empty blacklist (or one holding only empty strings) the flattened
      menu is every entry of the tree in depth-first order. */
  lemma {:induction false} NoBlacklistKeepsAll(s: seq<Entry>, blacklist: seq<string>)
    requires forall k :: 0 <= k < |blacklist| ==> blacklist[k] == ""
    ensures WithoutBlacklisted(s, blacklist) == s
  {
    if s != [] {
      NoBlacklistKeepsAll(s[..|s| - 1], blacklist);
      assert s == s[..|s| - 1] + [s[|s| - 1]];
    }
  }
}
