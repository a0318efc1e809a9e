/** The catalog: id lookups over entry lists, the de-duplication that builds the
    initial filtered list, desktop-file name matching, and the resolution of the
    configured blacklist strings against the installed applications. */
module Catalog {
  import opened Text
  import opened Menu

  // ---------------------------------------------------------------------
  // Subsequences and ids

  /** `a` is `b` with some elements left out, order kept. */
  ghost predicate IsSubseq<T>(a: seq<T>, b: seq<T>)
    decreases |b|
  {
    if b == [] then a == []
    else IsSubseq(a, b[..|b| - 1])
         || (a != [] && a[|a| - 1] == b[|b| - 1] && IsSubseq(a[..|a| - 1], b[..|b| - 1]))
  }

  lemma {:induction false} SubseqLength<T>(a: seq<T>, b: seq<T>)
    requires IsSubseq(a, b)
    ensures |a| <= |b|
    decreases |b|
  {
    if b != [] {
      if IsSubseq(a, b[..|b| - 1]) {
        SubseqLength(a, b[..|b| - 1]);
      } else {
        SubseqLength(a[..|a| - 1], b[..|b| - 1]);
      }
    }
  }

  lemma {:induction false} SubseqMembers<T>(a: seq<T>, b: seq<T>, x: T)
    requires IsSubseq(a, b) && x in a
    ensures x in b
    decreases |b|
  {
    var b' := b[..|b| - 1];
    assert b == b' + [b[|b| - 1]];
    if IsSubseq(a, b') {
      SubseqMembers(a, b', x);
    } else {
      var a' := a[..|a| - 1];
      assert a == a' + [a[|a| - 1]];
      if x != a[|a| - 1] {
        SubseqMembers(a', b', x);
      }
    }
  }

  lemma SubseqExtend<T>(a: seq<T>, b: seq<T>, x: T)
    requires IsSubseq(a, b)
    ensures IsSubseq(a, b + [x]) && IsSubseq(a + [x], b + [x])
  {
    assert (b + [x])[..|b|] == b;
    assert (a + [x])[..|a|] == a;
  }

  /** No two entries of `s` share an id; entries without id are exempt. */
  ghost predicate NoDuplicateIds(s: seq<Entry>)
  {
    forall i, j :: 0 <= i < j < |s| && Id(s[i]).Some? ==> Id(s[i]) != Id(s[j])
  }

  /** Scans `list` from the front for an entry with id `id`. */
  function ListHasId(list: seq<Entry>, id: string): (r: bool)
    ensures r <==> exists k :: 0 <= k < |list| && Id(list[k]) == Some(id)
  {
    if list == [] then false
    else if Id(list[0]) == Some(id) then true
    else
      var rest := ListHasId(list[1..], id);
      assert forall k :: 1 <= k < |list| ==> list[k] == list[1..][k - 1];
      rest
  }

  /** `list` already holds an application with the id of `e`. An entry without
      application info or id is never found, so it is never treated as a duplicate. */
  function HasApplication(list: seq<Entry>, e: Entry): (r: bool)
    ensures r <==> Id(e).Some? && exists k :: 0 <= k < |list| && Id(list[k]) == Id(e)
  {
    match Id(e)
    case None => false
    case Some(id) => ListHasId(list, id)
  }

  lemma ListHasIdAppend(list: seq<Entry>, e: Entry, id: string)
    ensures ListHasId(list + [e], id) <==> ListHasId(list, id) || Id(e) == Some(id)
  {
    assert forall k :: 0 <= k < |list| ==> (list + [e])[k] == list[k];
    assert (list + [e])[|list|] == e;
  }

  // ---------------------------------------------------------------------
  // De-duplication by id (the initial filtered list)

  /** `s` with every entry dropped whose id an earlier kept entry already has. */
  function Dedup(s: seq<Entry>): (r: seq<Entry>)
    ensures |r| <= |s|
    ensures s != [] ==> r != []
  {
    if s == [] then []
    else
      var p := Dedup(s[..|s| - 1]);
      if HasApplication(p, s[|s| - 1]) then p else p + [s[|s| - 1]]
  }

  /** Position `i` holds the first entry of `s` with its id (or an entry without id). */
  ghost predicate FirstOccurrence(s: seq<Entry>, i: int)
    requires 0 <= i < |s|
  {
    Id(s[i]).None? || forall j :: 0 <= j < i ==> Id(s[j]) != Id(s[i])
  }

  method DedupEntries(apps: seq<Entry>) returns (filtered: seq<Entry>)
    ensures filtered == Dedup(apps)
  {
    filtered := [];
    var i := 0;
    while i < |apps|
      invariant 0 <= i <= |apps|
      invariant filtered == Dedup(apps[..i])
    {
      assert apps[..i + 1][..i] == apps[..i];
      if !HasApplication(filtered, apps[i]) {
        filtered := filtered + [apps[i]];
      }
      i := i + 1;
    }
    assert apps[..|apps|] == apps;
  }

  lemma {:induction false} DedupSubseq(s: seq<Entry>)
    ensures IsSubseq(Dedup(s), s)
  {
    if s != [] {
      var s' := s[..|s| - 1];
      DedupSubseq(s');
      SubseqExtend(Dedup(s'), s', s[|s| - 1]);
      assert s == s' + [s[|s| - 1]];
    }
  }

  /** De-duplication keeps exactly the set of ids. */
  lemma {:induction false} DedupSameIds(s: seq<Entry>, id: string)
    ensures ListHasId(Dedup(s), id) <==> ListHasId(s, id)
  {
    if s != [] {
      var s', e := s[..|s| - 1], s[|s| - 1];
      assert s == s' + [e];
      DedupSameIds(s', id);
      ListHasIdAppend(s', e, id);
      ListHasIdAppend(Dedup(s'), e, id);
      if HasApplication(Dedup(s'), e) {
        DedupSameIds(s', Id(e).value);
      }
    }
  }

  lemma {:induction false} DedupUnique(s: seq<Entry>)
    ensures NoDuplicateIds(Dedup(s))
  {
    if s != [] {
      var s', e := s[..|s| - 1], s[|s| - 1];
      DedupUnique(s');
      var p := Dedup(s');
      if !HasApplication(p, e) {
        var r := p + [e];
        forall i, j | 0 <= i < j < |r| && Id(r[i]).Some? ensures Id(r[i]) != Id(r[j]) {
          if j == |p| {
            assert r[i] == p[i];
          } else {
            assert r[i] == p[i] && r[j] == p[j];
          }
        }
      }
    }
  }

  /** Exactly the first entry of each id is kept, and every entry without id. */
  lemma {:induction false} DedupMembers(s: seq<Entry>, x: Entry)
    ensures x in Dedup(s) <==> exists i :: 0 <= i < |s| && FirstOccurrence(s, i) && s[i] == x
  {
    if s != [] {
      var s', e := s[..|s| - 1], s[|s| - 1];
      var n := |s'|;
      DedupMembers(s', x);
      assert forall i :: 0 <= i < n ==> s[i] == s'[i];
      assert forall i :: 0 <= i < n ==> (FirstOccurrence(s, i) <==> FirstOccurrence(s', i));
      var p := Dedup(s');
      if Id(e).Some? {
        DedupSameIds(s', Id(e).value);
      }
      assert HasApplication(p, e) <==> !FirstOccurrence(s, n);
      if x in Dedup(s) && !(x in p) {
        assert x == e && FirstOccurrence(s, n) && s[n] == x;
      }
      if i :| 0 <= i < |s| && FirstOccurrence(s, i) && s[i] == x {
        if i == n {
          assert x in Dedup(s);
        }
      }
    }
  }

  /** A list without repeated ids is left as it is. */
  lemma {:induction false} DedupOfUniqueIsIdentity(s: seq<Entry>)
    requires NoDuplicateIds(s)
    ensures Dedup(s) == s
  {
    if s != [] {
      var s', e := s[..|s| - 1], s[|s| - 1];
      assert NoDuplicateIds(s');
      DedupOfUniqueIsIdentity(s');
      assert forall k :: 0 <= k < |s'| ==> s'[k] == s[k];
      assert !HasApplication(s', e);
      assert s == s' + [e];
    }
  }

  lemma DedupIdempotent(s: seq<Entry>)
    ensures Dedup(Dedup(s)) == Dedup(s)
  {
    DedupUnique(s);
    DedupOfUniqueIsIdentity(Dedup(s));
  }

  // ---------------------------------------------------------------------
  // Desktop-file names

  /** Scans the key/value pairs of a "Desktop Entry" group for a key starting
      with "Name" whose value contains `query` case-insensitively. */
  function NameKeyMatches(group: seq<(string, string)>, query: string): (r: bool)
    ensures r <==> exists k :: 0 <= k < |group| && "Name" <= group[k].0 && ContainsCI(group[k].1, query)
  {
    if group == [] then false
    else
      var rest := NameKeyMatches(group[1..], query);
      assert forall k :: 1 <= k < |group| ==> group[k] == group[1..][k - 1];
      ("Name" <= group[0].0 && ContainsCI(group[0].1, query)) || rest
  }

  /** Some key of the application's desktop file that starts with "Name" (the
      name and its translations; "GenericName" does not start so) has a value
      containing `query`. False when the application has no id or its desktop
      file cannot be found or loaded. */
  function DesktopHasName(info: AppInfo, query: string): (r: bool)
    ensures r ==> info.id.Some? && info.desktopEntry.Some?
    ensures r <==> info.id.Some? && info.desktopEntry.Some?
                   && exists k :: 0 <= k < |info.desktopEntry.value|
                        && "Name" <= info.desktopEntry.value[k].0
                        && ContainsCI(info.desktopEntry.value[k].1, query)
  {
    info.id.Some? && info.desktopEntry.Some? && NameKeyMatches(info.desktopEntry.value, query)
  }

  // ---------------------------------------------------------------------
  // Blacklist resolution

  /** A configured string picks `a` when it is `a`'s id or is found in one of
      `a`'s names. */
  predicate Picks(a: AppInfo, s: string)
    ensures Picks(a, s) ==> a.id.Some?
  {
    a.id.Some? && (a.id.value == s || DesktopHasName(a, s))
  }

  /** The position of the first application that `s` picks, or `|apps|`. */
  function FirstPick(apps: seq<AppInfo>, s: string): (k: nat)
    ensures k <= |apps|
    ensures k < |apps| ==> Picks(apps[k], s)
    ensures forall j :: 0 <= j < k ==> !Picks(apps[j], s)
  {
    if apps == [] then 0
    else if Picks(apps[0], s) then 0
    else
      var k := FirstPick(apps[1..], s);
      assert forall j :: 1 <= j < |apps| ==> apps[j] == apps[1..][j - 1];
      1 + k
  }

  /** Scans the applications in order and stops at the first one `s` picks. */
  function FindFrom(apps: seq<AppInfo>, s: string): (r: Option<string>)
    ensures r.Some? ==> exists k :: 0 <= k < |apps| && apps[k].id == r
  {
    if apps == [] then None
    else if Picks(apps[0], s) then apps[0].id
    else
      var r := FindFrom(apps[1..], s);
      assert forall k :: 1 <= k < |apps| ==> apps[k] == apps[1..][k - 1];
      r
  }

  /** The scan answers with the first application `s` picks. */
  lemma {:induction false} FindFromFirstPick(apps: seq<AppInfo>, s: string)
    ensures var k := FirstPick(apps, s); FindFrom(apps, s) == if k < |apps| then apps[k].id else None
  {
    if apps != [] && !Picks(apps[0], s) {
      FindFromFirstPick(apps[1..], s);
    }
  }

  /** The id of the first application that `s` picks, scanning in order; an
      empty string picks nothing. */
  function FindDesktopById(apps: seq<AppInfo>, s: string): (r: Option<string>)
    ensures s == "" ==> r.None?
  {
    if s == "" then None else FindFrom(apps, s)
  }

  /** What the lookup finds: nothing exactly when no application is picked,
      and otherwise the id of the first one that is. */
  lemma FindDesktopByIdFirst(apps: seq<AppInfo>, s: string)
    ensures s != "" ==> (FindDesktopById(apps, s).None? <==> forall k :: 0 <= k < |apps| ==> !Picks(apps[k], s))
    ensures FindDesktopById(apps, s).Some? ==>
              var k := FirstPick(apps, s); k < |apps| && apps[k].id == FindDesktopById(apps, s)
  {
    FindFromFirstPick(apps, s);
  }

  /** The blacklist ids resolved from the configured strings, in order of the
      strings, each id once. */
  function ResolvedBlacklist(configured: seq<string>, apps: seq<AppInfo>): (r: seq<string>)
    ensures |r| <= |configured|
  {
    if configured == [] then []
    else
      var p := ResolvedBlacklist(configured[..|configured| - 1], apps);
      var s := configured[|configured| - 1];
      if s == "" then p
      else match FindDesktopById(apps, s)
        case None => p
        case Some(id) => if id in p then p else p + [id]
  }

  method ResolveBlacklist(configured: seq<string>, apps: seq<AppInfo>) returns (blacklist: seq<string>)
    ensures blacklist == ResolvedBlacklist(configured, apps)
  {
    blacklist := [];
    var i := 0;
    while i < |configured|
      invariant 0 <= i <= |configured|
      invariant blacklist == ResolvedBlacklist(configured[..i], apps)
    {
      assert configured[..i + 1][..i] == configured[..i];
      if configured[i] != "" {
        var found := FindDesktopById(apps, configured[i]);
        if found.Some? && found.value !in blacklist {
          blacklist := blacklist + [found.value];
        }
      }
      i := i + 1;
    }
    assert configured[..|configured|] == configured;
  }

  /** An id is blacklisted exactly when some configured string resolves to it. */
  lemma ResolvedBlacklistMembers(configured: seq<string>, apps: seq<AppInfo>, id: string)
    ensures id in ResolvedBlacklist(configured, apps)
            <==> exists i :: 0 <= i < |configured| && FindDesktopById(apps, configured[i]) == Some(id)
  {
    ResolvedPrefixMembers(configured, apps, id, |configured|);
    assert configured[..|configured|] == configured;
  }

  /** The same for the first `n` configured strings. */
  lemma {:induction false} ResolvedPrefixMembers(configured: seq<string>, apps: seq<AppInfo>, id: string, n: nat)
    requires n <= |configured|
    ensures id in ResolvedBlacklist(configured[..n], apps)
            <==> exists i :: 0 <= i < n && FindDesktopById(apps, configured[i]) == Some(id)
  {
    if n > 0 {
      ResolvedPrefixMembers(configured, apps, id, n - 1);
      ResolvedStep(configured, apps, id, n);
      ResolvesSplit(configured, apps, id, n);
    }
  }

  /** Some of the first `n` strings resolves to `id` exactly when some of the
      first `n - 1` does or the `n`-th does. */
  lemma ResolvesSplit(configured: seq<string>, apps: seq<AppInfo>, id: string, n: nat)
    requires 0 < n <= |configured|
    ensures (exists i :: 0 <= i < n && FindDesktopById(apps, configured[i]) == Some(id))
            <==> (exists i :: 0 <= i < n - 1 && FindDesktopById(apps, configured[i]) == Some(id))
                 || FindDesktopById(apps, configured[n - 1]) == Some(id)
  {
    if FindDesktopById(apps, configured[n - 1]) == Some(id) {
      assert 0 <= n - 1 < n;
    }
  }

  /** The `n`-th configured string adds its own resolution and nothing else. */
  lemma ResolvedStep(configured: seq<string>, apps: seq<AppInfo>, id: string, n: nat)
    requires 0 < n <= |configured|
    ensures id in ResolvedBlacklist(configured[..n], apps)
            <==> id in ResolvedBlacklist(configured[..n - 1], apps)
                 || FindDesktopById(apps, configured[n - 1]) == Some(id)
  {
    assert configured[..n][..n - 1] == configured[..n - 1];
    assert configured[..n][n - 1] == configured[n - 1];
  }

  ghost predicate Distinct(s: seq<string>)
  {
    forall i, j :: 0 <= i < j < |s| ==> s[i] != s[j]
  }

  /** No id is blacklisted twice. */
  lemma {:induction false} ResolvedBlacklistDistinct(configured: seq<string>, apps: seq<AppInfo>)
    ensures Distinct(ResolvedBlacklist(configured, apps))
  {
    if configured != [] {
      var p := ResolvedBlacklist(configured[..|configured| - 1], apps);
      ResolvedBlacklistDistinct(configured[..|configured| - 1], apps);
      var r := ResolvedBlacklist(configured, apps);
      var last := configured[|configured| - 1];
      var found := FindDesktopById(apps, last);
      if last != "" && found.Some? && found.value !in p {
        assert r == p + [found.value];
        forall i, j | 0 <= i < j < |r| ensures r[i] != r[j] {
          if j == |p| {
            assert r[i] == p[i] && r[j] !in p;
          } else {
            assert r[i] == p[i] && r[j] == p[j];
          }
        }
      }
    }
  }

  /** Resolution is the per-application combined test: an application listed
      before the one whose id equals the string still wins if one of its names
      contains the string. */
  lemma NameMatchBeatsLaterExactId(a: AppInfo, b: AppInfo, s: string)
    requires s != "" && a.id.Some? && DesktopHasName(a, s)
    ensures FindDesktopById([a, b], s) == a.id
  {
    FindDesktopByIdFirst([a, b], s);
  }
}
