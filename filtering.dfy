/** The search: which entries a query matches and the filtered list the
    search builds from the catalog. */
module Filtering {
  import opened Text
  import opened Menu
  import opened Catalog

  /** An entry with application info matches when its executable contains the
      query case-insensitively, or one of its desktop-file names does. */
  predicate Matches(e: Entry, query: string)
    ensures Matches(e, query) ==> e.info.Some?
  {
    e.info.Some?
    && ((e.info.value.executable.Some? && ContainsCI(e.info.value.executable.value, query))
        || DesktopHasName(e.info.value, query))
  }

  /** The list the search loop builds: matching entries in catalog order, each
      appended only when no entry with its id is in the list yet. */
  function SearchResult(apps: seq<Entry>, query: string): (r: seq<Entry>)
    ensures |r| <= |apps|
  {
    if apps == [] then []
    else
      var p := SearchResult(apps[..|apps| - 1], query);
      var e := apps[|apps| - 1];
      if Matches(e, query) && !HasApplication(p, e) then p + [e] else p
  }

  /** The matching entries of `s`, in order. */
  function MatchingEntries(s: seq<Entry>, query: string): seq<Entry>
  {
    if s == [] then []
    else MatchingEntries(s[..|s| - 1], query)
         + (if Matches(s[|s| - 1], query) then [s[|s| - 1]] else [])
  }

  method CollectMatches(apps: seq<Entry>, query: string) returns (found: seq<Entry>)
    ensures found == SearchResult(apps, query)
  {
    found := [];
    var i := 0;
    while i < |apps|
      invariant 0 <= i <= |apps|
      invariant found == SearchResult(apps[..i], query)
    {
      assert apps[..i + 1][..i] == apps[..i];
      var entry := apps[i];
      if entry.info.Some? {
        var info := entry.info.value;
        if info.executable.Some? && ContainsCI(info.executable.value, query) {
          if !HasApplication(found, entry) {
            found := found + [entry];
          }
        } else if DesktopHasName(info, query) {
          if !HasApplication(found, entry) {
            found := found + [entry];
          }
        }
      }
      i := i + 1;
    }
    assert apps[..|apps|] == apps;
  }

  /** The search result is the id de-duplication of the matching entries. */
  lemma {:induction false} SearchIsDedupOfMatches(apps: seq<Entry>, query: string)
    ensures SearchResult(apps, query) == Dedup(MatchingEntries(apps, query))
  {
    if apps != [] {
      var a' := apps[..|apps| - 1];
      var e := apps[|apps| - 1];
      SearchIsDedupOfMatches(a', query);
      if Matches(e, query) {
        var m := MatchingEntries(a', query) + [e];
        assert MatchingEntries(apps, query) == m;
        assert m[..|m| - 1] == MatchingEntries(a', query);
      } else {
        assert MatchingEntries(apps, query) == MatchingEntries(a', query) + [];
        assert MatchingEntries(a', query) + [] == MatchingEntries(a', query);
      }
    }
  }

  lemma {:induction false} MatchingEntriesMembers(s: seq<Entry>, query: string, x: Entry)
    ensures x in MatchingEntries(s, query) <==> x in s && Matches(x, query)
  {
    if s != [] {
      MatchingEntriesMembers(s[..|s| - 1], query, x);
      assert s == s[..|s| - 1] + [s[|s| - 1]];
    }
  }

  /** The result keeps catalog order, leaves entries out but adds none, and
      holds no two entries with the same id. */
  lemma {:induction false} SearchSubseqUnique(apps: seq<Entry>, query: string)
    ensures IsSubseq(SearchResult(apps, query), apps)
    ensures NoDuplicateIds(SearchResult(apps, query))
    ensures |SearchResult(apps, query)| <= |apps|
  {
    if apps != [] {
      var a' := apps[..|apps| - 1];
      var e := apps[|apps| - 1];
      SearchSubseqUnique(a', query);
      SubseqExtend(SearchResult(a', query), a', e);
      assert apps == a' + [e];
    }
    SearchIsDedupOfMatches(apps, query);
    DedupUnique(MatchingEntries(apps, query));
    SubseqLength(SearchResult(apps, query), apps);
  }

  /** Every entry of the result matches the query; an entry without id is in
      the result exactly when it matches; an entry with an id that matches is in
      the result exactly when no earlier matching entry has the same id. */
  lemma SearchMembers(apps: seq<Entry>, query: string, x: Entry)
    ensures x in SearchResult(apps, query) ==> x in apps && Matches(x, query)
    ensures Id(x).None? ==> (x in SearchResult(apps, query) <==> x in apps && Matches(x, query))
    ensures x in SearchResult(apps, query)
            <==> var m := MatchingEntries(apps, query);
                 exists i :: 0 <= i < |m| && FirstOccurrence(m, i) && m[i] == x
  {
    var m := MatchingEntries(apps, query);
    SearchIsDedupOfMatches(apps, query);
    DedupMembers(m, x);
    MatchingEntriesMembers(apps, query, x);
    if x in Dedup(m) {
      DedupSubseq(m);
      SubseqMembers(Dedup(m), m, x);
    }
    if Id(x).None? && x in m {
      var i :| 0 <= i < |m| && m[i] == x;
      assert FirstOccurrence(m, i);
    }
  }

  /** Entries without application info are never shown by a search. */
  lemma NoInfoNeverFound(apps: seq<Entry>, query: string, x: Entry)
    requires x.info.None?
    ensures x !in SearchResult(apps, query)
  {
    SearchMembers(apps, query, x);
  }

  /** An empty query matches every entry that has an executable, so over a
      catalog of such entries the search gives back the de-duplicated catalog. */
  lemma {:induction false} EmptyQueryIsDedup(apps: seq<Entry>)
    requires forall k :: 0 <= k < |apps| ==> apps[k].info.Some? && apps[k].info.value.executable.Some?
    ensures SearchResult(apps, "") == Dedup(apps)
  {
    if apps != [] {
      var a' := apps[..|apps| - 1];
      EmptyQueryIsDedup(a');
      EmptyNeedleFound(apps[|apps| - 1].info.value.executable.value);
    }
  }
}
