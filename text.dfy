/** Text helpers shared by the catalog, the search and the launcher:
    an Option type, ASCII case folding and (case-insensitive) substring search. */
module Text {

  datatype Option<+T> = None | Some(value: T)

  /** Lower-cases an ASCII capital letter; every other character is unchanged. */
  function LowerAscii(c: char): char
  {
    if 'A' <= c <= 'Z' then (c as int + 32) as char else c
  }

  /** The character-wise case folding of `s`. */
  function Fold(s: string): string
  {
    seq(|s|, i requires 0 <= i < |s| => LowerAscii(s[i]))
  }

  /** `needle` occurs in `haystack` at position `i`. */
  ghost predicate OccursAt(haystack: string, needle: string, i: int)
  {
    0 <= i && i + |needle| <= |haystack| && haystack[i..i + |needle|] == needle
  }

  /** Substring search, scanning the haystack from the front (the `strstr` of C). */
  predicate Contains(haystack: string, needle: string)
    ensures Contains(haystack, needle) ==> |needle| <= |haystack|
    decreases |haystack|
  {
    needle <= haystack || (haystack != [] && Contains(haystack[1..], needle))
  }

  /** Case-insensitive substring search: both sides are folded before searching. */
  predicate ContainsCI(haystack: string, needle: string)
    ensures ContainsCI(haystack, needle) ==> |needle| <= |haystack|
    ensures Fold(needle) <= Fold(haystack) ==> ContainsCI(haystack, needle)
  {
    Contains(Fold(haystack), Fold(needle))
  }

  /** The scan finds the needle exactly when it occurs at some position. */
  lemma {:induction false} ContainsIffOccurs(haystack: string, needle: string)
    ensures Contains(haystack, needle) <==> exists i :: OccursAt(haystack, needle, i)
    decreases |haystack|
  {
    if needle <= haystack {
      assert OccursAt(haystack, needle, 0);
    } else if haystack != [] {
      var tail := haystack[1..];
      ContainsIffOccurs(tail, needle);
      if Contains(tail, needle) {
        var i :| OccursAt(tail, needle, i);
        assert haystack[i + 1..i + 1 + |needle|] == tail[i..i + |needle|];
        assert OccursAt(haystack, needle, i + 1);
      }
      if i :| OccursAt(haystack, needle, i) {
        if i != 0 {
          assert tail[i - 1..i - 1 + |needle|] == haystack[i..i + |needle|];
          assert OccursAt(tail, needle, i - 1);
        }
      }
    }
  }

  /** The empty string is found in every string, so an empty query matches everything. */
  lemma EmptyNeedleFound(haystack: string)
    ensures ContainsCI(haystack, "")
  {
    assert Fold("") == "";
  }

  /** Folding twice is folding once. */
  lemma {:induction false} FoldIdempotent(s: string)
    ensures Fold(Fold(s)) == Fold(s)
  {
    assert forall i :: 0 <= i < |s| ==> LowerAscii(LowerAscii(s[i])) == LowerAscii(s[i]);
  }

  /** Case only matters up to folding: folding the query or the haystack first
      does not change the answer. */
  lemma ContainsCIIgnoresCase(haystack: string, needle: string)
    ensures ContainsCI(haystack, needle) <==> ContainsCI(Fold(haystack), Fold(needle))
  {
    FoldIdempotent(haystack);
    FoldIdempotent(needle);
  }

  /** "Firefox" is found by the query "fire"; "FILEMANAGER" is not. */
  lemma FireQueryExamples()
    ensures ContainsCI("Firefox", "fire")
    ensures !ContainsCI("FILEMANAGER", "fire")
  {
    assert Fold("fire") == "fire";
    assert Fold("Firefox") == "firefox";
    assert "fire" <= "firefox";
    var h := Fold("FILEMANAGER");
    assert h == "filemanager";
    ContainsIffOccurs(h, "fire");
    forall i | 0 <= i <= 7 ensures !OccursAt(h, "fire", i) {
      if i == 0 {
        assert h[i..i + 4][2] == 'l';
      } else {
        assert h[i..i + 4][0] == h[i] != 'f';
      }
    }
  }
}
