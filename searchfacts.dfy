/**
 * How the members of the search family relate to each other, and the
 * results the repository's own tests expect of the reverse searches,
 * derived from the postconditions alone.
 */
module SearchFacts {
  import opened Basics
  import opened Search

  /** A one-character needle occurs exactly where that character is. */
  lemma OneCharOccurs(s: seq<Char>, c: Char, i: nat)
    ensures OccursAt(s, [c], i) <==> i < |s| && s[i] == c
  {
  }

  /**
   * `find_first_of(c, pos)` calls `find(c, pos)` (string_view.hpp:419-422);
   * the view overloads with the one-character needle `[c]` give the same
   * index, so the three agree.
   */
  lemma OneCharForwardSearchesAgree(s: seq<Char>, c: Char, pos: nat)
    requires pos <= |s| < NPOS
    ensures FindFirstOf(s, [c], pos) == FindChar(s, c, pos)
    ensures Find(s, [c], pos) == FindChar(s, c, pos)
  {
    forall i: nat ensures OccursAt(s, [c], i) <==> i < |s| && s[i] == c {
      OneCharOccurs(s, c, i);
    }
  }

  /**
   * `rfind(c, pos)` and `find_last_of(c, pos)` (string_view.hpp:397-400,
   * 443-446) both search for the one-character view `[c]`, and find the
   * same index: the last `c` strictly before min(pos, size).
   */
  lemma OneCharBackwardSearchesAgree(s: seq<Char>, c: Char, pos: nat)
    requires |s| < NPOS
    ensures RFind(s, [c], pos) == FindLastOf(s, [c], pos)
  {
    forall i: nat ensures OccursAt(s, [c], i) <==> i < |s| && s[i] == c {
      OneCharOccurs(s, c, i);
    }
  }

  /**
   * `rfind` is determined by its postcondition: an occurrence that ends by
   * min(pos, size), with none starting later that also ends by then, is
   * the result.
   */
  lemma RFindIsLastOccurrence(s: seq<Char>, v: seq<Char>, pos: nat, k: nat)
    requires |s| < NPOS && OccursAt(s, v, k) && 0 < k + |v| <= Min(pos, |s|)
    requires forall j: nat :: k < j && j + |v| <= Min(pos, |s|) ==> !OccursAt(s, v, j)
    ensures RFind(s, v, pos) == k
  {
  }

  /** The occurrences of a needle start only where its first character is. */
  lemma OccursAtFirstCharacter(s: seq<Char>, v: seq<Char>, j: nat)
    requires OccursAt(s, v, j) && v != []
    ensures s[j] == v[0]
  {
  }

  /** `"foo bar foo bar".rfind("foo") == 8` (tests.cpp:549-554). */
  lemma RFindLastOccurrence()
    ensures RFind("foo bar foo bar", "foo") == 8
  {
    var s: seq<Char>, v: seq<Char> := "foo bar foo bar", "foo";
    assert s[8] == 'f' && s[9] == 'o' && s[10] == 'o';
    assert s[8..11] == v;
    forall j: nat | 8 < j && j + |v| <= |s| ensures !OccursAt(s, v, j) {
      if OccursAt(s, v, j) {
        OccursAtFirstCharacter(s, v, j);
      }
    }
    RFindIsLastOccurrence(s, v, NPOS, 8);
  }

  const Fox: seq<Char> := "the quick brown fox jumps over the lazy dog"

  /**
   * `rfind("fox", 30) == 16` (tests.cpp:570-575): the last occurrence that
   * ends by `pos`.
   */
  lemma RFindBeforePosition()
    ensures RFind(Fox, "fox", 30) == 16
  {
    var v: seq<Char> := "fox";
    assert Fox[16] == 'f' && Fox[17] == 'o' && Fox[18] == 'x';
    assert Fox[16..19] == v;
    assert Fox[19] != 'f' && Fox[20] != 'f' && Fox[21] != 'f' && Fox[22] != 'f';
    assert Fox[23] != 'f' && Fox[24] != 'f' && Fox[25] != 'f' && Fox[26] != 'f';
    assert Fox[27] != 'f';
    forall j: nat | 16 < j && j + |v| <= 30 ensures !OccursAt(Fox, v, j) {
      if OccursAt(Fox, v, j) {
        OccursAtFirstCharacter(Fox, v, j);
      }
    }
    RFindIsLastOccurrence(Fox, v, 30, 16);
  }

  /**
   * `rfind("fox", 0) == npos` (tests.cpp:577-582): nothing ends by
   * position 0, so a non-empty needle is never found there.
   */
  lemma RFindAtZero(s: seq<Char>, v: seq<Char>)
    requires |s| < NPOS && v != []
    ensures RFind(s, v, 0) == NPOS
  {
  }

  /**
   * `find_last_of("fx", 18) == 16` (tests.cpp:674): the `x` at index 18 is
   * not examined, because the search starts strictly before `pos`.
   */
  lemma FindLastOfSkipsPosition()
    ensures Fox[18] == 'x'
    ensures FindLastOf(Fox, "fx", 18) == 16
  {
    var v: seq<Char> := "fx";
    assert Fox[16] in v && Fox[17] !in v;
  }
}
