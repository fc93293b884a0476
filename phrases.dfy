/**
 * The phrase counter of the article loop: the search phrase is counted
 * case-insensitively in the title and in the description separately
 * and the two counts are added (newsCase/main.py:83).
 */
module Phrases {
  import opened Text

  /** `p` occurs in `s` starting at index `i`. */
  predicate OccursAt(s: string, p: string, i: nat) {
    i + |p| <= |s| && s[i..i + |p|] == p
  }

  /**
   * `pos` lists, in increasing order and without overlap, occurrences of
   * `p` in `s` at or after `i`, and every other occurrence at or after `i`
   * starts strictly inside one of them: the occurrences a left-to-right
   * scan takes when it resumes after the end of each match.
   */
  ghost predicate GreedyMatches(s: string, p: string, i: nat, pos: seq<nat>) {
    SoundMatches(s, p, i, pos)
    && (forall j :: i <= j && OccursAt(s, p, j) ==> Covered(p, pos, j))
  }

  /** Index `j` is one of `pos` or lies strictly inside the match starting at one of them. */
  predicate Covered(p: string, pos: seq<nat>, j: nat) {
    j in pos || exists k :: 0 <= k < |pos| && pos[k] < j < pos[k] + |p|
  }

  /** Start indices of the matches the substring counter finds from index `i` on. */
  function MatchesFrom(s: string, p: string, i: nat): (pos: seq<nat>)
    requires |p| > 0 && i <= |s|
    decreases |s| - i
  {
    if i + |p| > |s| then []
    else if s[i..i + |p|] == p then [i] + MatchesFrom(s, p, i + |p|)
    else MatchesFrom(s, p, i + 1)
  }

  /** `pos` lists occurrences of `p` at or after `i`, in order and without overlap. */
  ghost predicate SoundMatches(s: string, p: string, i: nat, pos: seq<nat>) {
    (forall k :: 0 <= k < |pos| ==> i <= pos[k] && OccursAt(s, p, pos[k]))
    && (forall k, l :: 0 <= k < l < |pos| ==> pos[k] + |p| <= pos[l])
  }

  /** Every match the scan reports is an occurrence at or after `i`, and they do not overlap. */
  lemma {:induction false} MatchesFromSound(s: string, p: string, i: nat)
    requires |p| > 0 && i <= |s|
    ensures SoundMatches(s, p, i, MatchesFrom(s, p, i))
    decreases |s| - i
  {
    if i + |p| <= |s| {
      if s[i..i + |p|] == p {
        MatchesFromSound(s, p, i + |p|);
        var rest := MatchesFrom(s, p, i + |p|);
        var pos := [i] + rest;
        assert MatchesFrom(s, p, i) == pos;
        assert forall k :: 0 < k < |pos| ==> pos[k] == rest[k - 1];
      } else {
        MatchesFromSound(s, p, i + 1);
      }
    }
  }

  /** Every occurrence at or after `i` is reported or starts inside a reported one. */
  lemma {:induction false} MatchesFromComplete(s: string, p: string, i: nat, j: nat)
    requires |p| > 0 && i <= j && OccursAt(s, p, j)
    ensures var pos := MatchesFrom(s, p, i);
      j in pos || exists k :: 0 <= k < |pos| && pos[k] < j < pos[k] + |p|
    decreases |s| - i
  {
    if s[i..i + |p|] == p {
      var rest := MatchesFrom(s, p, i + |p|);
      var pos := [i] + rest;
      if j == i {
        assert pos[0] == j;
      } else if j < i + |p| {
        assert pos[0] < j < pos[0] + |p|;
      } else {
        MatchesFromComplete(s, p, i + |p|, j);
        if j !in rest {
          var k :| 0 <= k < |rest| && rest[k] < j < rest[k] + |p|;
          assert pos[k + 1] == rest[k];
        }
      }
    } else {
      assert j != i;
      MatchesFromComplete(s, p, i + 1, j);
    }
  }

  /** The scan's matches fit side by side into the part of `s` it scanned. */
  lemma {:induction false} MatchesFromBound(s: string, p: string, i: nat)
    requires |p| > 0 && i <= |s|
    ensures |MatchesFrom(s, p, i)| * |p| <= |s| - i
    decreases |s| - i
  {
    if i + |p| <= |s| {
      if s[i..i + |p|] == p {
        MatchesFromBound(s, p, i + |p|);
        var n := |MatchesFrom(s, p, i + |p|)|;
        assert (n + 1) * |p| == n * |p| + |p|;
      } else {
        MatchesFromBound(s, p, i + 1);
      }
    }
  }

  /** The scan's matches are the greedy left-to-right occurrences. */
  lemma MatchesFromGreedy(s: string, p: string, i: nat)
    requires |p| > 0 && i <= |s|
    ensures GreedyMatches(s, p, i, MatchesFrom(s, p, i))
  {
    MatchesFromSound(s, p, i);
    forall j | i <= j && OccursAt(s, p, j)
      ensures var pos := MatchesFrom(s, p, i);
        j in pos || exists k :: 0 <= k < |pos| && pos[k] < j < pos[k] + |p|
    {
      MatchesFromComplete(s, p, i, j);
    }
  }

  /**
   * `s.count(p)`: the number of non-overlapping occurrences of `p` in `s`,
   * or `|s| + 1` for the empty `p` (one empty match at every position).
   */
  function Count(s: string, p: string): (n: nat)
    ensures |p| > 0 ==> n * |p| <= |s|
    ensures |p| == 0 ==> n == |s| + 1
  {
    if |p| == 0 then |s| + 1
    else
      MatchesFromBound(s, p, 0);
      |MatchesFrom(s, p, 0)|
  }

  /** The `count_phrases` value of one article. */
  function CountPhrases(title: string, description: string, phrase: string): (n: nat)
    ensures |phrase| > 0 ==> n * |phrase| <= |title| + |description|
  {
    var q := Lower(phrase);
    var a := Count(Lower(title), q);
    var b := Count(Lower(description), q);
    SumTimes(a, b, |q|);
    a + b
  }

  lemma SumTimes(a: nat, b: nat, q: nat)
    ensures (a + b) * q == a * q + b * q
  {
  }

  /** The matches the counter takes are the only list with the `GreedyMatches` property. */
  lemma {:induction false} GreedyMatchesUnique(s: string, p: string, i: nat, pos: seq<nat>)
    requires |p| > 0 && i <= |s|
    requires GreedyMatches(s, p, i, pos)
    ensures pos == MatchesFrom(s, p, i)
    decreases |s| - i
  {
    if i + |p| > |s| {
      assert |pos| > 0 ==> OccursAt(s, p, pos[0]);
    } else if s[i..i + |p|] == p {
      GreedyTakesFirst(s, p, i, pos);
      GreedyMatchesUnique(s, p, i + |p|, pos[1..]);
      assert MatchesFrom(s, p, i) == [i] + MatchesFrom(s, p, i + |p|);
      assert pos == [i] + pos[1..];
    } else {
      GreedySkipsNonMatch(s, p, i, pos);
      GreedyMatchesUnique(s, p, i + 1, pos);
    }
  }

  /** A greedy list from `i` starts with `i` when `p` occurs there, and the rest is greedy after it. */
  lemma GreedyTakesFirst(s: string, p: string, i: nat, pos: seq<nat>)
    requires |p| > 0 && GreedyMatches(s, p, i, pos) && OccursAt(s, p, i)
    ensures |pos| > 0 && pos[0] == i && GreedyMatches(s, p, i + |p|, pos[1..])
  {
    assert Covered(p, pos, i);
    assert i in pos;
    var k :| 0 <= k < |pos| && pos[k] == i;
    assert i <= pos[0];
    assert k == 0;
    forall j | i + |p| <= j && OccursAt(s, p, j)
      ensures Covered(p, pos[1..], j)
    {
      CoveredAfterHead(p, pos, j);
    }
  }

  /** An index past the first match that `pos` covers is covered by the rest of `pos`. */
  lemma CoveredAfterHead(p: string, pos: seq<nat>, j: nat)
    requires |p| > 0 && |pos| > 0 && pos[0] + |p| <= j && Covered(p, pos, j)
    ensures Covered(p, pos[1..], j)
  {
    var rest := pos[1..];
    if j in pos {
      var m :| 0 <= m < |pos| && pos[m] == j;
      assert m > 0;
      assert rest[m - 1] == j;
    } else {
      var m :| 0 <= m < |pos| && pos[m] < j < pos[m] + |p|;
      assert m > 0;
      assert rest[m - 1] == pos[m];
    }
  }

  /** Where `p` does not occur at `i`, a greedy list from `i` is also one from `i + 1`. */
  lemma GreedySkipsNonMatch(s: string, p: string, i: nat, pos: seq<nat>)
    requires GreedyMatches(s, p, i, pos) && !OccursAt(s, p, i)
    ensures GreedyMatches(s, p, i + 1, pos)
  {
    forall k | 0 <= k < |pos|
      ensures i + 1 <= pos[k]
    {
      assert OccursAt(s, p, pos[k]);
      assert pos[k] != i;
    }
  }

  /** An occurrence split across title and description is not counted. */
  lemma BoundaryOccurrenceNotCounted()
    ensures Count(Lower("Olymp" + "ics"), Lower("Olympics")) == 1
    ensures CountPhrases("Olymp", "ics", "Olympics") == 0
  {
    assert "Olymp" + "ics" == "Olympics";
    assert Lower("Olympics") == "olympics";
    assert OccursAt("olympics", "olympics", 0);
  }

  /** The count ignores letter case in the text and in the phrase. */
  lemma CountPhrasesExample()
    ensures CountPhrases("Olympics News", "olympics recap", "Olympics") == 2
  {
    assert Lower("Olympics News") == "olympics news";
    assert Lower("olympics recap") == "olympics recap";
    assert Lower("Olympics") == "olympics";
    assert OccursAt("olympics news", "olympics", 0);
    assert OccursAt("olympics recap", "olympics", 0);
  }

  /** Occurrences that overlap a counted one are not counted again. */
  lemma NonOverlappingExample()
    ensures Count("aaaa", "aa") == 2
    ensures Count("aaa", "aa") == 1
  {
    assert OccursAt("aaaa", "aa", 0) && OccursAt("aaaa", "aa", 2);
    assert OccursAt("aaa", "aa", 0);
  }
}
