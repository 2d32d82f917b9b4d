/**
 The score store: a leaderboard of at most five entries kept in descending
 order of score. A save appends the new entry to the loaded list, sorts the
 whole list by descending score and keeps the first five (`push`, `sort`
 with comparator `b.score - a.score`, `splice(5)`); a reset stores the empty
 list. Reading and writing the file are not modelled: the loaded list is a
 parameter and the stored list is the result.

 `Array.prototype.sort` is stable (required since ECMAScript 2019), and a
 stable sort under a comparator that is a total preorder has exactly one
 possible output (`StableSortIsSortDesc`), so `SortDesc` below, a stable
 insertion sort, produces the same order as the runtime, ties included.
 */
module HighScores {

  /** One leaderboard record; `date` is the ISO-8601 time stamp, opaque here. */
  datatype Entry = Entry(name: string, score: int, date: string)

  /** `splice(5)`: entries past the fifth are dropped. */
  const MaxEntries := 5

  /** Each entry scores at least as much as the next one. */
  predicate Sorted(s: seq<Entry>) {
    |s| < 2 || (s[0].score >= s[1].score && Sorted(s[1..]))
  }

  /** A board as the store keeps it. */
  predicate ValidBoard(s: seq<Entry>) {
    Sorted(s) && |s| <= MaxEntries
  }

  // ---------------------------------------------------------------------------
  // Sortedness

  /** In a sorted list every entry scores at least as much as every later one. */
  lemma {:induction false} SortedPairwise(s: seq<Entry>, i: nat, j: nat)
    requires Sorted(s) && i <= j < |s|
    ensures s[i].score >= s[j].score
  {
    if i > 0 {
      SortedPairwise(s[1..], i - 1, j - 1);
    } else if j > 0 {
      SortedPairwise(s[1..], 0, j - 1);
    }
  }

  /** `Sorted` agrees with the pairwise definition of descending order. */
  lemma {:induction false} SortedIffPairwise(s: seq<Entry>)
    ensures Sorted(s) <==> forall i, j :: 0 <= i < j < |s| ==> s[i].score >= s[j].score
  {
    if Sorted(s) {
      forall i, j | 0 <= i < j < |s| ensures s[i].score >= s[j].score {
        SortedPairwise(s, i, j);
      }
    }
    if |s| >= 2 && forall i, j :: 0 <= i < j < |s| ==> s[i].score >= s[j].score {
      var t := s[1..];
      assert forall i, j :: 0 <= i < j < |t| ==> t[i].score >= t[j].score by {
        forall i, j | 0 <= i < j < |t| ensures t[i].score >= t[j].score {
          assert t[i] == s[i + 1] && t[j] == s[j + 1];
        }
      }
      SortedIffPairwise(t);
    }
  }

  lemma SortedTail(s: seq<Entry>)
    requires Sorted(s) && s != []
    ensures Sorted(s[1..])
  {}

  /** Putting an entry that outscores or ties the head of a sorted list in
      front of it keeps it sorted. */
  lemma SortedPrepend(h: Entry, t: seq<Entry>)
    requires Sorted(t)
    requires t == [] || t[0].score <= h.score
    ensures Sorted([h] + t)
  {
    assert ([h] + t)[1..] == t;
  }

  /** Every prefix of a sorted list is sorted. */
  lemma {:induction false} SortedPrefix(s: seq<Entry>, k: nat)
    requires Sorted(s) && k <= |s|
    ensures Sorted(s[..k])
  {
    if k >= 2 {
      SortedPrefix(s[1..], k - 1);
      assert s[..k][1..] == s[1..][..k - 1];
    }
  }

  /** A list is sorted when each entry scores at least as much as the next. */
  lemma {:induction false} SortedByNeighbours(s: seq<Entry>)
    requires forall i :: 0 < i < |s| ==> s[i - 1].score >= s[i].score
    ensures Sorted(s)
  {
    if |s| >= 2 {
      var t := s[1..];
      forall i | 0 < i < |t| ensures t[i - 1].score >= t[i].score {
        assert t[i - 1] == s[i] && t[i] == s[i + 1];
      }
      SortedByNeighbours(t);
      assert s[0].score >= s[1].score;
    }
  }

  /** Nothing in a sorted list outscores its head. */
  lemma SortedBelowHead(s: seq<Entry>)
    requires Sorted(s) && s != []
    ensures forall i :: 0 <= i < |s| ==> s[i].score <= s[0].score
  {
    forall i | 0 <= i < |s| ensures s[i].score <= s[0].score {
      SortedPairwise(s, 0, i);
    }
  }

  // ---------------------------------------------------------------------------
  // Sorting and truncation

  /** Inserts `x` after every leading entry whose score is at least
      `x.score`; on a sorted list that keeps equal scores in arrival order. */
  function Insert(x: Entry, s: seq<Entry>): (r: seq<Entry>)
    ensures |r| == |s| + 1
  {
    if s == [] then [x]
    else if s[0].score >= x.score then [s[0]] + Insert(x, s[1..])
    else [x] + s
  }

  /** Insertion into a sorted list keeps it sorted. */
  lemma {:induction false} InsertSorted(x: Entry, s: seq<Entry>)
    requires Sorted(s)
    ensures Sorted(Insert(x, s))
    ensures Insert(x, s)[0] == x || Insert(x, s)[0] == s[0]
  {
    if s != [] {
      if s[0].score >= x.score {
        InsertSorted(x, s[1..]);
        SortedPrepend(s[0], Insert(x, s[1..]));
      } else {
        SortedPrepend(x, s);
      }
    }
  }

  /** Insertion adds `x` and loses nothing. */
  lemma {:induction false} InsertPermutes(x: Entry, s: seq<Entry>)
    requires Sorted(s)
    ensures multiset(Insert(x, s)) == multiset(s) + multiset{x}
  {
    if s != [] {
      assert s == [s[0]] + s[1..];
      if s[0].score >= x.score {
        InsertPermutes(x, s[1..]);
      }
    }
  }

  /** Stable sort by descending score. */
  function SortDesc(s: seq<Entry>): (r: seq<Entry>)
    ensures Sorted(r)
    ensures multiset(r) == multiset(s)
    ensures |r| == |s|
  {
    if s == [] then []
    else
      var init := s[..|s| - 1];
      assert s == init + [s[|s| - 1]];
      InsertPermutes(s[|s| - 1], SortDesc(init));
      InsertSorted(s[|s| - 1], SortDesc(init));
      Insert(s[|s| - 1], SortDesc(init))
  }

  /** The first `MaxEntries` entries. */
  function Truncate(s: seq<Entry>): (r: seq<Entry>)
    ensures |r| == if |s| < MaxEntries then |s| else MaxEntries
    ensures r <= s
  {
    if |s| <= MaxEntries then s else s[..MaxEntries]
  }

  /** The best `MaxEntries` entries of `s`, best first. */
  function Top(s: seq<Entry>): (r: seq<Entry>)
    ensures ValidBoard(r)
  {
    var sorted := SortDesc(s);
    SortedPrefix(sorted, |Truncate(sorted)|);
    assert Truncate(sorted) == sorted[..|Truncate(sorted)|];
    Truncate(sorted)
  }

  /** Truncating a sorted list keeps a sub-multiset, and nothing it drops
      outscores anything it keeps. */
  lemma TruncateKeepsBest(s: seq<Entry>)
    requires Sorted(s)
    ensures multiset(Truncate(s)) <= multiset(s)
    ensures forall x, y :: x in multiset(s) - multiset(Truncate(s)) && y in Truncate(s) ==> x.score <= y.score
  {
    var r := Truncate(s);
    var tail := s[|r|..];
    assert s == r + tail;
    assert multiset(s) - multiset(r) == multiset(tail);
    forall x, y | x in multiset(s) - multiset(r) && y in r
      ensures x.score <= y.score
    {
      assert x in tail;
      SplitOrdered(s, |r|, x, y);
    }
  }

  /** In a sorted list, nothing after a cut outscores anything before it. */
  lemma SplitOrdered(s: seq<Entry>, k: nat, x: Entry, y: Entry)
    requires Sorted(s) && k <= |s|
    requires x in s[k..] && y in s[..k]
    ensures x.score <= y.score
  {
    var i :| 0 <= i < |s| - k && s[k..][i] == x;
    var j :| 0 <= j < k && s[..k][j] == y;
    SortedPairwise(s, j, k + i);
  }

  // ---------------------------------------------------------------------------
  // Save and reset

  /** The board after saving `e` on top of the loaded list `loaded`, which
      need not be sorted or short. */
  function Save(loaded: seq<Entry>, e: Entry): (r: seq<Entry>)
    ensures ValidBoard(r)
    ensures |r| == if |loaded| + 1 < MaxEntries then |loaded| + 1 else MaxEntries
    ensures multiset(r) <= multiset(loaded + [e])
    ensures |loaded| < MaxEntries ==> e in r
  {
    var all := SortDesc(loaded + [e]);
    var r := Top(loaded + [e]);
    TruncateKeepsBest(all);
    assert |loaded| < MaxEntries ==> e in r by {
      if |loaded| < MaxEntries {
        assert r == all;
        assert e in multiset(all);
      }
    }
    r
  }

  /** What a save drops never outscores what it keeps. */
  lemma SaveDropsLowest(loaded: seq<Entry>, e: Entry, x: Entry, y: Entry)
    requires x in multiset(loaded + [e]) - multiset(Save(loaded, e))
    requires y in Save(loaded, e)
    ensures x.score <= y.score
  {
    TruncateKeepsBest(SortDesc(loaded + [e]));
  }

  /** A save invents nothing: every stored entry is a loaded one or the new one. */
  lemma SaveInventsNothing(loaded: seq<Entry>, e: Entry, x: Entry)
    requires x in Save(loaded, e)
    ensures x in loaded || x == e
  {
    assert x in multiset(Save(loaded, e));
    assert x in multiset(loaded + [e]);
  }

  /** `resetHighScores`: the stored board becomes empty. */
  function Reset(): (r: seq<Entry>)
    ensures ValidBoard(r)
    ensures r == []
  {
    []
  }

  /** The first save after a reset stores exactly the new entry. */
  lemma SaveAfterReset(e: Entry)
    ensures Save(Reset(), e) == [e]
  {
    SaveOnBoard([], e);
  }

  // ---------------------------------------------------------------------------
  // Tie order: the sort is stable, and it is the only stable sort

  /** Entries of `s` with the given score, in their order in `s`. */
  function WithScore(s: seq<Entry>, k: int): seq<Entry>
  {
    if s == [] then []
    else (if s[0].score == k then [s[0]] else []) + WithScore(s[1..], k)
  }

  lemma {:induction false} WithScoreAppend(a: seq<Entry>, b: seq<Entry>, k: int)
    ensures WithScore(a + b, k) == WithScore(a, k) + WithScore(b, k)
  {
    if a == [] {
      assert a + b == b;
    } else {
      var h, t := a[0], a[1..];
      var head := if h.score == k then [h] else [];
      assert a == [h] + t;
      assert a + b == [h] + (t + b);
      WithScoreCons(h, t + b, k);
      WithScoreCons(h, t, k);
      WithScoreAppend(t, b, k);
      assert head + (WithScore(t, k) + WithScore(b, k))
          == (head + WithScore(t, k)) + WithScore(b, k);
    }
  }

  lemma {:induction false} WithScoreNone(s: seq<Entry>, k: int)
    requires forall i :: 0 <= i < |s| ==> s[i].score != k
    ensures WithScore(s, k) == []
  {
    if s != [] {
      WithScoreNone(s[1..], k);
    }
  }

  lemma WithScoreHead(s: seq<Entry>)
    requires s != []
    ensures WithScore(s, s[0].score) != []
  {}

  lemma WithScoreCons(h: Entry, t: seq<Entry>, k: int)
    ensures WithScore([h] + t, k) == (if h.score == k then [h] else []) + WithScore(t, k)
  {
    assert ([h] + t)[1..] == t;
  }

  /** Insertion puts `x` after every entry of equal score. */
  lemma {:induction false} InsertStable(x: Entry, s: seq<Entry>, k: int)
    requires Sorted(s)
    ensures WithScore(Insert(x, s), k) == WithScore(s, k) + (if x.score == k then [x] else [])
  {
    if s == [] {
      WithScoreCons(x, [], k);
    } else if s[0].score >= x.score {
      SortedTail(s);
      InsertStable(x, s[1..], k);
      InsertStableBehind(x, s, k);
    } else {
      assert Insert(x, s) == [x] + s;
      InsertStableFront(x, s, k);
    }
  }

  /** An entry that does not outscore the head of a list goes behind it. */
  lemma InsertStableBehind(x: Entry, s: seq<Entry>, k: int)
    requires s != [] && s[0].score >= x.score
    requires WithScore(Insert(x, s[1..]), k) == WithScore(s[1..], k) + (if x.score == k then [x] else [])
    ensures WithScore(Insert(x, s), k) == WithScore(s, k) + (if x.score == k then [x] else [])
  {
    assert Insert(x, s) == [s[0]] + Insert(x, s[1..]);
    WithScoreCons(s[0], Insert(x, s[1..]), k);
    WithScoreCons(s[0], s[1..], k);
    assert [s[0]] + s[1..] == s;
  }

  /** An entry that outscores the whole of a sorted list, put in front of it. */
  lemma InsertStableFront(x: Entry, s: seq<Entry>, k: int)
    requires Sorted(s) && s != [] && s[0].score < x.score
    ensures WithScore([x] + s, k) == WithScore(s, k) + (if x.score == k then [x] else [])
  {
    WithScoreCons(x, s, k);
    if x.score == k {
      SortedBelowHead(s);
      WithScoreNone(s, k);
    } else {
      assert WithScore(s, k) + [] == WithScore(s, k);
    }
  }

  /** Sorting keeps entries of equal score in their original relative order. */
  lemma {:induction false} SortDescStable(s: seq<Entry>, k: int)
    ensures WithScore(SortDesc(s), k) == WithScore(s, k)
  {
    if s != [] {
      var init := s[..|s| - 1];
      var last := s[|s| - 1];
      var tail := if last.score == k then [last] else [];
      assert s == init + [last];
      assert SortDesc(s) == Insert(last, SortDesc(init));
      InsertStable(last, SortDesc(init), k);
      SortDescStable(init, k);
      assert WithScore(SortDesc(s), k) == WithScore(init, k) + tail;
      WithScoreAppend(init, [last], k);
      assert WithScore([last], k) == tail by {
        assert [last][1..] == [];
      }
    }
  }

  /** Two lists sorted by descending score that agree on the order of each
      score's entries are equal. */
  lemma {:induction false} SortedUnique(a: seq<Entry>, b: seq<Entry>)
    requires Sorted(a) && Sorted(b)
    requires forall k :: WithScore(a, k) == WithScore(b, k)
    ensures a == b
  {
    if a == [] || b == [] {
      if a != [] {
        WithScoreHead(a);
        assert false;
      } else if b != [] {
        WithScoreHead(b);
        assert false;
      }
    } else {
      var m := a[0].score;
      if b[0].score < m {
        SortedBelowHead(b);
        WithScoreNone(b, m);
        WithScoreHead(a);
        assert false;
      } else if b[0].score > m {
        SortedBelowHead(a);
        WithScoreNone(a, b[0].score);
        WithScoreHead(b);
        assert false;
      }
      assert WithScore(a, m)[0] == a[0] && WithScore(b, m)[0] == b[0];
      assert a[0] == b[0];
      forall k ensures WithScore(a[1..], k) == WithScore(b[1..], k) {
        var head := if a[0].score == k then [a[0]] else [];
        assert WithScore(a, k) == head + WithScore(a[1..], k);
        assert WithScore(b, k) == head + WithScore(b[1..], k);
        assert WithScore(a, k) == WithScore(b, k);
        assert WithScore(a[1..], k) == (head + WithScore(a[1..], k))[|head|..];
        assert WithScore(b[1..], k) == (head + WithScore(b[1..], k))[|head|..];
      }
      SortedUnique(a[1..], b[1..]);
      assert a == [a[0]] + a[1..] && b == [b[0]] + b[1..];
    }
  }

  /** Any stable sort by descending score produces exactly `SortDesc`'s output. */
  lemma StableSortIsSortDesc(s: seq<Entry>, r: seq<Entry>)
    requires Sorted(r)
    requires forall k :: WithScore(r, k) == WithScore(s, k)
    ensures r == SortDesc(s)
  {
    forall k ensures WithScore(r, k) == WithScore(SortDesc(s), k) {
      SortDescStable(s, k);
    }
    SortedUnique(r, SortDesc(s));
  }

  // ---------------------------------------------------------------------------
  // What a save does to a board

  /** Insertion places `x` exactly between the entries that score at least
      as much and those that score less. */
  lemma {:induction false} InsertAt(x: Entry, s: seq<Entry>, k: nat)
    requires Sorted(s)
    requires k <= |s|
    requires forall i :: 0 <= i < k ==> s[i].score >= x.score
    requires k == |s| || s[k].score < x.score
    ensures Insert(x, s) == s[..k] + [x] + s[k..]
  {
    if k == 0 {
      assert s[..0] == [] && s[0..] == s;
    } else {
      var t := s[1..];
      assert Insert(x, t) == t[..k - 1] + [x] + t[k - 1..] by {
        forall i | 0 <= i < k - 1 ensures t[i].score >= x.score {
          assert t[i] == s[i + 1];
        }
        assert k - 1 == |t| || t[k - 1] == s[k];
        InsertAt(x, t, k - 1);
      }
      assert Insert(x, s) == [s[0]] + Insert(x, t) by {
        assert s[0].score >= x.score;
      }
      SplitAfterHead(s, k, x);
    }
  }

  /** Splitting at `k` and putting `x` in the gap, seen from the tail. */
  lemma SplitAfterHead(s: seq<Entry>, k: nat, x: Entry)
    requires 0 < k <= |s|
    ensures [s[0]] + (s[1..][..k - 1] + [x] + s[1..][k - 1..]) == s[..k] + [x] + s[k..]
  {
    assert s[..k] == [s[0]] + s[1..][..k - 1];
    assert s[k..] == s[1..][k - 1..];
  }

  /** An entry scoring no more than everything in a sorted list goes last. */
  lemma InsertLast(x: Entry, s: seq<Entry>)
    requires Sorted(s)
    requires forall i :: 0 <= i < |s| ==> s[i].score >= x.score
    ensures Insert(x, s) == s + [x]
  {
    InsertAt(x, s, |s|);
    assert s[..|s|] == s && s[|s|..] == [];
  }

  /** Sorting a list that is already sorted leaves it unchanged. */
  lemma {:induction false} SortDescSorted(s: seq<Entry>)
    requires Sorted(s)
    ensures SortDesc(s) == s
  {
    if s != [] {
      var init := s[..|s| - 1];
      var last := s[|s| - 1];
      assert s == init + [last];
      SortedPrefix(s, |s| - 1);
      SortDescSorted(init);
      forall i | 0 <= i < |init| ensures init[i].score >= last.score {
        SortedPairwise(s, i, |s| - 1);
      }
      InsertLast(last, init);
      SortDescAppend(init, last);
    }
  }

  /** Re-saving leaves a stored board as it is: `Top` of a valid board is the board. */
  lemma TopOfValidBoard(b: seq<Entry>)
    requires ValidBoard(b)
    ensures Top(b) == b
  {
    SortDescSorted(b);
  }

  /** Sorting `loaded + [e]` is inserting `e` into the sorted `loaded`. */
  lemma SortDescAppend(loaded: seq<Entry>, e: Entry)
    ensures SortDesc(loaded + [e]) == Insert(e, SortDesc(loaded))
  {
    var s := loaded + [e];
    assert s[..|s| - 1] == loaded;
  }

  /** On a stored board, a save is an insertion followed by truncation. */
  lemma SaveOnBoard(b: seq<Entry>, e: Entry)
    requires Sorted(b)
    ensures Save(b, e) == Truncate(Insert(e, b))
  {
    SortDescAppend(b, e);
    SortDescSorted(b);
  }

  /** Inserting `x` leaves in place every leading entry that scores at least as much. */
  lemma {:induction false} InsertKeepsPrefix(x: Entry, s: seq<Entry>, k: nat)
    requires Sorted(s)
    requires k <= |s|
    requires forall i :: 0 <= i < k ==> s[i].score >= x.score
    ensures Insert(x, s)[..k] == s[..k]
  {
    if k > 0 {
      var t := s[1..];
      assert forall i :: 0 <= i < k - 1 ==> t[i].score >= x.score by {
        forall i | 0 <= i < k - 1 ensures t[i].score >= x.score {
          assert t[i] == s[i + 1];
        }
      }
      InsertKeepsPrefix(x, t, k - 1);
      assert s[0].score >= x.score;
      var r := Insert(x, t);
      assert Insert(x, s) == [s[0]] + r;
      assert ([s[0]] + r)[..k] == [s[0]] + r[..k - 1];
      assert s[..k] == [s[0]] + t[..k - 1];
    }
  }

  /** `x` lands within the first `k + 1` places when the entry at place `k`
      (if any) scores strictly less. */
  lemma {:induction false} InsertPlaces(x: Entry, s: seq<Entry>, k: nat)
    requires Sorted(s)
    requires k <= |s|
    requires k == |s| || s[k].score < x.score
    ensures x in Insert(x, s)[..k + 1]
  {
    if s != [] && s[0].score >= x.score {
      assert k > 0;
      InsertPlaces(x, s[1..], k - 1);
      assert Insert(x, s)[..k + 1] == [s[0]] + Insert(x, s[1..])[..k];
    } else {
      assert Insert(x, s)[0] == x;
    }
  }

  /** A save whose entry does not beat the fifth-best loaded score leaves the
      stored board exactly as the best five loaded entries (ties go to the
      older entries). */
  lemma SaveLowScore(loaded: seq<Entry>, e: Entry)
    requires |loaded| >= MaxEntries
    requires Top(loaded)[MaxEntries - 1].score >= e.score
    ensures Save(loaded, e) == Top(loaded)
  {
    var s := SortDesc(loaded);
    SortDescAppend(loaded, e);
    forall i | 0 <= i < MaxEntries ensures s[i].score >= e.score {
      SortedPairwise(s, i, MaxEntries - 1);
    }
    InsertKeepsPrefix(e, s, MaxEntries);
  }

  /** A save whose entry beats the fifth-best loaded score, or that finds
      fewer than five entries, puts the entry on the board. */
  lemma SaveHighScore(loaded: seq<Entry>, e: Entry)
    requires |loaded| < MaxEntries || Top(loaded)[MaxEntries - 1].score < e.score
    ensures e in Save(loaded, e)
  {
    var s := SortDesc(loaded);
    SortDescAppend(loaded, e);
    var k := if |s| < MaxEntries then |s| else MaxEntries - 1;
    InsertPlaces(e, s, k);
    assert Insert(e, s)[..k + 1] <= Save(loaded, e);
  }

  /** On a stored board, a save puts the entry after every entry that
      scores at least as much, then keeps the first five. */
  lemma SaveAt(b: seq<Entry>, e: Entry, k: nat)
    requires Sorted(b)
    requires k <= |b|
    requires forall i :: 0 <= i < k ==> b[i].score >= e.score
    requires k == |b| || b[k].score < e.score
    ensures Save(b, e) == Truncate(b[..k] + [e] + b[k..])
  {
    SaveOnBoard(b, e);
    InsertAt(e, b, k);
  }

  /** A board scoring 90, 70, 50, 30, 10 receives a 60: it lands third and
      the 10 leaves the board. */
  lemma SaveExample(a: Entry, b: Entry, c: Entry, d: Entry, e: Entry, f: Entry)
    requires a.score == 50 && b.score == 90 && c.score == 70
    requires d.score == 30 && e.score == 10 && f.score == 60
    ensures Save([b, c, a, d, e], f) == [b, c, f, a, d]
  {
    var s := [b, c, a, d, e];
    SortedByNeighbours(s);
    SaveAt(s, f, 2);
    SpliceExample(b, c, a, d, e, f);
  }

  /** The splice of `SaveExample`, kept apart so that no save is in view. */
  lemma SpliceExample(b: Entry, c: Entry, a: Entry, d: Entry, e: Entry, f: Entry)
    ensures Truncate([b, c, a, d, e][..2] + [f] + [b, c, a, d, e][2..]) == [b, c, f, a, d]
  {
    var s := [b, c, a, d, e];
    assert s[..2] == [b, c];
    assert s[2..] == [a, d, e];
    assert [b, c] + [f] + [a, d, e] == [b, c, f, a, d, e];
    assert [b, c, f, a, d, e][..5] == [b, c, f, a, d];
  }
}
