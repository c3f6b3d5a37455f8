/**
 Ranking of scored candidates: the list of `(id, content, similarity)`
 triples is sorted by similarity with a stable descending sort, and its head
 is taken as the winner. Similarities are treated as opaque, totally ordered
 values.
 */
module Ranking {

  /** One entry of the similarity list: document id, content and similarity. */
  datatype Scored = Scored(id: string, content: string, score: real)

  /** Every entry scores at least as high as every entry after it. */
  predicate SortedDescending(s: seq<Scored>) {
    forall i, j :: 0 <= i < j < |s| ==> s[i].score >= s[j].score
  }

  /**
   Index `i` is the winner of a "first maximum wins" selection: its score is
   maximal, and every earlier entry scores strictly lower.
   */
  predicate IsFirstMax(s: seq<Scored>, i: int) {
    && 0 <= i < |s|
    && (forall j :: 0 <= j < |s| ==> s[j].score <= s[i].score)
    && (forall j :: 0 <= j < i ==> s[j].score < s[i].score)
  }

  /** The entries whose score is exactly `k`, in their original order. */
  function WithScore(s: seq<Scored>, k: real): seq<Scored> {
    if |s| == 0 then []
    else (if s[0].score == k then [s[0]] else []) + WithScore(s[1..], k)
  }

  /**
   Inserts `x` in front of the first entry that scores no higher than it;
   `x` thus lands ahead of every entry it ties with.
   */
  function Insert(x: Scored, s: seq<Scored>): (r: seq<Scored>)
    ensures multiset(r) == multiset(s) + multiset{x}
  {
    if |s| == 0 then [x]
    else if x.score >= s[0].score then [x] + s
    else
      assert s == [s[0]] + s[1..];
      [s[0]] + Insert(x, s[1..])
  }

  /** Putting an entry that outscores a sorted list in front keeps it sorted. */
  lemma SortedCons(h: Scored, t: seq<Scored>)
    requires SortedDescending(t)
    requires forall k :: 0 <= k < |t| ==> t[k].score <= h.score
    ensures SortedDescending([h] + t)
  {
    var r := [h] + t;
    forall i, j | 0 <= i < j < |r|
      ensures r[i].score >= r[j].score
    {
      assert r[j] == t[j - 1];
    }
  }

  /** Insertion into a sorted list yields a sorted list. */
  lemma {:induction false} InsertSorted(x: Scored, s: seq<Scored>)
    requires SortedDescending(s)
    ensures SortedDescending(Insert(x, s))
  {
    if |s| == 0 {
    } else if x.score >= s[0].score {
      SortedCons(x, s);
    } else {
      var rest := Insert(x, s[1..]);
      InsertSorted(x, s[1..]);
      forall k | 0 <= k < |rest|
        ensures rest[k].score <= s[0].score
      {
        assert rest[k] in multiset(rest);
        if rest[k] != x {
          var m :| 0 <= m < |s[1..]| && s[1..][m] == rest[k];
          assert s[m + 1] == rest[k];
        }
      }
      SortedCons(s[0], rest);
    }
  }

  /**
   The model of `list.sort(key=score, reverse=True)`: an insertion sort that
   inserts each entry ahead of the later entries it ties with.
   */
  function SortDescending(s: seq<Scored>): (r: seq<Scored>)
    ensures multiset(r) == multiset(s)
    ensures |r| == |s|
    ensures SortedDescending(r)
  {
    if |s| == 0 then []
    else
      assert s == [s[0]] + s[1..];
      InsertSorted(s[0], SortDescending(s[1..]));
      Insert(s[0], SortDescending(s[1..]))
  }

  /** One step of `WithScore`: the first entry is kept exactly when it scores `k`. */
  lemma WithScoreCons(y: Scored, t: seq<Scored>, k: real)
    ensures WithScore([y] + t, k) == (if y.score == k then [y] else []) + WithScore(t, k)
  {
    assert ([y] + t)[0] == y;
    assert ([y] + t)[1..] == t;
  }

  /** Inserting `x` puts it first among the entries of its own score. */
  lemma {:induction false} InsertWithScore(x: Scored, s: seq<Scored>, k: real)
    ensures WithScore(Insert(x, s), k) == WithScore([x], k) + WithScore(s, k)
  {
    var hx := if x.score == k then [x] else [];
    WithScoreCons(x, [], k);
    assert [x] + [] == [x];
    if |s| == 0 {
    } else if x.score >= s[0].score {
      WithScoreCons(x, s, k);
    } else {
      var h0 := if s[0].score == k then [s[0]] else [];
      calc {
        WithScore(Insert(x, s), k);
        WithScore([s[0]] + Insert(x, s[1..]), k);
        { WithScoreCons(s[0], Insert(x, s[1..]), k); }
        h0 + WithScore(Insert(x, s[1..]), k);
        { InsertWithScore(x, s[1..], k); }
        h0 + (hx + WithScore(s[1..], k));
        // `x` scores below `s[0]`, so at most one of `h0`, `hx` is non-empty
        hx + (h0 + WithScore(s[1..], k));
        { WithScoreCons(s[0], s[1..], k); assert [s[0]] + s[1..] == s; }
        hx + WithScore(s, k);
      }
    }
  }

  /**
   The sort is stable: for every score, the entries with that score appear
   in the same order before and after sorting.
   */
  lemma {:induction false} SortIsStable(s: seq<Scored>, k: real)
    ensures WithScore(SortDescending(s), k) == WithScore(s, k)
  {
    if |s| > 0 {
      SortIsStable(s[1..], k);
      InsertWithScore(s[0], SortDescending(s[1..]), k);
      assert WithScore([s[0]], k) == (if s[0].score == k then [s[0]] else []) by {
        assert [s[0]][1..] == [];
      }
    }
  }

  /** Entries before the first one scoring `k` do not contribute to `WithScore`. */
  lemma {:induction false} WithScoreFrom(s: seq<Scored>, i: nat, k: real)
    requires i < |s| && s[i].score == k
    requires forall j :: 0 <= j < i ==> s[j].score != k
    ensures |WithScore(s, k)| > 0 && WithScore(s, k)[0] == s[i]
  {
    if i > 0 {
      WithScoreFrom(s[1..], i - 1, k);
    }
  }

  /** A reference "first maximum wins" scan, by recursion on the tail. */
  function FirstMaxIndex(s: seq<Scored>): (i: nat)
    requires |s| > 0
    ensures IsFirstMax(s, i)
  {
    if |s| == 1 then 0
    else
      var j := 1 + FirstMaxIndex(s[1..]);
      if s[0].score >= s[j].score then 0 else j
  }

  /** There is exactly one first maximum. */
  lemma FirstMaxUnique(s: seq<Scored>, i: int, j: int)
    requires IsFirstMax(s, i) && IsFirstMax(s, j)
    ensures i == j
  {
    assert s[i].score == s[j].score;
  }

  /**
   The head of the stable descending sort is the first maximum of the
   unsorted list: sorting then taking element 0 is a first-max argmax.
   */
  lemma SortHeadIsFirstMax(s: seq<Scored>, i: int)
    requires IsFirstMax(s, i)
    ensures |SortDescending(s)| == |s| && SortDescending(s)[0] == s[i]
  {
    var r := SortDescending(s);
    var m := s[i].score;
    assert r[0].score == m by {
      assert r[0] in multiset(s);
      var a :| 0 <= a < |s| && s[a] == r[0];
      assert s[i] in multiset(r);
      var b :| 0 <= b < |r| && r[b] == s[i];
      assert r[0].score >= r[b].score;
    }
    WithScoreFrom(r, 0, m);
    WithScoreFrom(s, i, m);
    SortIsStable(s, m);
  }

  /**
   When no two entries tie, the winner does not depend on the order in which
   the candidates are listed.
   */
  lemma WinnerIndependentOfOrder(s: seq<Scored>, t: seq<Scored>)
    requires |s| > 0
    requires multiset(s) == multiset(t)
    requires forall a, b :: 0 <= a < b < |s| ==> s[a].score != s[b].score
    ensures |t| == |s| && SortDescending(s)[0] == SortDescending(t)[0]
  {
    var rs := SortDescending(s);
    var rt := SortDescending(t);
    assert |t| == |s| by {
      assert |multiset(t)| == |multiset(s)|;
    }
    assert rs[0] in multiset(s);
    assert rt[0] in multiset(s);
    var a :| 0 <= a < |s| && s[a] == rs[0];
    var b :| 0 <= b < |s| && s[b] == rt[0];
    assert rs[0].score == rt[0].score by {
      assert rt[0] in multiset(rs);
      var c :| 0 <= c < |rs| && rs[c] == rt[0];
      assert rs[0] in multiset(rt);
      var d :| 0 <= d < |rt| && rt[d] == rs[0];
    }
  }
}
