/** Ranking one row of the similarity matrix: pair every catalogue position
    with its score, then sort the pairs by score, highest first, with a
    stable sort, so that equal scores keep their ascending position order. */
module Ranking {

  /** A catalogue position paired with its similarity score. */
  datatype Scored = Scored(index: nat, score: real)

  /** `list(enumerate(row))`: every position paired with its score, in position order. */
  function Enumerate(row: seq<real>): (r: seq<Scored>)
    ensures |r| == |row|
    ensures forall i :: 0 <= i < |r| ==> r[i].index == i && r[i].score == row[i]
    ensures IndicesAscending(r)
  {
    seq(|row|, i requires 0 <= i < |row| => Scored(i, row[i]))
  }

  /** `a` is placed before `b`: a higher score, or an equal score at a lower position. */
  predicate Precedes(a: Scored, b: Scored)
  {
    a.score > b.score || (a.score == b.score && a.index < b.index)
  }

  /** Every pair precedes every later pair. */
  predicate Ordered(s: seq<Scored>)
  {
    forall j, k :: 0 <= j < k < |s| ==> Precedes(s[j], s[k])
  }

  /** Positions strictly increase along `s`, as they do along `enumerate`'s output. */
  predicate IndicesAscending(s: seq<Scored>)
  {
    forall j, k :: 0 <= j < k < |s| ==> s[j].index < s[k].index
  }

  /** Some pair of `s` sits at catalogue position `i`. */
  predicate HasIndex(s: seq<Scored>, i: nat)
  {
    exists k :: 0 <= k < |s| && s[k].index == i
  }

  /** Inserts `p` in front of the first pair whose score does not exceed its own. */
  function Insert(p: Scored, s: seq<Scored>): (r: seq<Scored>)
    ensures multiset(r) == multiset(s) + multiset{p}
  {
    if |s| == 0 then [p]
    else if s[0].score > p.score then
      assert s == [s[0]] + s[1..];
      [s[0]] + Insert(p, s[1..])
    else
      [p] + s
  }

  /** Inserting a pair whose position is below every position of an ordered
      sequence keeps it ordered. */
  lemma {:induction false} InsertOrdered(p: Scored, s: seq<Scored>)
    requires Ordered(s)
    requires forall k :: 0 <= k < |s| ==> p.index < s[k].index
    ensures Ordered(Insert(p, s))
  {
    if |s| > 0 {
      var r := Insert(p, s);
      if s[0].score > p.score {
        var rest := Insert(p, s[1..]);
        InsertOrdered(p, s[1..]);
        forall k | 0 <= k < |rest|
          ensures Precedes(s[0], rest[k])
        {
          assert rest[k] in multiset(rest);
          if rest[k] != p {
            assert rest[k] in multiset(s[1..]);
            var m :| 0 <= m < |s[1..]| && s[1..][m] == rest[k];
            assert s[1..][m] == s[m + 1];
          }
        }
      } else {
        forall k | 0 <= k < |s|
          ensures Precedes(p, s[k])
        {
          if k > 0 {
            assert Precedes(s[0], s[k]);
          }
        }
      }
    }
  }

  /** Rearranging pairs keeps every position above a bound that all of them were above. */
  lemma PositionsAbove(bound: nat, s: seq<Scored>, t: seq<Scored>)
    requires forall k :: 0 <= k < |s| ==> bound < s[k].index
    requires multiset(t) == multiset(s)
    ensures forall k :: 0 <= k < |t| ==> bound < t[k].index
  {
    forall k | 0 <= k < |t|
      ensures bound < t[k].index
    {
      assert t[k] in multiset(s);
      var m :| 0 <= m < |s| && s[m] == t[k];
    }
  }

  /** Dropping the first pair of a sequence with ascending positions leaves
      ascending positions, all above the dropped one. */
  lemma AscendingTail(s: seq<Scored>)
    requires IndicesAscending(s) && |s| > 0
    ensures IndicesAscending(s[1..])
    ensures forall k :: 0 <= k < |s[1..]| ==> s[0].index < s[1..][k].index
  {
    forall k | 0 <= k < |s[1..]|
      ensures s[0].index < s[1..][k].index
    {
      assert s[1..][k] == s[k + 1];
    }
  }

  /** Python's `sorted(pairs, key=score, reverse=True)` for pairs whose positions
      ascend: a stable insertion sort, each pair going in front of the ones
      that do not outscore it. */
  function SortByScore(s: seq<Scored>): (r: seq<Scored>)
    requires IndicesAscending(s)
    ensures multiset(r) == multiset(s)
    ensures Ordered(r)
  {
    if |s| == 0 then []
    else
      AscendingTail(s);
      var rest := SortByScore(s[1..]);
      PositionsAbove(s[0].index, s[1..], rest);
      InsertOrdered(s[0], rest);
      assert s == [s[0]] + s[1..];
      Insert(s[0], rest)
  }

  /** A rearrangement of `enumerate(row)` has one pair per position of the
      row, each carrying a valid position and that position's score. */
  lemma EnumeratePermutation(row: seq<real>, r: seq<Scored>)
    requires multiset(r) == multiset(Enumerate(row))
    ensures |r| == |row|
    ensures forall k :: 0 <= k < |r| ==> r[k].index < |row| && r[k].score == row[r[k].index]
  {
    var e := Enumerate(row);
    assert |r| == |multiset(r)| == |multiset(e)| == |row|;
    forall k | 0 <= k < |r|
      ensures r[k].index < |row| && r[k].score == row[r[k].index]
    {
      assert r[k] in multiset(e);
      var i :| 0 <= i < |e| && e[i] == r[k];
    }
  }

  /** `sorted(list(enumerate(row)), key=lambda x: x[1], reverse=True)`. */
  function RankByScore(row: seq<real>): (r: seq<Scored>)
    ensures multiset(r) == multiset(Enumerate(row))
    ensures Ordered(r)
    ensures |r| == |row|
    ensures forall k :: 0 <= k < |r| ==> r[k].index < |row| && r[k].score == row[r[k].index]
  {
    var r := SortByScore(Enumerate(row));
    EnumeratePermutation(row, r);
    r
  }

  /** Two ordered sequences holding the same pairs start with the same pair:
      each one's first pair precedes every other pair of the other. */
  lemma HeadsEqual(a: seq<Scored>, b: seq<Scored>)
    requires multiset(a) == multiset(b)
    requires Ordered(a) && Ordered(b)
    requires |a| > 0
    ensures |b| > 0 && a[0] == b[0]
  {
    assert a[0] in multiset(b);
    var i :| 0 <= i < |b| && b[i] == a[0];
    assert b[0] in multiset(a);
    var j :| 0 <= j < |a| && a[j] == b[0];
    if i != 0 {
      assert false;
    }
  }

  /** Two ordered sequences holding the same pairs are equal: the order is
      determined by the pairs alone. */
  lemma {:induction false} OrderedPermutationsEqual(a: seq<Scored>, b: seq<Scored>)
    requires multiset(a) == multiset(b)
    requires Ordered(a) && Ordered(b)
    ensures a == b
  {
    if |a| == 0 {
      assert |b| == |multiset(b)| == 0;
    } else {
      HeadsEqual(a, b);
      assert a == [a[0]] + a[1..];
      assert b == [b[0]] + b[1..];
      assert multiset(a[1..]) == multiset(a) - multiset{a[0]};
      assert multiset(b[1..]) == multiset(b) - multiset{b[0]};
      assert Ordered(a[1..]) by {
        forall j, k | 0 <= j < k < |a[1..]| ensures Precedes(a[1..][j], a[1..][k]) {
          assert a[1..][j] == a[j + 1] && a[1..][k] == a[k + 1];
        }
      }
      assert Ordered(b[1..]) by {
        forall j, k | 0 <= j < k < |b[1..]| ensures Precedes(b[1..][j], b[1..][k]) {
          assert b[1..][j] == b[j + 1] && b[1..][k] == b[k + 1];
        }
      }
      OrderedPermutationsEqual(a[1..], b[1..]);
    }
  }

  /** The ranking is the only ordered arrangement of the row's pairs, so any
      stable descending sort of `enumerate(row)` produces exactly it. */
  lemma RankingIsUnique(row: seq<real>, other: seq<Scored>)
    requires multiset(other) == multiset(Enumerate(row))
    requires Ordered(other)
    ensures other == RankByScore(row)
  {
    OrderedPermutationsEqual(other, RankByScore(row));
  }

  /** What the ranking of a row is: every position exactly once, each with its
      own score, scores non-increasing, and equal scores in ascending position order. */
  lemma RankingProperties(row: seq<real>)
    ensures |RankByScore(row)| == |row|
    ensures forall k :: 0 <= k < |RankByScore(row)| ==>
              RankByScore(row)[k].index < |row| && RankByScore(row)[k].score == row[RankByScore(row)[k].index]
    ensures forall i :: 0 <= i < |row| ==> HasIndex(RankByScore(row), i)
    ensures forall j, k :: 0 <= j < k < |row| ==> RankByScore(row)[j].index != RankByScore(row)[k].index
    ensures forall j, k :: 0 <= j < k < |row| ==> RankByScore(row)[j].score >= RankByScore(row)[k].score
    ensures forall j, k :: 0 <= j < k < |row| && RankByScore(row)[j].score == RankByScore(row)[k].score ==>
              RankByScore(row)[j].index < RankByScore(row)[k].index
  {
    var r := RankByScore(row);
    var e := Enumerate(row);
    forall i | 0 <= i < |row|
      ensures HasIndex(r, i)
    {
      assert e[i] in multiset(r);
      var k :| 0 <= k < |r| && r[k] == e[i];
    }
  }

  /** The first pair of a non-empty ranking holds the row's maximum score, and
      no lower position reaches that score. */
  lemma TopIsFirstMaximum(row: seq<real>)
    requires |row| > 0
    ensures |RankByScore(row)| == |row| && RankByScore(row)[0].index < |row|
    ensures forall i :: 0 <= i < |row| ==> row[i] <= RankByScore(row)[0].score
    ensures forall i :: 0 <= i < RankByScore(row)[0].index ==> row[i] < RankByScore(row)[0].score
  {
    var r := RankByScore(row);
    RankingProperties(row);
    forall i | 0 <= i < |row|
      ensures row[i] <= r[0].score
      ensures i < r[0].index ==> row[i] < r[0].score
    {
      assert HasIndex(r, i);
      var k :| 0 <= k < |row| && r[k].index == i;
      if k != 0 {
        assert Precedes(r[0], r[k]);
      }
    }
  }

  /** When position `m` scores highest in its own row (self-similarity is
      maximal), `m` is ranked first exactly when every lower position scores
      strictly less than it. */
  lemma SelfRankedFirst(row: seq<real>, m: nat)
    requires m < |row|
    requires forall i :: 0 <= i < |row| ==> row[i] <= row[m]
    ensures RankByScore(row)[0].index == m <==> forall i :: 0 <= i < m ==> row[i] < row[m]
  {
    var r := RankByScore(row);
    RankingProperties(row);
    TopIsFirstMaximum(row);
    assert r[0].score == row[m];
  }
}
