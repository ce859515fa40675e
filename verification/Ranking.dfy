/**
Filter-then-sort queries, as the repositories write them: keep the rows that match, sort them by
a key with Python's stable sort, and return the front of the list.

A query is given by one mark per row: None for a row it leaves out, Some(key) for one it keeps.
Its answer is the list of kept positions. A row keeps its position for the whole life of the
table, so the position is the row's identity.
*/
module Ranking {
  import opened Common

  /** A sort key of up to three integers, compared like a Python tuple. */
  datatype Key = Key(first: int, second: int, third: int)

  type Marks = seq<Option<Key>>

  predicate Less(a: Key, b: Key) {
    || a.first < b.first
    || (a.first == b.first && a.second < b.second)
    || (a.first == b.first && a.second == b.second && a.third < b.third)
  }

  predicate Kept(m: Marks, p: nat) {
    p < |m| && m[p].Some?
  }

  /** Position p comes before q: smaller key, or equal keys and inserted earlier. */
  predicate Precedes(m: Marks, p: nat, q: nat)
    requires Kept(m, p) && Kept(m, q)
  {
    Less(m[p].value, m[q].value) || (m[p] == m[q] && p < q)
  }

  ghost predicate Sorted(m: Marks, r: seq<nat>) {
    && (forall a :: 0 <= a < |r| ==> Kept(m, r[a]))
    && (forall a, b :: 0 <= a < b < |r| ==> Precedes(m, r[a], r[b]))
  }

  /** What a stable sort of the kept rows means, without saying how it is computed. */
  ghost predicate IsRanking(m: Marks, r: seq<nat>) {
    && Sorted(m, r)
    && (forall p: nat :: Kept(m, p) ==> p in r)
  }

  function KeyAt(m: Marks, p: nat): Key {
    if Kept(m, p) then m[p].value else Key(0, 0, 0)
  }

  /** Inserts row p behind every row whose key is not larger. */
  function Insert(m: Marks, r: seq<nat>, p: nat): seq<nat> {
    var last := |r| - 1;
    if r == [] || !Less(KeyAt(m, p), KeyAt(m, r[last])) then r + [p]
    else Insert(m, r[..last], p) + [r[last]]
  }

  /** The kept positions in stable sorted order. */
  function Ranked(m: Marks): seq<nat> {
    if m == [] then []
    else
      var n := |m| - 1;
      if m[n].None? then Ranked(m[..n]) else Insert(m, Ranked(m[..n]), n)
  }

  lemma {:induction false} InsertSorted(m: Marks, r: seq<nat>, p: nat)
    requires Kept(m, p) && Sorted(m, r)
    requires forall a :: 0 <= a < |r| ==> r[a] < p
    ensures Sorted(m, Insert(m, r, p))
    ensures forall q: nat :: q in Insert(m, r, p) <==> q in r || q == p
    ensures |Insert(m, r, p)| == |r| + 1
  {
    var last := |r| - 1;
    if r != [] && Less(m[p].value, m[r[last]].value) {
      InsertSorted(m, r[..last], p);
      var s := Insert(m, r[..last], p);
      assert r == r[..last] + [r[last]];
      assert forall q: nat :: q in r <==> q in r[..last] || q == r[last];
      assert forall a :: 0 <= a < |s| ==> s[a] in s;
    }
  }

  lemma SortedLonger(m: Marks, n: nat, r: seq<nat>)
    requires n <= |m| && Sorted(m[..n], r)
    ensures Sorted(m, r) && forall a :: 0 <= a < |r| ==> r[a] < n
  {
    assert forall a :: 0 <= a < |r| ==> Kept(m[..n], r[a]) && m[r[a]] == m[..n][r[a]];
    assert forall a, b :: 0 <= a < b < |r| ==> Precedes(m[..n], r[a], r[b]);
  }

  /** The answer is the ranking, with one entry for every kept row. */
  lemma {:induction false} RankedIsRanking(m: Marks)
    ensures IsRanking(m, Ranked(m))
    ensures forall p: nat :: p in Ranked(m) <==> Kept(m, p)
  {
    if m != [] {
      var n := |m| - 1;
      var r := Ranked(m[..n]);
      RankedIsRanking(m[..n]);
      SortedLonger(m, n, r);
      forall p: nat ensures p in r <==> p < n && Kept(m, p) {
        assert p in r <==> Kept(m[..n], p);
      }
      if m[n].Some? {
        InsertSorted(m, r, n);
      }
    }
  }

  lemma RankedInRange(m: Marks)
    ensures forall a :: 0 <= a < |Ranked(m)| ==> Ranked(m)[a] < |m|
  {
    RankedIsRanking(m);
    assert forall a :: 0 <= a < |Ranked(m)| ==> Kept(m, Ranked(m)[a]);
  }

  lemma {:induction false} SameRanking(m: Marks, r: seq<nat>, s: seq<nat>)
    requires Sorted(m, r) && Sorted(m, s)
    requires forall p: nat :: p in r <==> p in s
    ensures r == s
  {
    if r == [] {
      assert forall a :: 0 <= a < |s| ==> s[a] in s;
    } else {
      assert r[0] in s;
      assert s[0] in r;
      var b :| 0 <= b < |s| && s[b] == r[0];
      var a :| 0 <= a < |r| && r[a] == s[0];
      assert r[0] == s[0];
      forall p: nat ensures p in r[1..] <==> p in s[1..] {
        if p in r[1..] {
          assert p in r && p != r[0];
        }
        if p in s[1..] {
          assert p in s && p != s[0];
        }
      }
      SameRanking(m, r[1..], s[1..]);
      assert r == [r[0]] + r[1..] && s == [s[0]] + s[1..];
    }
  }

  /** A stable sort has one possible answer. */
  lemma RankingUnique(m: Marks, r: seq<nat>)
    requires IsRanking(m, r)
    ensures r == Ranked(m)
  {
    RankedIsRanking(m);
    forall p: nat ensures p in r <==> p in Ranked(m) {
      if p in r {
        assert Kept(m, p);
      }
    }
    SameRanking(m, r, Ranked(m));
  }

  /** The kept rows that come before row p. */
  ghost function Before(m: Marks, p: nat): set<nat>
    requires Kept(m, p)
  {
    set q: nat | q < |m| && Kept(m, q) && Precedes(m, q, p)
  }

  /** The answer at place a has a rows before it. */
  lemma RankedPlace(m: Marks, a: nat)
    requires a < |Ranked(m)|
    ensures Kept(m, Ranked(m)[a]) && |Before(m, Ranked(m)[a])| == a
  {
    var r := Ranked(m);
    RankedIsRanking(m);
    hide Ranked;
    assert NoRepeats(r) by {
      forall j, k | 0 <= j < k < |r| ensures r[j] != r[k] {
        assert Precedes(m, r[j], r[k]);
      }
    }
    assert Kept(m, r[a]);
    assert forall b :: a <= b < |r| ==> !Precedes(m, r[b], r[a]);
    forall q: nat ensures q in Before(m, r[a]) <==> q in SetOf(r[..a]) {
      if q in Before(m, r[a]) {
        assert q in r;
        var b :| 0 <= b < |r| && r[b] == q;
        assert r[..a][b] == q;
      }
      if q in r[..a] {
        var b :| 0 <= b < a && r[b] == q;
        assert Precedes(m, r[b], r[a]);
      }
    }
    assert Before(m, r[a]) == SetOf(r[..a]);
    SetOfSize(r[..a]);
  }

  lemma SortedDistinct(m: Marks, r: seq<nat>, k: nat)
    requires Sorted(m, r) && k <= |r|
    ensures forall a :: k <= a < |r| ==> r[a] !in r[..k]
  {
    forall a, b | 0 <= b < k <= a < |r| ensures r[a] != r[b] {
      assert Precedes(m, r[b], r[a]);
    }
  }

  lemma RestSorted(m: Marks, r: seq<nat>, k: nat, m': Marks)
    requires Sorted(m, r) && k <= |r| && |m'| == |m|
    requires forall a :: k <= a < |r| ==> r[a] !in r[..k]
    requires forall p :: 0 <= p < |m| && p !in r[..k] ==> m'[p] == m[p]
    ensures Sorted(m', r[k..])
  {
    var s := r[k..];
    forall a | 0 <= a < |s| ensures Kept(m', s[a]) && m'[s[a]] == m[s[a]] {
      assert s[a] == r[k + a] && Kept(m, r[k + a]);
    }
    forall a, b | 0 <= a < b < |s| ensures Precedes(m', s[a], s[b]) {
      assert s[a] == r[k + a] && s[b] == r[k + b];
      assert Precedes(m, r[k + a], r[k + b]);
    }
  }

  /** Dropping the first k answers from the query leaves the rest, in the same order. */
  lemma RankedDrop(m: Marks, k: nat, m': Marks)
    requires k <= |Ranked(m)| && |m'| == |m|
    requires forall p :: 0 <= p < |m| ==> m'[p] == if p in Ranked(m)[..k] then None else m[p]
    ensures Ranked(m') == Ranked(m)[k..]
  {
    var r := Ranked(m);
    var s := r[k..];
    RankedIsRanking(m);
    hide Ranked;
    SortedDistinct(m, r, k);
    assert Sorted(m', s) by {
      RestSorted(m, r, k, m');
    }
    forall p: nat | Kept(m', p) ensures p in s {
      assert Kept(m, p) && p in r;
      var a :| 0 <= a < |r| && r[a] == p;
      assert a >= k;
      assert s[a - k] == p;
    }
    RankingUnique(m', s);
  }

  /** A truncated answer keeps the front: nothing left out comes before anything taken. */
  lemma RankedFront(m: Marks, k: nat, p: nat, q: nat)
    requires k <= |Ranked(m)| && p in Ranked(m)[..k] && Kept(m, q) && q !in Ranked(m)[..k]
    ensures Kept(m, p) && Precedes(m, p, q)
  {
    var r := Ranked(m);
    RankedIsRanking(m);
    var a :| 0 <= a < k && r[a] == p;
    var b :| 0 <= b < |r| && r[b] == q;
    assert forall c :: 0 <= c < k ==> r[c] in r[..k];
    assert b >= k;
    assert Precedes(m, r[a], r[b]);
  }

  /** The first answer comes before every other kept row. */
  lemma RankedHead(m: Marks, p: nat)
    requires Kept(m, p)
    ensures Ranked(m) != [] && Kept(m, Ranked(m)[0])
    ensures Ranked(m)[0] == p || Precedes(m, Ranked(m)[0], p)
  {
    RankedIsRanking(m);
    assert p in Ranked(m);
    var a :| 0 <= a < |Ranked(m)| && Ranked(m)[a] == p;
  }

  /** A row before which no other kept row comes is the first answer. */
  lemma RankedHeadIs(m: Marks, p: nat)
    requires Kept(m, p)
    requires forall q: nat :: Kept(m, q) && q != p ==> Precedes(m, p, q)
    ensures Ranked(m) != [] && Ranked(m)[0] == p
  {
    RankedHead(m, p);
  }

  lemma RankedEmpty(m: Marks)
    ensures Ranked(m) == [] <==> forall p: nat :: p < |m| ==> m[p].None?
    ensures Ranked(m) != [] ==> Kept(m, Ranked(m)[0])
  {
    RankedIsRanking(m);
    if Ranked(m) == [] {
      forall p: nat | p < |m| ensures m[p].None? {
        if m[p].Some? {
          RankedHead(m, p);
        }
      }
    }
  }

  /** The answer has one entry for every kept row. */
  lemma {:induction false} RankedLength(m: Marks, kept: seq<bool>)
    requires |kept| == |m| && forall p :: 0 <= p < |m| ==> kept[p] == m[p].Some?
    ensures |Ranked(m)| == Count(kept)
  {
    if m != [] {
      var n := |m| - 1;
      RankedLength(m[..n], kept[..n]);
      RankedIsRanking(m[..n]);
      SortedLonger(m, n, Ranked(m[..n]));
      if m[n].Some? {
        InsertSorted(m, Ranked(m[..n]), n);
      }
    }
  }
}
