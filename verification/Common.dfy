/** Shared result types, and counting over rows marked true or false. */
module Common {
  datatype Option<+T> = None | Some(value: T)

  datatype Result<+T, +E> = Ok(value: T) | Err(error: E)

  /** The number of true entries: Python's `sum(1 for row in rows if ...)`. */
  function Count(flags: seq<bool>): (n: nat)
    ensures n <= |flags|
  {
    if flags == [] then 0
    else Count(flags[..|flags| - 1]) + if flags[|flags| - 1] then 1 else 0
  }

  lemma CountAppend(flags: seq<bool>, b: bool)
    ensures Count(flags + [b]) == Count(flags) + if b then 1 else 0
  {
    assert (flags + [b])[..|flags|] == flags;
  }

  /** Rows marked in `whole` are shared out between `left` and `right`. */
  lemma {:induction false} CountSplit(whole: seq<bool>, left: seq<bool>, right: seq<bool>)
    requires |whole| == |left| == |right|
    requires forall i :: 0 <= i < |whole| ==> whole[i] == (left[i] || right[i])
    requires forall i :: 0 <= i < |whole| ==> !(left[i] && right[i])
    ensures Count(whole) == Count(left) + Count(right)
  {
    var n := |whole| - 1;
    if whole != [] {
      CountSplit(whole[..n], left[..n], right[..n]);
    }
  }

  lemma {:induction false} CountMonotone(less: seq<bool>, more: seq<bool>)
    requires |less| <= |more|
    requires forall i :: 0 <= i < |less| ==> less[i] ==> more[i]
    ensures Count(less) <= Count(more)
  {
    var n := |more| - 1;
    if less == [] {
    } else if |less| == |more| {
      CountMonotone(less[..n], more[..n]);
    } else {
      CountMonotone(less, more[..n]);
    }
  }

  lemma {:induction false} CountUpdate(flags: seq<bool>, i: nat, b: bool)
    requires i < |flags|
    ensures Count(flags[i := b])
         == Count(flags) - (if flags[i] then 1 else 0) + (if b then 1 else 0)
  {
    var n := |flags| - 1;
    if i < n {
      CountUpdate(flags[..n], i, b);
      assert flags[i := b][..n] == flags[..n][i := b];
    } else {
      assert flags[i := b][..n] == flags[..n];
    }
  }

  lemma {:induction false} CountZero(flags: seq<bool>)
    ensures Count(flags) == 0 <==> forall i :: 0 <= i < |flags| ==> !flags[i]
  {
    var n := |flags| - 1;
    if flags != [] {
      CountZero(flags[..n]);
      if Count(flags) == 0 {
        assert forall i :: 0 <= i < n ==> flags[i] == flags[..n][i];
      } else if !flags[n] {
        assert exists i :: 0 <= i < n && flags[..n][i];
      }
    }
  }

  /** The places marked true. */
  ghost function Marked(flags: seq<bool>): set<nat> {
    set i: nat | i < |flags| && flags[i]
  }

  lemma MarkedMore(flags: seq<bool>, n: nat)
    requires |flags| == n + 1
    ensures Marked(flags) == Marked(flags[..n]) + if flags[n] then {n} else {}
    ensures n !in Marked(flags[..n])
  {
    assert forall i: nat :: i < n ==> flags[i] == flags[..n][i];
  }

  /** Counting flags counts their places. */
  lemma {:induction false} CountIsSize(flags: seq<bool>)
    ensures Count(flags) == |Marked(flags)|
  {
    if flags == [] {
      assert Marked(flags) == {};
    } else {
      var n := |flags| - 1;
      CountIsSize(flags[..n]);
      MarkedMore(flags, n);
    }
  }

  ghost predicate NoRepeats(r: seq<nat>) {
    forall j, k :: 0 <= j < k < |r| ==> r[j] != r[k]
  }

  function SetOf(r: seq<nat>): set<nat> {
    set i | i in r
  }

  lemma {:induction false} SetOfSize(r: seq<nat>)
    requires NoRepeats(r)
    ensures |SetOf(r)| == |r|
  {
    if r != [] {
      var k := |r| - 1;
      SetOfSize(r[..k]);
      assert r == r[..k] + [r[k]];
      assert SetOf(r) == SetOf(r[..k]) + {r[k]};
      assert r[k] !in SetOf(r[..k]);
    }
  }

  function Picked(r: seq<nat>, flags: seq<bool>): (f: seq<bool>)
    requires forall k :: 0 <= k < |r| ==> r[k] < |flags|
    ensures |f| == |r|
  {
    seq(|r|, k requires 0 <= k < |r| => flags[r[k]])
  }

  ghost function Among(r: seq<nat>, flags: seq<bool>): set<nat> {
    set i: nat | i < |flags| && i in r && flags[i]
  }

  lemma AmongMore(front: seq<nat>, i: nat, flags: seq<bool>)
    requires i < |flags| && i !in front
    ensures Among(front + [i], flags) == Among(front, flags) + if flags[i] then {i} else {}
    ensures i !in Among(front, flags)
  {}

  /** Counting the flags of listed places counts the places. */
  lemma {:induction false} PickedCount(r: seq<nat>, flags: seq<bool>)
    requires forall k :: 0 <= k < |r| ==> r[k] < |flags|
    requires NoRepeats(r)
    ensures Count(Picked(r, flags)) == |Among(r, flags)|
  {
    if r == [] {
      assert Among(r, flags) == {};
    } else {
      var n := |r| - 1;
      PickedCount(r[..n], flags);
      assert r == r[..n] + [r[n]];
      AmongMore(r[..n], r[n], flags);
      assert Picked(r, flags)[..n] == Picked(r[..n], flags);
    }
  }
}
