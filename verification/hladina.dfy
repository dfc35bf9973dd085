/**
 * The running sorted sample buffer of the level demo (main/hladina-demo.c):
 * 31 samples kept in ascending order between two sentinel slots, each
 * tagged with its arrival number modulo 31 (`poradi`). A new sample
 * replaces the one whose tag is the current counter and bubbles into
 * place; the mean of the middle 21 slots is the filtered reading.
 *
 * The comments above the buffer and above `insert_value` say the largest
 * value comes first; the comparisons sort ascending, and so does the model.
 */
module Hladina {
  const BufSize: nat := 31
  /** `POCET_ORIZNUTYCH_HODNOT`: samples dropped at each end for the mean. */
  const TrimCount: nat := 5
  const U32Max: nat := 0xFFFF_FFFF

  type U32 = x: int | 0 <= x <= U32Max

  /** `buf_t`: arrival tag and sample value. */
  datatype Slot = Slot(tag: int, value: U32)

  const LowSentinel := Slot(-1, 0)
  const HighSentinel := Slot(-1, U32Max)

  function Tags(b: seq<Slot>): (r: seq<int>)
    ensures |r| == |b| && forall i :: 0 <= i < |b| ==> r[i] == b[i].tag
  {
    seq(|b|, i requires 0 <= i < |b| => b[i].tag)
  }

  /** 0, 1, ..., n - 1. */
  function Range(n: nat): (r: seq<int>)
    ensures |r| == n && forall i :: 0 <= i < n ==> r[i] == i
  {
    seq(n, i requires 0 <= i < n => i)
  }

  /** The tags of a valid buffer: each of 0..30 once, and -1 for both sentinels. */
  function TagBag(): multiset<int> {
    multiset(Range(BufSize)) + multiset{-1, -1}
  }

  predicate Sorted(b: seq<Slot>) {
    forall i, j :: 0 <= i < j < |b| ==> b[i].value <= b[j].value
  }

  /** Sorted once the slot at `k` is ignored. */
  predicate SortedExcept(b: seq<Slot>, k: nat) {
    forall i, j :: 0 <= i < j < |b| && i != k && j != k ==> b[i].value <= b[j].value
  }

  /**
   * What every operation keeps: 33 slots, the sentinels at both ends,
   * ascending values, and the inner tags a permutation of 0..30.
   */
  predicate Valid(b: seq<Slot>) {
    |b| == BufSize + 2 && b[0] == LowSentinel && b[BufSize + 1] == HighSentinel
    && Sorted(b) && multiset(Tags(b)) == TagBag()
  }

  /**
   * `init_buffer`: zeros tagged 0..30 as if they had just arrived in order,
   * between the minimum and maximum sentinels.
   */
  function InitBuffer(): (r: seq<Slot>)
    ensures Valid(r)
    ensures forall i :: 1 <= i <= BufSize ==> r[i] == Slot(i - 1, 0)
  {
    var inner := seq(BufSize, i requires 0 <= i < BufSize => Slot(i, 0));
    var r := [LowSentinel] + inner + [HighSentinel];
    assert Sorted(r) by {
      forall i, j | 0 <= i < j < |r| ensures r[i].value <= r[j].value {
        assert r[i].value == 0 || i == |r| - 1;
        assert r[j].value == 0 || j == |r| - 1;
      }
    }
    assert Tags(inner) == Range(BufSize);
    assert Tags(r) == [-1] + Tags(inner) + [-1];
    assert multiset(Tags(r)) == multiset{-1} + multiset(Range(BufSize)) + multiset{-1};
    r
  }

  /** Every tag in 0..30 sits in an inner slot of a valid buffer. */
  lemma TagPresent(b: seq<Slot>, counter: nat) returns (j: nat)
    requires Valid(b) && counter < BufSize
    ensures 1 <= j <= BufSize && b[j].tag == counter
  {
    assert Range(BufSize)[counter] == counter;
    assert counter in multiset(Tags(b));
    var k :| 0 <= k < |b| && Tags(b)[k] == counter;
    j := k;
  }

  /** Swapping the moving sample with a larger left neighbour keeps the rest sorted. */
  lemma SwapLeft(a: seq<Slot>, k: nat)
    requires 1 <= k < |a| && SortedExcept(a, k) && a[k].value < a[k - 1].value
    ensures SortedExcept(a[k - 1 := a[k]][k := a[k - 1]], k - 1)
  {
    var a' := a[k - 1 := a[k]][k := a[k - 1]];
    forall i, j | 0 <= i < j < |a'| && i != k - 1 && j != k - 1
      ensures a'[i].value <= a'[j].value
    {
      if i == k {
        assert a'[i] == a[k - 1];
      } else if j == k {
        assert a'[j] == a[k - 1];
      }
    }
  }

  /** Swapping the moving sample with a smaller right neighbour keeps the rest sorted. */
  lemma SwapRight(a: seq<Slot>, k: nat)
    requires k + 1 < |a| && SortedExcept(a, k) && a[k].value > a[k + 1].value
    ensures SortedExcept(a[k + 1 := a[k]][k := a[k + 1]], k + 1)
  {
    var a' := a[k + 1 := a[k]][k := a[k + 1]];
    forall i, j | 0 <= i < j < |a'| && i != k + 1 && j != k + 1
      ensures a'[i].value <= a'[j].value
    {
      if i == k {
        assert a'[i] == a[k + 1];
      } else if j == k {
        assert a'[j] == a[k + 1];
      }
    }
  }

  /** A sample no smaller than its left and no larger than its right neighbour is in place. */
  lemma InPlace(a: seq<Slot>, k: nat)
    requires 0 < k < |a| - 1 && SortedExcept(a, k)
    requires a[k - 1].value <= a[k].value <= a[k + 1].value
    ensures Sorted(a)
  {
    forall i, j | 0 <= i < j < |a|
      ensures a[i].value <= a[j].value
    {
      if i == k {
        assert a[k + 1].value <= a[j].value || j == k + 1;
      } else if j == k {
        assert a[i].value <= a[k - 1].value || i == k - 1;
      }
    }
  }

  /** The first search loop of `insert_value`: the first inner slot tagged `counter`. */
  method FindSlot(b: seq<Slot>, counter: nat) returns (index: nat)
    requires Valid(b) && counter < BufSize
    ensures 1 <= index <= BufSize && b[index].tag == counter
    ensures forall m :: 1 <= m < index ==> b[m].tag != counter
  {
    ghost var j := TagPresent(b, counter);
    index := 0;
    var i := 1;
    while i < BufSize + 1
      invariant 1 <= i <= BufSize + 1 && index == 0
      invariant i <= j && forall m :: 1 <= m < i ==> b[m].tag != counter
      decreases BufSize + 1 - i
    {
      if b[i].tag == counter {
        index := i;
        break;
      }
      i := i + 1;
    }
  }

  /** The buffer with slots `k` and `k'` exchanged (the `temp` swap). */
  function Swap(a: seq<Slot>, k: nat, k': nat): (r: seq<Slot>)
    requires k < |a| && k' < |a|
    ensures |r| == |a| && r[k] == a[k'] && r[k'] == a[k]
    ensures forall i :: 0 <= i < |a| && i != k && i != k' ==> r[i] == a[i]
    ensures multiset(r) == multiset(a) && multiset(Tags(r)) == multiset(Tags(a))
  {
    var t := Tags(a);
    var r := a[k' := a[k]][k := a[k']];
    assert Tags(r) == t[k' := t[k]][k := t[k']];
    SwapKeepsMultiset(a, k, k');
    SwapKeepsMultiset(t, k, k');
    r
  }

  lemma SwapKeepsMultiset<T>(s: seq<T>, k: nat, k': nat)
    requires k < |s| && k' < |s|
    ensures multiset(s[k' := s[k]][k := s[k']]) == multiset(s)
  {
    var s1 := s[k' := s[k]];
    assert multiset(s1) == multiset(s) - multiset{s[k']} + multiset{s[k]};
    assert s1[k] == (if k == k' then s[k] else s[k]);
    assert multiset(s1[k := s[k']]) == multiset(s1) - multiset{s1[k]} + multiset{s[k']};
  }

  /** The state of the bubbling loop: the sample of `a0` at `index0` now sits at `index`. */
  predicate Moving(a: seq<Slot>, index: nat, a0: seq<Slot>, index0: nat)
    requires 0 <= index0 < |a0|
  {
    |a| == BufSize + 2 && a[0] == LowSentinel && a[BufSize + 1] == HighSentinel
    && 1 <= index <= BufSize && a[index] == a0[index0]
    && SortedExcept(a, index)
    && multiset(a) == multiset(a0) && multiset(Tags(a)) == multiset(Tags(a0))
  }

  lemma StepLeft(a: seq<Slot>, index: nat, a0: seq<Slot>, index0: nat)
    requires 0 <= index0 < |a0| && Moving(a, index, a0, index0)
    requires a[index].value < a[index - 1].value
    ensures index >= 2 && Moving(Swap(a, index, index - 1), index - 1, a0, index0)
    ensures a0[index0].value < Swap(a, index, index - 1)[index].value
  {
    SwapLeft(a, index);
    assert Swap(a, index, index - 1) == a[index - 1 := a[index]][index := a[index - 1]];
  }

  lemma StepRight(a: seq<Slot>, index: nat, a0: seq<Slot>, index0: nat)
    requires 0 <= index0 < |a0| && Moving(a, index, a0, index0)
    requires a[index].value > a[index + 1].value
    ensures index < BufSize && Moving(Swap(a, index, index + 1), index + 1, a0, index0)
    ensures Swap(a, index, index + 1)[index].value < a0[index0].value
  {
    SwapRight(a, index);
    assert Swap(a, index, index + 1) == a[index + 1 := a[index]][index := a[index + 1]];
  }

  /**
   * The second loop of `insert_value`: the sample at `index` moves left
   * past larger neighbours or right past smaller ones; the sentinels stop
   * it, so neither end is ever crossed.
   */
  method Bubble(a0: seq<Slot>, index0: nat) returns (a: seq<Slot>, index: nat)
    requires |a0| == BufSize + 2 && a0[0] == LowSentinel && a0[BufSize + 1] == HighSentinel
    requires 1 <= index0 <= BufSize && SortedExcept(a0, index0)
    ensures |a| == BufSize + 2 && a[0] == LowSentinel && a[BufSize + 1] == HighSentinel
    ensures Sorted(a) && 1 <= index <= BufSize && a[index] == a0[index0]
    ensures multiset(a) == multiset(a0) && multiset(Tags(a)) == multiset(Tags(a0))
  {
    a := a0;
    index := index0;
    ghost var value := a0[index0].value;
    ghost var dir := 0;
    while true
      invariant Moving(a, index, a0, index0)
      invariant -1 <= dir <= 1
      invariant dir == -1 ==> value < a[index + 1].value
      invariant dir == 1 ==> a[index - 1].value < value
      decreases if dir == 0 then 2 * BufSize + 4 else if dir == -1 then index else BufSize + 1 - index
    {
      if a[index].value < a[index - 1].value {
        StepLeft(a, index, a0, index0);
        a := Swap(a, index, index - 1);
        index := index - 1;
        dir := -1;
      } else if a[index].value > a[index + 1].value {
        StepRight(a, index, a0, index0);
        a := Swap(a, index, index + 1);
        index := index + 1;
        dir := 1;
      } else {
        break;
      }
    }
    InPlace(a, index);
  }

  /**
   * `insert_value`: finds the first inner slot tagged with the counter,
   * overwrites its value, bubbles it left or right until in order, and
   * advances the counter modulo 31. Gives the new buffer, the new counter
   * and the slot that was overwritten.
   */
  method Insert(b: seq<Slot>, counter: nat, value: U32) returns (r: seq<Slot>, next: nat, replaced: nat)
    requires Valid(b) && counter < BufSize
    ensures Valid(r)
    ensures next == (counter + 1) % BufSize && next < BufSize
    ensures 1 <= replaced <= BufSize && b[replaced].tag == counter
    ensures forall m :: 1 <= m < replaced ==> b[m].tag != counter
    ensures multiset(r) == multiset(b) - multiset{b[replaced]} + multiset{Slot(counter, value)}
    ensures Slot(counter, value) in r[1..BufSize + 1]
  {
    replaced := FindSlot(b, counter);
    var a := b[replaced := Slot(counter, value)];
    assert Tags(a) == Tags(b);
    var index;
    r, index := Bubble(a, replaced);
    assert r[1..BufSize + 1][index - 1] == Slot(counter, value);
    next := (counter + 1) % BufSize;
  }

  function Sum(s: seq<Slot>): (r: nat) {
    if s == [] then 0 else Sum(s[..|s| - 1]) + s[|s| - 1].value
  }

  /** The slots averaged: 6..26, the 21 left once five are dropped at each end. */
  const MeanLo: nat := 1 + TrimCount
  const MeanHi: nat := BufSize - TrimCount

  lemma {:induction false} SumBounds(s: seq<Slot>, lo: nat, hi: nat)
    requires forall i :: 0 <= i < |s| ==> lo <= s[i].value <= hi
    ensures |s| * lo <= Sum(s) <= |s| * hi
  {
    if s != [] {
      var n := |s| - 1;
      var t := s[..n];
      assert forall i :: 0 <= i < |t| ==> t[i] == s[i];
      SumBounds(t, lo, hi);
      assert Sum(s) == Sum(t) + s[n].value;
      MulSucc(n, lo);
      MulSucc(n, hi);
    }
  }

  lemma MulSucc(n: nat, x: nat)
    ensures (n + 1) * x == n * x + x
  {
  }

  /**
   * `prumer`: the sum of slots 6..26 (a 64-bit sum that cannot overflow)
   * divided by 21, rounded down. In a valid buffer it lies between the
   * values of slots 6 and 26.
   */
  method Mean(b: seq<Slot>) returns (average: U32)
    requires Valid(b)
    ensures average == Sum(b[MeanLo..MeanHi + 1]) / (BufSize - 2 * TrimCount)
    ensures b[MeanLo].value <= average <= b[MeanHi].value
  {
    var sum: nat := 0;
    var i := MeanLo;
    while i <= MeanHi
      invariant MeanLo <= i <= MeanHi + 1
      invariant sum == Sum(b[MeanLo..i])
    {
      SumSnoc(b, MeanLo, i);
      sum := sum + b[i].value;
      i := i + 1;
    }
    var mean := sum / (BufSize - 2 * TrimCount);
    assert b[MeanLo].value <= mean <= b[MeanHi].value by {
      MeanBetween(b);
    }
    average := mean;
  }

  /** In a valid buffer the mean of slots 6..26 lies between the values of slots 6 and 26. */
  lemma MeanBetween(b: seq<Slot>)
    requires Valid(b)
    ensures b[MeanLo].value <= Sum(b[MeanLo..MeanHi + 1]) / (BufSize - 2 * TrimCount) <= b[MeanHi].value
  {
    var window := b[MeanLo..MeanHi + 1];
    var lo, hi := b[MeanLo].value, b[MeanHi].value;
    forall k | 0 <= k < |window|
      ensures lo <= window[k].value <= hi
    {
      assert window[k] == b[MeanLo + k];
    }
    SumBounds(window, lo, hi);
    DivBetween(Sum(window), |window|, lo, hi);
  }

  lemma SumSnoc(b: seq<Slot>, lo: nat, i: nat)
    requires lo <= i < |b|
    ensures Sum(b[lo..i + 1]) == Sum(b[lo..i]) + b[i].value
  {
    assert b[lo..i + 1][..i - lo] == b[lo..i];
  }

  lemma DivBetween(sum: nat, n: nat, lo: nat, hi: nat)
    requires n > 0 && n * lo <= sum <= n * hi
    ensures lo <= sum / n <= hi
  {
    var q := sum / n;
    assert sum == n * q + sum % n;
    if q < lo {
      assert n * q + n <= n * lo by {
        MulMono(n, q + 1, lo);
      }
    }
    if q > hi {
      MulMono(n, hi + 1, q);
    }
  }

  lemma MulMono(n: nat, x: nat, y: nat)
    requires x <= y
    ensures n * x <= n * y
  {
  }
}
