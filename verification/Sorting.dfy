/** The in-place quicksort and its helpers, for any strict total order. */
module Sorting {

  /** less orders the elements of m strictly and totally, and agrees with == on them. */
  ghost predicate Orders<T(!new)>(less: (T, T) -> bool, m: multiset<T>) {
    && (forall x {:trigger less(x, x)} | x in m :: !less(x, x))
    && (forall x, y {:trigger less(x, y)} | x in m && y in m && x != y :: less(x, y) || less(y, x))
    && (forall x, y, z {:trigger less(x, y), less(y, z)} | x in m && y in m && z in m && less(x, y) && less(y, z) :: less(x, z))
  }

  ghost predicate SortedRange<T>(s: seq<T>, less: (T, T) -> bool, lo: nat, hi: nat) {
    hi <= |s| && forall i, j | lo <= i < j < hi :: !less(s[j], s[i])
  }

  /** s and r hold the same elements, and differ only between lo and hi. */
  ghost predicate Shuffled<T>(s: seq<T>, r: seq<T>, lo: nat, hi: nat) {
    && |r| == |s| && multiset(r) == multiset(s)
    && forall k | 0 <= k < |s| && !(lo <= k < hi) :: r[k] == s[k]
  }

  lemma ShuffledTrans<T>(a: seq<T>, b: seq<T>, c: seq<T>, lo: nat, hi: nat, lo': nat, hi': nat)
    requires Shuffled(a, b, lo, hi) && lo <= lo' && hi' <= hi && Shuffled(b, c, lo', hi')
    ensures Shuffled(a, c, lo, hi)
  {
  }

  lemma SamePadding<T>(a: seq<T>, b: seq<T>, b': seq<T>, c: seq<T>)
    requires multiset(a + b + c) == multiset(a + b' + c)
    ensures multiset(b) == multiset(b')
  {
    var rest := multiset(a) + multiset(c);
    assert multiset(a + b + c) == multiset(b) + rest;
    assert multiset(a + b' + c) == multiset(b') + rest;
    assert multiset(b) == (multiset(b) + rest) - rest;
    assert multiset(b') == (multiset(b') + rest) - rest;
  }

  /** A shuffle of a range keeps the range's elements. */
  lemma ShuffledRange<T>(s: seq<T>, r: seq<T>, lo: nat, hi: nat)
    requires Shuffled(s, r, lo, hi) && lo <= hi <= |s|
    ensures multiset(r[lo..hi]) == multiset(s[lo..hi])
    ensures forall k | lo <= k < hi :: r[k] in s[lo..hi]
  {
    assert s == s[..lo] + s[lo..hi] + s[hi..];
    assert r == s[..lo] + r[lo..hi] + s[hi..];
    SamePadding(s[..lo], s[lo..hi], r[lo..hi], s[hi..]);
    forall k | lo <= k < hi ensures r[k] in s[lo..hi] {
      assert r[lo..hi][k - lo] == r[k];
      assert r[k] in multiset(r[lo..hi]);
    }
  }

  method Swap<T>(a: array<T>, i: nat, j: nat)
    requires i < a.Length && j < a.Length
    modifies a
    ensures a[i] == old(a[j]) && a[j] == old(a[i])
    ensures forall k | 0 <= k < a.Length && k != i && k != j :: a[k] == old(a[k])
    ensures multiset(a[..]) == old(multiset(a[..]))
  {
    a[i], a[j] := a[j], a[i];
  }

  /** Move the elements in [begin, end) one place up. */
  method CopyBackwards<T>(a: array<T>, begin: nat, end: nat)
    requires begin <= end < a.Length
    modifies a
    ensures forall k | 0 <= k < a.Length && !(begin < k <= end) :: a[k] == old(a[k])
    ensures forall k | begin < k <= end :: a[k] == old(a[k - 1])
  {
    var e := end;
    while e != begin
      invariant begin <= e <= end
      invariant forall k | 0 <= k < a.Length && !(e < k <= end) :: a[k] == old(a[k])
      invariant forall k | e < k <= end :: a[k] == old(a[k - 1])
    {
      a[e] := a[e - 1];
      e := e - 1;
    }
  }

  /** Lifting the element at it out and putting it back at hole keeps the elements. */
  lemma InsertedShuffled<T>(s: seq<T>, r: seq<T>, begin: nat, hole: nat, it: nat)
    requires begin <= hole <= it < |s| && |r| == |s| && r[hole] == s[it]
    requires forall k | 0 <= k < |s| && !(hole <= k <= it) :: r[k] == s[k]
    requires forall k | hole < k <= it :: r[k] == s[k - 1]
    ensures Shuffled(s, r, begin, it + 1)
  {
    assert s == s[..hole] + s[hole..it] + [s[it]] + s[it + 1..];
    assert r == s[..hole] + [s[it]] + s[hole..it] + s[it + 1..];
  }

  /** The first element guards the inner loop: it never looks before begin. */
  method InsertionSort<T(!new)>(a: array<T>, begin: nat, end: nat, less: (T, T) -> bool)
    requires begin < end <= a.Length && Orders(less, multiset(a[..]))
    modifies a
    ensures Shuffled(old(a[..]), a[..], begin, end)
    ensures SortedRange(a[..], less, begin, end)
  {
    for it := begin + 1 to end
      invariant Shuffled(old(a[..]), a[..], begin, end)
      invariant SortedRange(a[..], less, begin, it)
    {
      ghost var s := a[..];
      var hole := Insert(a, begin, it, less);
      InsertedShuffled(s, a[..], begin, hole, it);
      ShuffledTrans(old(a[..]), s, a[..], begin, end, begin, it + 1);
      InsertedSorted(s, a[..], less, begin, hole, it);
    }
  }

  /** Put the element at it into its place in the sorted range [begin, it). */
  method Insert<T(!new)>(a: array<T>, begin: nat, it: nat, less: (T, T) -> bool) returns (ghost hole: nat)
    requires begin < it < a.Length
    modifies a
    ensures begin <= hole <= it && a[hole] == old(a[it])
    ensures forall k | 0 <= k < a.Length && !(hole <= k <= it) :: a[k] == old(a[k])
    ensures forall k | hole < k <= it :: a[k] == old(a[k - 1])
    ensures hole > begin ==> !less(a[hole], old(a[hole - 1]))
    ensures hole < it ==> less(a[hole], old(a[hole]))
  {
    var val := a[it];
    if less(val, a[begin]) {
      CopyBackwards(a, begin, it);
      a[begin] := val;
      hole := begin;
    } else {
      var h := it;
      while less(val, a[h - 1])
        invariant begin < h <= it
        invariant forall k | 0 <= k < a.Length && !(h < k <= it) :: a[k] == old(a[k])
        invariant forall k | h < k <= it :: a[k] == old(a[k - 1])
        invariant h < it ==> less(val, old(a[h]))
        decreases h
      {
        a[h] := a[h - 1];
        h := h - 1;
      }
      a[h] := val;
      hole := h;
    }
  }

  lemma InsertedSorted<T(!new)>(s: seq<T>, r: seq<T>, less: (T, T) -> bool, begin: nat, hole: nat, it: nat)
    requires begin <= hole <= it < |s| && |r| == |s| && r[hole] == s[it]
    requires Orders(less, multiset(s)) && SortedRange(s, less, begin, it)
    requires forall k | 0 <= k < |s| && !(hole <= k <= it) :: r[k] == s[k]
    requires forall k | hole < k <= it :: r[k] == s[k - 1]
    requires hole > begin ==> !less(s[it], s[hole - 1])
    requires hole < it ==> less(s[it], s[hole])
    ensures SortedRange(r, less, begin, it + 1)
  {
    assert forall k | 0 <= k < |s| :: s[k] in multiset(s);
    forall i, j | begin <= i < j < it + 1 ensures !less(r[j], r[i]) {
      if i == hole {
        assert r[j] == s[j - 1];
        assert j - 1 > hole ==> !less(s[j - 1], s[hole]);
      } else if j == hole {
        assert i < hole - 1 ==> !less(s[hole - 1], s[i]);
      }
    }
  }

  /**
   * The partition's bookkeeping on s between lo and hi: smaller elements from lt, equal ones from eb,
   * larger ones from ee up to gt; what is outside [lt, gt) has not been looked at.
   */
  ghost predicate Parted<T>(s: seq<T>, less: (T, T) -> bool, p: T, lt: nat, eb: nat, ee: nat, gt: nat) {
    && lt <= eb < ee <= gt <= |s|
    && (forall k | lt <= k < eb :: less(s[k], p))
    && (forall k | eb <= k < ee :: s[k] == p)
    && (forall k | ee <= k < gt :: less(p, s[k]))
  }

  /** Split [begin, end) around the element at middle into smaller, equal and larger elements. */
  method Partition<T(==, !new)>(a: array<T>, begin: nat, middle: nat, end: nat, less: (T, T) -> bool)
    returns (eqbeg: nat, eqend: nat)
    requires begin <= middle < end <= a.Length && Orders(less, multiset(a[..]))
    modifies a
    ensures Shuffled(old(a[..]), a[..], begin, end)
    ensures begin <= eqbeg && eqend <= end && Parted(a[..], less, old(a[middle]), begin, eqbeg, eqend, end)
  {
    ghost var p := a[middle];
    eqbeg, eqend := EqualRun(a, begin, middle, end);
    var ltend, gtbeg, done := eqbeg, eqend, false;
    while !done
      invariant begin <= ltend && gtbeg <= end
      invariant Parted(a[..], less, p, ltend, eqbeg, eqend, gtbeg)
      invariant Shuffled(old(a[..]), a[..], begin, end)
      invariant done ==> ltend == begin && gtbeg == end
      decreases !done, ltend - begin + end - gtbeg
    {
      ghost var s := a[..];
      ltend, eqbeg, eqend, gtbeg, done := Round(a, begin, end, less, p, ltend, eqbeg, eqend, gtbeg);
      ShuffledTrans(old(a[..]), s, a[..], begin, end, begin, end);
    }
  }

  /** The run of elements equal to the one in the middle. */
  method EqualRun<T(==, !new)>(a: array<T>, begin: nat, middle: nat, end: nat) returns (eqbeg: nat, eqend: nat)
    requires begin <= middle < end <= a.Length
    ensures begin <= eqbeg <= middle < eqend <= end
    ensures forall k | eqbeg <= k < eqend :: a[k] == a[middle]
  {
    eqbeg, eqend := middle, middle + 1;
    while eqbeg != begin && a[eqbeg - 1] == a[eqbeg]
      invariant begin <= eqbeg <= middle && forall k | eqbeg <= k < eqend :: a[k] == a[middle]
    {
      eqbeg := eqbeg - 1;
    }
    while eqend != end && a[eqend] == a[eqbeg]
      invariant middle < eqend <= end && forall k | eqbeg <= k < eqend :: a[k] == a[middle]
    {
      eqend := eqend + 1;
    }
  }

  /** One round of the partition: scan both sides, then place the elements the scans stopped at. */
  method Round<T(==, !new)>(a: array<T>, begin: nat, end: nat, less: (T, T) -> bool, ghost p: T,
                            ltend0: nat, eqbeg0: nat, eqend0: nat, gtbeg0: nat)
    returns (ltend: nat, eqbeg: nat, eqend: nat, gtbeg: nat, done: bool)
    requires begin <= ltend0 && gtbeg0 <= end <= a.Length && Orders(less, multiset(a[..]))
    requires Parted(a[..], less, p, ltend0, eqbeg0, eqend0, gtbeg0)
    modifies a
    ensures begin <= ltend <= ltend0 && gtbeg0 <= gtbeg <= end
    ensures Parted(a[..], less, p, ltend, eqbeg, eqend, gtbeg)
    ensures Shuffled(old(a[..]), a[..], begin, end)
    ensures if done then ltend == begin && gtbeg == end else ltend < ltend0 || gtbeg > gtbeg0
  {
    eqend, gtbeg := ScanRight(a, begin, end, less, p, ltend0, eqbeg0, eqend0, gtbeg0);
    ghost var s1 := a[..];
    eqbeg, ltend := ScanLeft(a, begin, end, less, p, ltend0, eqbeg0, eqend, gtbeg);
    ghost var s2 := a[..];
    assert Shuffled(old(a[..]), s1, begin, end);
    ShuffledTrans(old(a[..]), s1, s2, begin, end, begin, eqbeg0);
    done := gtbeg == end && ltend == begin;
    if !done {
      if gtbeg == end {
        ltend, eqbeg, eqend := GiveLeft(a, begin, end, less, p, ltend, eqbeg, eqend);
      } else if ltend == begin {
        eqbeg, eqend, gtbeg := GiveRight(a, begin, end, less, p, eqbeg, eqend, gtbeg);
      } else {
        Exchange(a, less, p, ltend, eqbeg, eqend, gtbeg);
        gtbeg, ltend := gtbeg + 1, ltend - 1;
      }
      ShuffledTrans(old(a[..]), s2, a[..], begin, end, begin, end);
    }
  }

  /** A large element before ltend and a small one at gtbeg change places. */
  method Exchange<T(!new)>(a: array<T>, ghost less: (T, T) -> bool, ghost p: T, ltend: nat, ghost eqbeg: nat, ghost eqend: nat, gtbeg: nat)
    requires 0 < ltend && gtbeg < a.Length && Parted(a[..], less, p, ltend, eqbeg, eqend, gtbeg)
    requires less(p, a[ltend - 1]) && less(a[gtbeg], p)
    modifies a
    ensures Parted(a[..], less, p, ltend - 1, eqbeg, eqend, gtbeg + 1)
    ensures Shuffled(old(a[..]), a[..], ltend - 1, gtbeg + 1)
  {
    Swap(a, gtbeg, ltend - 1);
  }

  /** Scan right of gtbeg for an element that belongs on the left, collecting equal ones. */
  method ScanRight<T(==, !new)>(a: array<T>, begin: nat, end: nat, less: (T, T) -> bool, ghost p: T,
                                ltend: nat, eqbeg: nat, eqend0: nat, gtbeg0: nat)
    returns (eqend: nat, gtbeg: nat)
    requires begin <= ltend && gtbeg0 <= end <= a.Length && Orders(less, multiset(a[..]))
    requires Parted(a[..], less, p, ltend, eqbeg, eqend0, gtbeg0)
    modifies a
    ensures gtbeg0 <= gtbeg <= end
    ensures Parted(a[..], less, p, ltend, eqbeg, eqend, gtbeg)
    ensures Shuffled(old(a[..]), a[..], eqend0, end)
    ensures gtbeg < end ==> less(a[gtbeg], p)
  {
    eqend, gtbeg := eqend0, gtbeg0;
    while gtbeg != end
      invariant gtbeg0 <= gtbeg <= end && eqend0 <= eqend
      invariant Parted(a[..], less, p, ltend, eqbeg, eqend, gtbeg)
      invariant Shuffled(old(a[..]), a[..], eqend0, end)
    {
      if !less(a[eqbeg], a[gtbeg]) {
        if a[gtbeg] == a[eqbeg] {
          ghost var s := a[..];
          CollectRight(a, less, p, ltend, eqbeg, eqend, gtbeg);
          ShuffledTrans(old(a[..]), s, a[..], eqend0, end, eqend, gtbeg + 1);
          eqend := eqend + 1;
        } else {
          assert a[gtbeg] in multiset(a[..]) && a[eqbeg] in multiset(a[..]);
          break;
        }
      }
      gtbeg := gtbeg + 1;
    }
  }

  /** The element at gtbeg equals the pivot: exchange it with the first larger one. */
  method CollectRight<T(!new)>(a: array<T>, ghost less: (T, T) -> bool, ghost p: T, ghost ltend: nat, ghost eqbeg: nat, eqend: nat, gtbeg: nat)
    requires gtbeg < a.Length && Parted(a[..], less, p, ltend, eqbeg, eqend, gtbeg) && a[gtbeg] == p
    modifies a
    ensures Parted(a[..], less, p, ltend, eqbeg, eqend + 1, gtbeg + 1)
    ensures Shuffled(old(a[..]), a[..], eqend, gtbeg + 1)
  {
    Swap(a, gtbeg, eqend);
  }

  /** The element before ltend equals the pivot: exchange it with the last smaller one. */
  method CollectLeft<T(!new)>(a: array<T>, ghost less: (T, T) -> bool, ghost p: T, ltend: nat, eqbeg: nat, ghost eqend: nat, ghost gtbeg: nat)
    requires 0 < ltend && gtbeg <= a.Length && Parted(a[..], less, p, ltend, eqbeg, eqend, gtbeg) && a[ltend - 1] == p
    modifies a
    ensures Parted(a[..], less, p, ltend - 1, eqbeg - 1, eqend, gtbeg)
    ensures Shuffled(old(a[..]), a[..], ltend - 1, eqbeg)
  {
    Swap(a, ltend - 1, eqbeg - 1);
  }

  method ScanLeft<T(==, !new)>(a: array<T>, begin: nat, end: nat, less: (T, T) -> bool, ghost p: T,
                               ltend0: nat, eqbeg0: nat, eqend: nat, gtbeg: nat)
    returns (eqbeg: nat, ltend: nat)
    requires begin <= ltend0 && gtbeg <= end <= a.Length && Orders(less, multiset(a[..]))
    requires Parted(a[..], less, p, ltend0, eqbeg0, eqend, gtbeg)
    modifies a
    ensures begin <= ltend <= ltend0
    ensures Parted(a[..], less, p, ltend, eqbeg, eqend, gtbeg)
    ensures Shuffled(old(a[..]), a[..], begin, eqbeg0)
    ensures ltend > begin ==> less(p, a[ltend - 1])
  {
    eqbeg, ltend := eqbeg0, ltend0;
    while ltend != begin
      invariant begin <= ltend <= ltend0 && eqbeg <= eqbeg0
      invariant Parted(a[..], less, p, ltend, eqbeg, eqend, gtbeg)
      invariant Shuffled(old(a[..]), a[..], begin, eqbeg0)
    {
      if !less(a[ltend - 1], a[eqbeg]) {
        if a[eqbeg] == a[ltend - 1] {
          ghost var s := a[..];
          CollectLeft(a, less, p, ltend, eqbeg, eqend, gtbeg);
          ShuffledTrans(old(a[..]), s, a[..], begin, eqbeg0, ltend - 1, eqbeg);
          eqbeg := eqbeg - 1;
        } else {
          assert a[ltend - 1] in multiset(a[..]) && a[eqbeg] in multiset(a[..]);
          break;
        }
      }
      ltend := ltend - 1;
    }
  }

  /** The right side is used up: shift the equal area left to make room for the large element before ltend. */
  method GiveLeft<T(==, !new)>(a: array<T>, begin: nat, end: nat, less: (T, T) -> bool, ghost p: T,
                               ltend0: nat, eqbeg0: nat, eqend0: nat)
    returns (ltend: nat, eqbeg: nat, eqend: nat)
    requires begin < ltend0 && end <= a.Length && Parted(a[..], less, p, ltend0, eqbeg0, eqend0, end)
    requires less(p, a[ltend0 - 1])
    modifies a
    ensures ltend == ltend0 - 1 && Parted(a[..], less, p, ltend, eqbeg, eqend, end)
    ensures Shuffled(old(a[..]), a[..], begin, end)
  {
    ltend, eqbeg, eqend := ltend0 - 1, eqbeg0 - 1, eqend0 - 1;
    if ltend != eqbeg {
      Swap(a, ltend, eqbeg);
    }
    Swap(a, eqbeg, eqend);
  }

  /** The left side is used up: shift the equal area right to make room for the small element at gtbeg. */
  method GiveRight<T(==, !new)>(a: array<T>, begin: nat, end: nat, less: (T, T) -> bool, ghost p: T,
                                eqbeg0: nat, eqend0: nat, gtbeg0: nat)
    returns (eqbeg: nat, eqend: nat, gtbeg: nat)
    requires gtbeg0 < end <= a.Length && Parted(a[..], less, p, begin, eqbeg0, eqend0, gtbeg0)
    requires less(a[gtbeg0], p)
    modifies a
    ensures gtbeg == gtbeg0 + 1 && Parted(a[..], less, p, begin, eqbeg, eqend, gtbeg)
    ensures Shuffled(old(a[..]), a[..], begin, end)
  {
    if eqend0 != gtbeg0 {
      Swap(a, eqbeg0, eqend0);
    }
    Swap(a, gtbeg0, eqbeg0);
    eqbeg, eqend, gtbeg := eqbeg0 + 1, eqend0 + 1, gtbeg0 + 1;
  }

  method Median3<T(!new)>(a: array<T>, first: nat, middle: nat, last: nat, less: (T, T) -> bool)
    requires first <= middle <= last < a.Length
    modifies a
    ensures Shuffled(old(a[..]), a[..], first, last + 1)
  {
    if less(a[middle], a[first]) { Swap(a, middle, first); }
    if less(a[last], a[middle]) { Swap(a, last, middle); }
    if less(a[middle], a[first]) { Swap(a, middle, first); }
  }

  method Median<T(!new)>(a: array<T>, first: nat, middle: nat, last: nat, less: (T, T) -> bool)
    requires first <= last < a.Length && middle == first + (last + 1 - first) / 2
    modifies a
    ensures Shuffled(old(a[..]), a[..], first, last + 1)
  {
    if last - first <= 40 {
      Median3(a, first, middle, last, less);
    } else {
      var step := (last - first + 1) / 8;
      Median3(a, first, first + step, first + 2 * step, less);
      Median3(a, middle - step, middle, middle + step, less);
      Median3(a, last - 2 * step, last - step, last, less);
      Median3(a, first + step, middle, last - step, less);
    }
  }

  function Pow2(n: nat): (p: nat)
    ensures p > 0
  {
    if n == 0 then 1 else 2 * Pow2(n - 1)
  }

  /** Every pair of [begin, end) is in order unless both of its elements are in [lo, hi). */
  ghost predicate Settled<T>(s: seq<T>, less: (T, T) -> bool, begin: nat, end: nat, lo: nat, hi: nat) {
    end <= |s| && forall i, j | begin <= i < j < end && !(lo <= i && j < hi) :: !less(s[j], s[i])
  }

  /** Shuffling the unsettled part leaves the rest settled. */
  lemma StaysSettled<T(!new)>(s: seq<T>, r: seq<T>, less: (T, T) -> bool, begin: nat, end: nat, lo: nat, hi: nat, lo': nat, hi': nat)
    requires Settled(s, less, begin, end, lo, hi) && begin <= lo <= lo' <= hi' <= hi <= end
    requires Shuffled(s, r, lo', hi')
    ensures Settled(r, less, begin, end, lo, hi)
  {
    ShuffledRange(s, r, lo', hi');
    forall i, j | begin <= i < j < end && !(lo <= i && j < hi) ensures !less(r[j], r[i]) {
      var i' := if lo' <= i < hi' then lo' + Place(s[lo'..hi'], r[i]) else i;
      var j' := if lo' <= j < hi' then lo' + Place(s[lo'..hi'], r[j]) else j;
      assert s[i'] == r[i] && s[j'] == r[j];
    }
  }

  ghost function Place<T>(s: seq<T>, x: T): (k: nat)
    requires x in s
    ensures k < |s| && s[k] == x
  {
    var k :| 0 <= k < |s| && s[k] == x; k
  }

  /**
   * Sort [begin, end). Each nested call works on at most half of the range, so a range shorter than
   * Pow2(levels) needs at most that many levels of nesting.
   */
  method Sort<T(==, !new)>(a: array<T>, begin0: nat, end0: nat, less: (T, T) -> bool, ghost levels: nat)
    requires begin0 <= end0 <= a.Length && Orders(less, multiset(a[..]))
    requires end0 - begin0 < Pow2(levels)
    modifies a
    ensures Shuffled(old(a[..]), a[..], begin0, end0)
    ensures SortedRange(a[..], less, begin0, end0)
    decreases levels
  {
    var begin, end := begin0, end0;
    while end - begin > 32
      invariant begin0 <= begin <= end <= end0
      invariant Shuffled(old(a[..]), a[..], begin0, end0)
      invariant Settled(a[..], less, begin0, end0, begin, end)
      decreases end - begin
    {
      ghost var s := a[..];
      begin, end := Shrink(a, begin, end, less, levels, begin0, end0);
      ShuffledTrans(old(a[..]), s, a[..], begin0, end0, begin0, end0);
    }
    if begin != end {
      ghost var s := a[..];
      InsertionSort(a, begin, end, less);
      ShuffledTrans(old(a[..]), s, a[..], begin0, end0, begin, end);
      StaysSettled(s, a[..], less, begin0, end0, begin, end, begin, end);
    }
  }

  /** One turn of the sort's loop: partition, sort the smaller side, keep the larger one. */
  method Shrink<T(==, !new)>(a: array<T>, begin: nat, end: nat, less: (T, T) -> bool, ghost levels: nat, ghost begin0: nat, ghost end0: nat)
    returns (begin': nat, end': nat)
    requires begin0 <= begin <= end <= end0 <= a.Length && end - begin > 32 && end0 - begin0 < Pow2(levels)
    requires Orders(less, multiset(a[..])) && Settled(a[..], less, begin0, end0, begin, end)
    modifies a
    ensures begin <= begin' <= end' <= end && end' - begin' < end - begin
    ensures Shuffled(old(a[..]), a[..], begin, end)
    ensures Settled(a[..], less, begin0, end0, begin', end')
    decreases levels, 0
  {
    ghost var p;
    var eqbeg, eqend;
    eqbeg, eqend, p := Split(a, begin, end, less);
    ghost var s := a[..];
    StaysSettled(old(a[..]), s, less, begin0, end0, begin, end, begin, end);
    if eqbeg - begin > end - eqend {
      Sort(a, eqend, end, less, levels - 1);
      RightSorted(s, a[..], less, p, begin0, end0, begin, eqbeg, eqend, end);
      ShuffledTrans(old(a[..]), s, a[..], begin, end, eqend, end);
      begin', end' := begin, eqbeg;
    } else {
      Sort(a, begin, eqbeg, less, levels - 1);
      LeftSorted(s, a[..], less, p, begin0, end0, begin, eqbeg, eqend, end);
      ShuffledTrans(old(a[..]), s, a[..], begin, end, begin, eqbeg);
      begin', end' := eqend, end;
    }
  }

  /** Partition [begin, end) around its estimated median. */
  method Split<T(==, !new)>(a: array<T>, begin: nat, end: nat, less: (T, T) -> bool) returns (eqbeg: nat, eqend: nat, ghost p: T)
    requires begin < end <= a.Length && Orders(less, multiset(a[..]))
    modifies a
    ensures begin <= eqbeg && eqend <= end && Parted(a[..], less, p, begin, eqbeg, eqend, end)
    ensures Shuffled(old(a[..]), a[..], begin, end)
  {
    var middle := begin + (end - begin) / 2;
    Median(a, begin, middle, end - 1, less);
    ghost var s := a[..];
    p := a[middle];
    eqbeg, eqend := Partition(a, begin, middle, end, less);
    ShuffledTrans(old(a[..]), s, a[..], begin, end, begin, end);
  }

  /** What a condition says of every element of a range survives a shuffle of the range. */
  lemma StaysBeyond<T(!new)>(s: seq<T>, r: seq<T>, less: (T, T) -> bool, p: T, from: nat, to: nat)
    requires from <= to <= |s| && Shuffled(s, r, from, to)
    ensures (forall k | from <= k < to :: less(p, s[k])) ==> forall k | from <= k < to :: less(p, r[k])
    ensures (forall k | from <= k < to :: less(s[k], p)) ==> forall k | from <= k < to :: less(r[k], p)
  {
    ShuffledRange(s, r, from, to);
    forall k | from <= k < to
      ensures (forall k | from <= k < to :: less(p, s[k])) ==> less(p, r[k])
      ensures (forall k | from <= k < to :: less(s[k], p)) ==> less(r[k], p)
    {
      var j := from + Place(s[from..to], r[k]);
      assert s[j] == r[k];
    }
  }

  /** After sorting one side of a partition, only the other side is unsettled. */
  lemma RightSorted<T(!new)>(s: seq<T>, r: seq<T>, less: (T, T) -> bool, p: T, begin: nat, end: nat, lo: nat, eb: nat, ee: nat, hi: nat)
    requires begin <= lo && hi <= end && Settled(s, less, begin, end, lo, hi)
    requires Parted(s, less, p, lo, eb, ee, hi) && Orders(less, multiset(s))
    requires Shuffled(s, r, ee, hi) && SortedRange(r, less, ee, hi)
    ensures Settled(r, less, begin, end, lo, eb)
  {
    StaysBeyond(s, r, less, p, ee, hi);
    StaysSettled(s, r, less, begin, end, lo, hi, ee, hi);
    LeftUnsettled(r, less, p, begin, end, lo, eb, ee, hi);
  }

  lemma LeftSorted<T(!new)>(s: seq<T>, r: seq<T>, less: (T, T) -> bool, p: T, begin: nat, end: nat, lo: nat, eb: nat, ee: nat, hi: nat)
    requires begin <= lo && hi <= end && Settled(s, less, begin, end, lo, hi)
    requires Parted(s, less, p, lo, eb, ee, hi) && Orders(less, multiset(s))
    requires Shuffled(s, r, lo, eb) && SortedRange(r, less, lo, eb)
    ensures Settled(r, less, begin, end, ee, hi)
  {
    StaysBeyond(s, r, less, p, lo, eb);
    StaysSettled(s, r, less, begin, end, lo, hi, lo, eb);
    RightUnsettled(r, less, p, begin, end, lo, eb, ee, hi);
  }

  lemma LeftUnsettled<T(!new)>(r: seq<T>, less: (T, T) -> bool, p: T, begin: nat, end: nat, lo: nat, eb: nat, ee: nat, hi: nat)
    requires begin <= lo && hi <= end && Settled(r, less, begin, end, lo, hi)
    requires Parted(r, less, p, lo, eb, ee, hi) && Orders(less, multiset(r)) && SortedRange(r, less, ee, hi)
    ensures Settled(r, less, begin, end, lo, eb)
  {
    assert forall k | 0 <= k < |r| :: r[k] in multiset(r);
    assert r[eb] == p;
    forall i, j | begin <= i < j < end && !(lo <= i && j < eb) ensures !less(r[j], r[i]) {
    }
  }

  lemma RightUnsettled<T(!new)>(r: seq<T>, less: (T, T) -> bool, p: T, begin: nat, end: nat, lo: nat, eb: nat, ee: nat, hi: nat)
    requires begin <= lo && hi <= end && Settled(r, less, begin, end, lo, hi)
    requires Parted(r, less, p, lo, eb, ee, hi) && Orders(less, multiset(r)) && SortedRange(r, less, lo, eb)
    ensures Settled(r, less, begin, end, ee, hi)
  {
    assert forall k | 0 <= k < |r| :: r[k] in multiset(r);
    assert r[eb] == p;
    forall i, j | begin <= i < j < end && !(ee <= i && j < hi) ensures !less(r[j], r[i]) {
    }
  }

  lemma {:induction false} Pow2Exceeds(n: nat)
    ensures n < Pow2(n)
  {
    if n > 0 {
      Pow2Exceeds(n - 1);
    }
  }

  // The other in-place helpers.

  method ReverseRange<T>(a: array<T>, begin: nat, end: nat)
    requires begin <= end <= a.Length
    modifies a
    ensures forall k | 0 <= k < a.Length && !(begin <= k < end) :: a[k] == old(a[k])
    ensures forall k | begin <= k < end :: a[k] == old(a[begin + end - 1 - k])
  {
    var b, e := begin, end;
    while e - b > 1
      invariant begin <= b && e <= end && b - begin == end - e && b <= e + 1
      invariant forall k | 0 <= k < a.Length && !(begin <= k < b) && !(e <= k < end) :: a[k] == old(a[k])
      invariant forall k | begin <= k < b || e <= k < end :: a[k] == old(a[begin + end - 1 - k])
      decreases e - b
    {
      e := e - 1;
      a[b], a[e] := a[e], a[b];
      b := b + 1;
    }
  }

  /** Drop every element that equals the one kept before it. */
  function Dedup<T(==)>(s: seq<T>): seq<T> {
    if |s| < 2 then s
    else if s[|s| - 1] == s[|s| - 2] then Dedup(s[..|s| - 1])
    else Dedup(s[..|s| - 1]) + [s[|s| - 1]]
  }

  lemma {:induction false} DedupKeeps<T>(s: seq<T>, x: T)
    ensures x in Dedup(s) <==> x in s
    ensures s != [] ==> Dedup(s) != [] && Dedup(s)[|Dedup(s)| - 1] == s[|s| - 1]
  {
    if |s| >= 2 {
      DedupKeeps(s[..|s| - 1], x);
      assert s == s[..|s| - 1] + [s[|s| - 1]];
    }
  }

  ghost predicate StrictlySorted<T>(s: seq<T>, less: (T, T) -> bool) {
    forall i, j | 0 <= i < j < |s| :: less(s[i], s[j])
  }

  lemma LastIsLargest<T(!new)>(s: seq<T>, less: (T, T) -> bool, k: nat)
    requires Orders(less, multiset(s)) && SortedRange(s, less, 0, |s|)
    requires k < |s| - 1 && s[|s| - 2] != s[|s| - 1]
    ensures less(s[k], s[|s| - 1])
  {
    var x, y := s[|s| - 2], s[|s| - 1];
    assert s[k] in multiset(s) && x in multiset(s) && y in multiset(s);
    assert !less(y, x) && !less(y, s[k]);
    assert k < |s| - 2 ==> !less(x, s[k]);
  }

  lemma DedupBelow<T(!new)>(s: seq<T>, less: (T, T) -> bool, i: nat)
    requires |s| >= 2 && Orders(less, multiset(s)) && SortedRange(s, less, 0, |s|) && s[|s| - 2] != s[|s| - 1]
    requires i < |Dedup(s[..|s| - 1])|
    ensures less(Dedup(s[..|s| - 1])[i], s[|s| - 1])
  {
    var front := s[..|s| - 1];
    var x := Dedup(front)[i];
    DedupKeeps(front, x);
    LastIsLargest(s, less, Place(front, x));
  }

  lemma OrdersPart<T(!new)>(less: (T, T) -> bool, m: multiset<T>, part: multiset<T>)
    requires Orders(less, m) && part <= m
    ensures Orders(less, part)
  {
    assert forall x | x in part :: x in m;
  }

  /** On a sorted sequence, dropping repeats leaves every element once. */
  lemma {:induction false} DedupStrict<T(!new)>(s: seq<T>, less: (T, T) -> bool)
    requires Orders(less, multiset(s)) && SortedRange(s, less, 0, |s|)
    ensures StrictlySorted(Dedup(s), less)
  {
    if |s| >= 2 {
      var front := s[..|s| - 1];
      assert s == front + [s[|s| - 1]];
      OrdersPart(less, multiset(s), multiset(front));
      DedupStrict(front, less);
      if s[|s| - 2] != s[|s| - 1] {
        forall i | 0 <= i < |Dedup(front)| ensures less(Dedup(front)[i], s[|s| - 1]) {
          DedupBelow(s, less, i);
        }
      }
    }
  }

  lemma DedupStep<T>(s: seq<T>, k: nat)
    requires 0 < k < |s|
    ensures s[k] == s[k - 1] ==> Dedup(s[..k + 1]) == Dedup(s[..k])
    ensures s[k] != s[k - 1] ==> Dedup(s[..k + 1]) == Dedup(s[..k]) + [s[k]]
  {
    assert s[..k + 1][..k] == s[..k];
  }

  /** The head of the range that has no repeats yet: its last position. */
  method SkipHead<T(==)>(a: array<T>, begin0: nat, end: nat) returns (begin: nat)
    requires begin0 < end <= a.Length
    ensures begin0 <= begin < end && Dedup(a[begin0..begin + 1]) == a[begin0..begin + 1]
  {
    begin := begin0;
    ghost var s := a[begin0..end];
    while end - begin > 1 && a[begin] != a[begin + 1]
      invariant begin0 <= begin < end
      invariant Dedup(s[..begin + 1 - begin0]) == s[..begin + 1 - begin0]
      decreases end - begin
    {
      DedupStep(s, begin + 1 - begin0);
      begin := begin + 1;
    }
    assert a[begin0..begin + 1] == s[..begin + 1 - begin0];
  }

  /**
   * The buffer b held b0; up to write it has the range without repeats up to begin,
   * and from begin on it is unchanged.
   */
  ghost predicate Deduping<T>(b0: seq<T>, b: seq<T>, begin0: nat, end: nat, write: nat, begin: nat) {
    && begin0 <= write < begin <= end <= |b| == |b0|
    && b[begin0..write + 1] == Dedup(b0[begin0..begin])
    && b[write] == b0[begin - 1] && b[begin..] == b0[begin..] && b[..begin0] == b0[..begin0]
  }

  lemma SameRest<T>(a: seq<T>, b: seq<T>, i: nat)
    requires i < |a| && i < |b| && a[i..] == b[i..]
    ensures a[i] == b[i] && a[i + 1..] == b[i + 1..]
  {
    assert a[i] == a[i..][0] && b[i] == b[i..][0];
    assert a[i + 1..] == a[i..][1..] && b[i + 1..] == b[i..][1..];
  }

  /** Writing before the rest and after the front changes neither. */
  lemma WrittenBetween<T>(b: seq<T>, from: nat, w: nat, begin: nat, x: T)
    requires from <= w < begin <= |b|
    ensures b[w := x][from..w + 1] == b[from..w] + [x]
    ensures b[w := x][begin..] == b[begin..] && b[w := x][..from] == b[..from]
  {
  }

  lemma DedupingNext<T>(b0: seq<T>, b: seq<T>, begin0: nat, end: nat, write: nat, begin: nat)
    requires Deduping(b0, b, begin0, end, write, begin) && begin < end
    ensures b[begin] == b[write] ==> Deduping(b0, b, begin0, end, write, begin + 1)
    ensures b[begin] != b[write] ==> Deduping(b0, b[write + 1 := b[begin]], begin0, end, write + 1, begin + 1)
  {
    var s := b0[begin0..end];
    DedupStep(s, begin - begin0);
    assert s[..begin - begin0] == b0[begin0..begin] && s[..begin + 1 - begin0] == b0[begin0..begin + 1];
    SameRest(b, b0, begin);
    if b[begin] != b[write] {
      WrittenBetween(b, begin0, write + 1, begin + 1, b[begin]);
    }
  }

  /** The in-place removal of repeats. */
  method Unique<T(==)>(a: array<T>, begin0: nat, end: nat) returns (last: nat)
    requires begin0 <= end <= a.Length
    modifies a
    ensures begin0 <= last <= end && a[begin0..last] == Dedup(old(a[begin0..end]))
    ensures a[..begin0] == old(a[..begin0]) && a[end..] == old(a[end..])
  {
    if begin0 == end {
      return begin0;
    }
    ghost var b0 := a[..];
    var write: nat := SkipHead(a, begin0, end);
    var begin: nat := write + 1;
    while begin != end
      invariant Deduping(b0, a[..], begin0, end, write, begin)
      decreases end - begin
    {
      ghost var b := a[..];
      DedupingNext(b0, b, begin0, end, write, begin);
      if a[begin] != a[write] {
        write := write + 1;
        a[write] := a[begin];
        assert a[..] == b[write := b[begin]];
      }
      begin := begin + 1;
    }
    last := write + 1;
    assert a[begin0..last] == a[..][begin0..last];
  }
}
