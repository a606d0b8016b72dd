/** The free-range allocator of luna/utils/freelist.py. A subnet's
    unallocated relative addresses are a list of closed ranges sorted by
    `start`; address 0 is the network address, and a new list starts at 1. */
module FreeList {
  import opened Wrappers
  import opened Ranges

  /** What a reservation or a release reports: the single address `start`,
      or the pair `[start, end]` when `end != start`. */
  datatype Grant = Address(addr: int) | Block(first: int, last: int)

  function GrantOf(start: int, end: int): (g: Grant)
    ensures g.Address? <==> start == end
    ensures g.Address? ==> g.addr == start
    ensures g.Block? ==> g.first == start && g.last == end
  {
    if end == start then Address(start) else Block(start, end)
  }

  /** The two situations in which the module raises `RuntimeError`. */
  datatype FreeListError =
    | BoundaryConflict   // set_upper_limit would cut below the last free range
    | BoundaryRequired   // get_nonfree on an empty list without a limit

  /** A Python list of ranges as the caller holds it. `next_free`,
      `set_upper_limit` and `get_nonfree` pop or overwrite the caller's own
      list, so they take one of these and change `ranges`. */
  class RangeList {
    var ranges: seq<Range>

    constructor (rs: seq<Range>)
      ensures ranges == rs
    {
      ranges := rs;
    }
  }

  lemma PositiveCovered(rs: seq<Range>, x: int)
    requires Positive(rs) && x in Covered(rs)
    ensures 1 <= x
  {
    CoveredMember(rs, x);
  }

  /** A canonical list whose addresses are all positive is a free list. */
  lemma PositiveFromCovered(rs: seq<Range>)
    requires Canonical(rs)
    requires forall x :: x in Covered(rs) ==> 1 <= x
    ensures Positive(rs)
  {
    forall i | 0 <= i < |rs|
      ensures 1 <= rs[i].start
    {
      CoveredMember(rs, rs[i].start);
    }
  }

  // =======================================================================
  // next_free

  /** The list `next_free` leaves behind and the address it returns. */
  function TakeLowest(rs: seq<Range>): (seq<Range>, Option<int>)
  {
    if rs == [] then
      (rs, None)
    else if rs[0].start == rs[0].end then
      (rs[1..], Some(rs[0].start))
    else
      ([Range(rs[0].start + 1, rs[0].end)] + rs[1..], Some(rs[0].start))
  }

  method NextFree(flist: RangeList) returns (same: RangeList, addr: Option<int>)
    modifies flist
    ensures same == flist
    ensures (flist.ranges, addr) == TakeLowest(old(flist.ranges))
  {
    if flist.ranges == [] {
      return flist, None;
    }
    var firstRange := flist.ranges[0];
    if firstRange.start == firstRange.end {
      flist.ranges := flist.ranges[1..];
    } else {
      flist.ranges := flist.ranges[0 := Range(firstRange.start + 1, firstRange.end)];
      assert flist.ranges == [Range(firstRange.start + 1, firstRange.end)] + old(flist.ranges)[1..];
    }
    return flist, Some(firstRange.start);
  }

  /** `next_free` fails only on an empty list, and then hands the list back
      untouched; otherwise it takes the lowest free address, removes exactly
      that address, and leaves every later range as it was. */
  lemma TakeLowestTakesMinimum(rs: seq<Range>)
    requires Canonical(rs)
    ensures TakeLowest(rs).1.None? <==> rs == []
    ensures rs == [] ==> TakeLowest(rs).0 == []
    ensures rs != [] ==> TakeLowest(rs).1.value in Covered(rs)
    ensures rs != [] ==> forall x :: x in Covered(rs) ==> TakeLowest(rs).1.value <= x
    ensures rs != [] ==> Covered(TakeLowest(rs).0) == Covered(rs) - {TakeLowest(rs).1.value}
  {
    if rs != [] {
      CanonicalHead(rs);
      var head := rs[0];
      var tail := rs[1..];
      if tail != [] {
        CanonicalHead(tail);
        assert 0 < 1 < |rs| && rs[1] == tail[0];
      }
      assert head.start !in Covered(tail);
      assert Covered(rs) == Span(head) + Covered(tail);
      if head.start == head.end {
        assert Span(head) == {head.start};
        assert TakeLowest(rs).0 == tail;
      } else {
        var mid := Range(head.start + 1, head.end);
        assert Span(head) == {head.start} + Span(mid);
        CoveredSingle(mid);
        CoveredConcat([mid], tail);
        assert TakeLowest(rs).0 == [mid] + tail;
      }
    }
  }

  /** What next_free leaves is a free list again, and every range after the
      first is still there, in order. */
  lemma TakeLowestKeepsFreeList(rs: seq<Range>)
    requires IsFreeList(rs) && rs != []
    ensures IsFreeList(TakeLowest(rs).0)
    ensures |rs| - 1 <= |TakeLowest(rs).0|
    ensures TakeLowest(rs).0[|TakeLowest(rs).0| - (|rs| - 1)..] == rs[1..]
  {
    TakeLowestReplaces(rs);
  }

  /** next_free replaces the first range by what is left of it. */
  lemma TakeLowestReplaces(rs: seq<Range>)
    requires IsFreeList(rs) && rs != []
    ensures IsFreeList(TakeLowest(rs).0)
    ensures Covered(TakeLowest(rs).0) == Covered(rs) - {rs[0].start}
  {
    var rest := TakeLowest(rs).0;
    var mid := if rs[0].start == rs[0].end then [] else [Range(rs[0].start + 1, rs[0].end)];
    if mid != [] {
      CoveredSingle(mid[0]);
    }
    ReplaceFacts(rs, 0, mid, {rs[0].start});
    assert rest == rs[..0] + mid + rs[1..];
  }

  /** Two calls in a row never hand out the same address: the second one
      is strictly higher. */
  lemma TakeLowestTwiceIncreases(rs: seq<Range>)
    requires IsFreeList(rs)
    requires TakeLowest(rs).1.Some? && TakeLowest(TakeLowest(rs).0).1.Some?
    ensures TakeLowest(rs).1.value < TakeLowest(TakeLowest(rs).0).1.value
  {
    TakeLowestTakesMinimum(rs);
    TakeLowestKeepsFreeList(rs);
    var (rest, a) := TakeLowest(rs);
    TakeLowestTakesMinimum(rest);
  }

  // =======================================================================
  // unfree_range

  /** Range `r` holds both `s` and `e`. */
  predicate Holds(r: Range, s: int, e: int)
  {
    r.start <= s <= r.end && r.start <= e <= r.end
  }

  /** What the loop of unfree_range appends for the range holding [s, e],
      branch for branch as written. */
  function Carve(r: Range, s: int, e: int): seq<Range>
  {
    if r.end == e && r.start == s then []
    else if r.start == s then [Range(s + 1, r.end)]
    else if r.end == e then [Range(r.start, s - 1)]
    else if r.end != r.start then [Range(r.start, s - 1), Range(e + 1, r.end)]
    else []
  }

  /** The addresses `Carve` takes out of `r`: all of [s, e], except that
      when `s` is the range's own start and `e` lies below its end only `s`
      goes. */
  ghost function Taken(r: Range, s: int, e: int): set<int>
  {
    if s == r.start && e < r.end then {s} else Interval(s, e)
  }

  /** The list unfree_range builds when range `i` holds [s, e]: the ranges
      before and after it copied in order, range `i` carved. */
  function Carved(rs: seq<Range>, i: int, s: int, e: int): seq<Range>
    requires 0 <= i < |rs|
  {
    rs[..i] + Carve(rs[i], s, e) + rs[i + 1..]
  }

  /** A reservation that starts at a range's first address but ends inside
      it: the case in which the source keeps part of the reserved block. */
  ghost predicate ShortChanged(rs: seq<Range>, s: int, e: int)
  {
    exists k :: 0 <= k < |rs| && rs[k].start == s && e < rs[k].end
  }

  /** The pieces of a carved range are canonical, lie inside the range, and
      miss exactly `Taken`. */
  lemma CarveFacts(r: Range, s: int, e: int)
    requires Holds(r, s, e) && s <= e
    ensures Canonical(Carve(r, s, e))
    ensures forall k :: 0 <= k < |Carve(r, s, e)| ==> r.start <= Carve(r, s, e)[k].start && Carve(r, s, e)[k].end <= r.end
    ensures Covered(Carve(r, s, e)) == Span(r) - Taken(r, s, e)
  {
    var c := Carve(r, s, e);
    if |c| == 1 {
      CoveredSingle(c[0]);
    } else if |c| == 2 {
      CoveredConcat([c[0]], [c[1]]);
      assert c == [c[0]] + [c[1]];
      CoveredSingle(c[0]);
      CoveredSingle(c[1]);
    }
  }

  /** In a canonical list `a + [r] + b` the ranges of `a` lie below `r` and
      the ranges of `b` above it, each with a gap. */
  lemma CanonicalAround(a: seq<Range>, r: Range, b: seq<Range>)
    requires Canonical(a + [r] + b)
    ensures forall x :: x in Covered(a) ==> x + 1 < r.start
    ensures forall x :: x in Covered(b) ==> r.end + 1 < x
    ensures Covered(a + [r] + b) == Covered(a) + Span(r) + Covered(b)
  {
    var c := a + [r] + b;
    assert c[|a|] == r;
    forall x | x in Covered(a)
      ensures x + 1 < r.start
    {
      CoveredMember(a, x);
      var k :| 0 <= k < |a| && a[k].start <= x <= a[k].end;
      assert c[k] == a[k];
    }
    forall x | x in Covered(b)
      ensures r.end + 1 < x
    {
      CoveredMember(b, x);
      var k :| 0 <= k < |b| && b[k].start <= x <= b[k].end;
      assert c[|a| + 1 + k] == b[k];
    }
    CoveredConcat(a + [r], b);
    CoveredConcat(a, [r]);
    CoveredSingle(r);
  }

  /** Replacing range `i` of a canonical list by canonical pieces that lie
      inside it keeps the list canonical. */
  lemma CanonicalReplace(rs: seq<Range>, i: int, mid: seq<Range>)
    requires Canonical(rs) && 0 <= i < |rs| && Canonical(mid)
    requires forall k :: 0 <= k < |mid| ==> rs[i].start <= mid[k].start && mid[k].end <= rs[i].end
    ensures Canonical(rs[..i] + mid + rs[i + 1..])
  {
    var a, b := rs[..i], rs[i + 1..];
    var c := a + mid + b;
    forall x, y | 0 <= x < y < |c|
      ensures c[x].end + 1 < c[y].start
    {
      if y < |a| {
        assert c[x] == rs[x] && c[y] == rs[y];
      } else if y < |a| + |mid| {
        if x >= |a| {
          assert c[x] == mid[x - |a|] && c[y] == mid[y - |a|];
        } else {
          assert c[x] == rs[x] && c[y] == mid[y - |a|];
        }
      } else {
        assert c[y] == rs[y - |a| - |mid| + i + 1];
        if x < |a| {
          assert c[x] == rs[x];
        } else if x < |a| + |mid| {
          assert c[x] == mid[x - |a|];
        } else {
          assert c[x] == rs[x - |a| - |mid| + i + 1];
        }
      }
    }
    forall k | 0 <= k < |c|
      ensures Proper(c[k])
    {
      if k < |a| {
        assert c[k] == rs[k];
      } else if k < |a| + |mid| {
        assert c[k] == mid[k - |a|];
      } else {
        assert c[k] == rs[k - |a| - |mid| + i + 1];
      }
    }
  }

  /** Replacing range `i` of a free list by canonical pieces inside it that
      miss exactly the addresses `t` of that range keeps a free list and
      takes exactly `t` away. */
  lemma ReplaceFacts(rs: seq<Range>, i: int, mid: seq<Range>, t: set<int>)
    requires IsFreeList(rs) && 0 <= i < |rs| && Canonical(mid)
    requires forall k :: 0 <= k < |mid| ==> rs[i].start <= mid[k].start && mid[k].end <= rs[i].end
    requires forall x :: x in t ==> rs[i].start <= x <= rs[i].end
    requires Covered(mid) == Span(rs[i]) - t
    ensures IsFreeList(rs[..i] + mid + rs[i + 1..])
    ensures Covered(rs[..i] + mid + rs[i + 1..]) == Covered(rs) - t
  {
    CanonicalReplace(rs, i, mid);
    assert rs == rs[..i] + [rs[i]] + rs[i + 1..];
    CanonicalAround(rs[..i], rs[i], rs[i + 1..]);
    CoveredConcat(rs[..i] + mid, rs[i + 1..]);
    CoveredConcat(rs[..i], mid);
    var c := rs[..i] + mid + rs[i + 1..];
    forall x | x in Covered(c)
      ensures 1 <= x
    {
      if x in Covered(rs[..i]) || x in Covered(rs[i + 1..]) {
        PositiveCovered(rs, x);
      } else {
        PositiveCovered(rs, rs[i].start);
      }
    }
    PositiveFromCovered(c);
  }

  /** Carving the range that holds [s, e] keeps a free list well formed and
      removes exactly `Taken` from the free addresses. */
  lemma CarvedFacts(rs: seq<Range>, i: int, s: int, e: int)
    requires IsFreeList(rs) && 0 <= i < |rs| && Holds(rs[i], s, e) && s <= e
    ensures IsFreeList(Carved(rs, i, s, e))
    ensures Covered(Carved(rs, i, s, e)) == Covered(rs) - Taken(rs[i], s, e)
  {
    CarveFacts(rs[i], s, e);
    ReplaceFacts(rs, i, Carve(rs[i], s, e), Taken(rs[i], s, e));
  }

  /** The last range of `rs` that holds both `s` and `e`, or -1: the index
      unfree_range's loop ends up with. */
  function Holder(rs: seq<Range>, s: int, e: int): (k: int)
    ensures -1 <= k < |rs|
    ensures k == -1 <==> forall j :: 0 <= j < |rs| ==> !Holds(rs[j], s, e)
    ensures k != -1 ==> Holds(rs[k], s, e) && forall j :: k < j < |rs| ==> !Holds(rs[j], s, e)
  {
    HolderBelow(rs, |rs|, s, e)
  }

  /** The last of the first `n` ranges that holds both `s` and `e`, or -1. */
  function HolderBelow(rs: seq<Range>, n: int, s: int, e: int): (k: int)
    requires 0 <= n <= |rs|
    ensures -1 <= k < n
    ensures k == -1 <==> forall j :: 0 <= j < n ==> !Holds(rs[j], s, e)
    ensures k != -1 ==> Holds(rs[k], s, e) && forall j :: k < j < n ==> !Holds(rs[j], s, e)
  {
    if n == 0 then -1
    else if Holds(rs[n - 1], s, e) then n - 1
    else HolderBelow(rs, n - 1, s, e)
  }

  /** In a canonical list at most one range holds a given address, so the
      range that holds [s, e] is the one `Holder` finds. */
  lemma HolderUnique(rs: seq<Range>, k: int, s: int, e: int)
    requires Canonical(rs) && 0 <= k < |rs| && Holds(rs[k], s, e)
    ensures Holder(rs, s, e) == k
  {
  }

  /** What unfree_range returns for a free list: the list with [s, e]
      carved out of the range that holds it and the reservation, or the
      list itself and None when no single range holds both ends. */
  function Reserve(rs: seq<Range>, s: int, e: int): (seq<Range>, Option<Grant>)
  {
    var k := Holder(rs, s, e);
    if k == -1 then (rs, None) else (Carved(rs, k, s, e), Some(GrantOf(s, e)))
  }

  /** The list unfree_range's loop builds from the first `n` ranges: each
      range that holds both ends carved, every other one copied. */
  function CarveUpTo(rs: seq<Range>, n: int, s: int, e: int): seq<Range>
    requires 0 <= n <= |rs|
  {
    if n == 0 then []
    else CarveUpTo(rs, n - 1, s, e) + (if Holds(rs[n - 1], s, e) then Carve(rs[n - 1], s, e) else [rs[n - 1]])
  }

  /** What unfree_range returns for any list whatever its shape: the list
      unchanged and None when it is empty, an end lies outside
      [first start, last end], or no range holds both ends; otherwise every
      range holding both ends carved, and the reservation. */
  function Unfree(rs: seq<Range>, s: int, e: int): (seq<Range>, Option<Grant>)
  {
    if rs == [] then (rs, None)
    else if !(rs[0].start <= s <= Last(rs).end) || !(rs[0].start <= e <= Last(rs).end) then (rs, None)
    else if Holder(rs, s, e) == -1 then (rs, None)
    else (CarveUpTo(rs, |rs|, s, e), Some(GrantOf(s, e)))
  }

  method UnfreeRange(flist: seq<Range>, start: int, end: Option<int>) returns (newList: seq<Range>, unfreed: Option<Grant>)
    ensures (newList, unfreed) == Unfree(flist, start, end.GetOr(start))
  {
    var last := end.GetOr(start);
    if flist == [] {
      return flist, None;
    }
    var firstFree := flist[0].start;
    var lastFree := Last(flist).end;
    if !(firstFree <= start < lastFree + 1) || !(firstFree <= last < lastFree + 1) {
      return flist, None;
    }
    var index;
    newList, index := CarveLoop(flist, start, last);
    if index == -1 {
      return flist, None;
    }
    if last == start {
      return newList, Some(Address(start));
    } else {
      return newList, Some(Block(start, last));
    }
  }

  /** The loop of unfree_range: copy every range, except that one holding
      [start, last] is carved, and remember the index of the last such
      range. */
  method CarveLoop(flist: seq<Range>, start: int, last: int) returns (newList: seq<Range>, index: int)
    ensures index == Holder(flist, start, last)
    ensures newList == CarveUpTo(flist, |flist|, start, last)
  {
    newList := [];
    index := -1;
    for i := 0 to |flist|
      invariant index == HolderBelow(flist, i, start, last)
      invariant newList == CarveUpTo(flist, i, start, last)
    {
      var frange := flist[i];
      if frange.start <= start < frange.end + 1 && frange.start <= last < frange.end + 1 {
        index := i;
        if frange.end == last && frange.start == start {
          continue;
        } else if frange.start == start {
          newList := newList + [Range(start + 1, frange.end)];
        } else if frange.end == last {
          newList := newList + [Range(frange.start, start - 1)];
        } else if frange.end != frange.start {
          newList := newList + [Range(frange.start, start - 1), Range(last + 1, frange.end)];
        }
      } else {
        newList := newList + [frange];
      }
    }
  }

  /** Ranges that do not hold [s, e] are copied unchanged and in order. */
  lemma {:induction false} CarveUpToCopies(rs: seq<Range>, k: int, n: int, s: int, e: int)
    requires 0 <= k <= n <= |rs|
    requires forall j :: k <= j < n ==> !Holds(rs[j], s, e)
    ensures CarveUpTo(rs, n, s, e) == CarveUpTo(rs, k, s, e) + rs[k..n]
  {
    if k < n {
      CarveUpToCopies(rs, k, n - 1, s, e);
      assert rs[k..n] == rs[k..n - 1] + [rs[n - 1]];
    }
  }

  /** When only range `k` holds [s, e], the loop carves that range alone. */
  lemma CarveUpToCarved(rs: seq<Range>, k: int, s: int, e: int)
    requires 0 <= k < |rs| && Holds(rs[k], s, e)
    requires forall j :: 0 <= j < |rs| && j != k ==> !Holds(rs[j], s, e)
    ensures CarveUpTo(rs, |rs|, s, e) == Carved(rs, k, s, e)
  {
    assert CarveUpTo(rs, k, s, e) == rs[..k] by {
      CarveUpToCopies(rs, 0, k, s, e);
      assert rs[0..k] == rs[..k];
    }
    assert CarveUpTo(rs, |rs|, s, e) == CarveUpTo(rs, k + 1, s, e) + rs[k + 1..] by {
      CarveUpToCopies(rs, k + 1, |rs|, s, e);
      assert rs[k + 1..|rs|] == rs[k + 1..];
    }
    assert CarveUpTo(rs, k + 1, s, e) == CarveUpTo(rs, k, s, e) + Carve(rs[k], s, e);
  }

  /** In a free list the range holding [s, e] is the only one. */
  lemma HolderAlone(rs: seq<Range>, k: int, s: int, e: int)
    requires Canonical(rs) && 0 <= k < |rs| && Holds(rs[k], s, e)
    ensures forall j :: 0 <= j < |rs| && j != k ==> !Holds(rs[j], s, e)
  {
    forall j | 0 <= j < |rs| && j != k
      ensures !Holds(rs[j], s, e)
    {
      if j < k {
        assert rs[j].end + 1 < rs[k].start;
      }
    }
  }

  /** On a free list unfree_range does what `Reserve` says: the bound
      checks reject nothing that a range could hold, and only one range
      can hold [s, e]. */
  lemma UnfreeIsReserve(rs: seq<Range>, s: int, e: int)
    requires IsFreeList(rs)
    ensures Unfree(rs, s, e) == Reserve(rs, s, e)
  {
    var k := Holder(rs, s, e);
    if k != -1 {
      CoveredMember(rs, s);
      CoveredMember(rs, e);
      CanonicalBounds(rs, s);
      CanonicalBounds(rs, e);
      HolderAlone(rs, k, s, e);
      CarveUpToCarved(rs, k, s, e);
    }
  }

  /** unfree_range reserves exactly when one range holds both ends, and
      then reports `start` or `[start, end]`; otherwise it returns the list
      untouched. */
  lemma ReserveOutcome(rs: seq<Range>, s: int, e: int)
    ensures Reserve(rs, s, e).1.None? <==> forall k :: 0 <= k < |rs| ==> !Holds(rs[k], s, e)
    ensures Reserve(rs, s, e).1.None? ==> Reserve(rs, s, e).0 == rs
    ensures Reserve(rs, s, e).1.Some? ==>
      && Reserve(rs, s, e).1.value == GrantOf(s, e)
      && (forall x :: s <= x <= e ==> x in Covered(rs))
  {
    var k := Holder(rs, s, e);
    if k != -1 {
      forall x | s <= x <= e
        ensures x in Covered(rs)
      {
        CoveredMember(rs, x);
      }
    }
  }

  /** A reservation keeps a free list well formed and takes out of it
      exactly the reserved addresses, except in the left-edge case where
      only `start` goes. */
  lemma ReserveCovered(rs: seq<Range>, s: int, e: int)
    requires IsFreeList(rs) && s <= e
    requires Reserve(rs, s, e).1.Some?
    ensures IsFreeList(Reserve(rs, s, e).0)
    ensures !ShortChanged(rs, s, e) ==> Covered(Reserve(rs, s, e).0) == Covered(rs) - Interval(s, e)
    ensures ShortChanged(rs, s, e) ==> Covered(Reserve(rs, s, e).0) == Covered(rs) - {s}
  {
    var k := Holder(rs, s, e);
    CarvedFacts(rs, k, s, e);
    if ShortChanged(rs, s, e) {
      var j :| 0 <= j < |rs| && rs[j].start == s && e < rs[j].end;
      assert j == k;
    }
  }

  // =======================================================================
  // free_range

  /** The list free_range returns: the new range appended, the list sorted
      by `start`, and touching or overlapping ranges merged. */
  ghost function Released(rs: seq<Range>, start: int, end: int): seq<Range>
  {
    Coalesce(SortByStart(rs + [Range(start, end)]))
  }

  /** Releasing adds exactly [start, end] to the free addresses and yields a
      canonical list, whatever order the input was in. */
  lemma ReleasedFacts(rs: seq<Range>, start: int, end: int)
    requires AllProper(rs) && start <= end
    ensures Canonical(Released(rs, start, end))
    ensures Covered(Released(rs, start, end)) == Covered(rs) + Interval(start, end)
  {
    var tmp := rs + [Range(start, end)];
    SortByStartFacts(tmp);
    CoalesceFacts(SortByStart(tmp));
    CoveredConcat(rs, [Range(start, end)]);
    CoveredSingle(Range(start, end));
  }

  method FreeRange(flist: seq<Range>, start: int, end: Option<int>) returns (newList: seq<Range>, freed: Grant)
    requires AllProper(flist)
    requires start <= end.GetOr(start)
    ensures newList == Released(flist, start, end.GetOr(start))
    ensures freed == GrantOf(start, end.GetOr(start))
  {
    var last := end.GetOr(start);
    var tmpList := flist + [Range(start, last)];
    SortByStartProper(tmpList);
    tmpList := SortByStart(tmpList);
    newList := MergePass(tmpList);
    freed := if last == start then Address(start) else Block(start, last);
  }

  /** The merge loop of free_range over the sorted copy: a run of ranges
      that overlap or touch becomes one range, and `skip` steps the outer
      loop over the ranges the run swallowed. */
  method MergePass(tmpList: seq<Range>) returns (newList: seq<Range>)
    requires SortedByStart(tmpList) && AllProper(tmpList)
    ensures newList == Coalesce(tmpList)
  {
    newList := [];
    var skip := 0;
    ghost var swept := 0;   // ranges of tmpList merged into newList so far
    for i := 0 to |tmpList|
      invariant swept == i + skip <= |tmpList|
      invariant newList == Sweep(tmpList, swept)
      invariant newList != [] && swept < |tmpList| ==> Last(newList).end + 1 < tmpList[swept].start
    {
      if skip > 0 {
        skip := skip - 1;
        continue;
      }
      SweepAppend(tmpList, i, newList);
      if i == |tmpList| - 1 {
        newList := newList + [tmpList[i]];
        swept := i + 1;
      } else if tmpList[i].start <= tmpList[i + 1].start < tmpList[i].end + 2 {
        var e;
        e, skip := MergeRun(tmpList, i, newList);
        newList := newList + [Range(tmpList[i].start, e)];
        swept := i + 1 + skip;
        assert Last(newList) == Range(tmpList[i].start, e);
      } else {
        assert tmpList[i].start <= tmpList[i + 1].start;
        assert tmpList[i].end + 1 < tmpList[i + 1].start;
        newList := newList + [tmpList[i]];
        swept := i + 1;
        assert Last(newList) == tmpList[i];
      }
    }
  }

  /** A range beyond the last merged one, with a gap, starts a new one. */
  lemma SweepAppend(rs: seq<Range>, i: int, merged: seq<Range>)
    requires 0 <= i < |rs| && merged == Sweep(rs, i)
    requires merged != [] ==> Last(merged).end + 1 < rs[i].start
    ensures Sweep(rs, i + 1) == merged + [rs[i]]
  {
    AbsorbAppends(merged, rs[i]);
  }

  /** The inner loop of free_range: starting from range `i`, absorb every
      following range that overlaps or touches the run, and report the
      run's upper end and how many ranges it swallowed. */
  method MergeRun(tmpList: seq<Range>, i: int, ghost merged: seq<Range>) returns (e: int, skip: int)
    requires SortedByStart(tmpList) && AllProper(tmpList)
    requires 0 <= i < |tmpList|
    requires Sweep(tmpList, i + 1) == merged + [tmpList[i]]
    ensures 0 <= skip && i + 1 + skip <= |tmpList|
    ensures tmpList[i].start <= e
    ensures Sweep(tmpList, i + 1 + skip) == merged + [Range(tmpList[i].start, e)]
    ensures i + 1 + skip < |tmpList| ==> e + 1 < tmpList[i + 1 + skip].start
  {
    var s := tmpList[i].start;
    e := tmpList[i].end;
    skip := 0;
    var j := i + 1;
    while j < |tmpList|
      invariant i + 1 <= j <= |tmpList|
      invariant skip == j - i - 1
      invariant s <= e
      invariant merged + [Range(s, e)] == Sweep(tmpList, j)
    {
      var r := tmpList[j];
      if r.end >= e && r.start <= e + 1 {
        Swallow(tmpList, j, merged, s, e);
        e := r.end;
        skip := skip + 1;
      } else if r.end <= e && r.start >= s {
        Swallow(tmpList, j, merged, s, e);
        skip := skip + 1;
      } else {
        assert tmpList[i].start <= r.start;
        assert e + 1 < r.start;
        break;
      }
      j := j + 1;
    }
    assert i + 1 + skip == j;
  }

  /** A range that overlaps or touches the current run extends it. */
  lemma Swallow(rs: seq<Range>, j: int, merged: seq<Range>, s: int, e: int)
    requires 0 <= j < |rs| && rs[j].start <= e + 1
    requires merged + [Range(s, e)] == Sweep(rs, j)
    ensures merged + [Range(s, Max(e, rs[j].end))] == Sweep(rs, j + 1)
  {
    AbsorbExtends(merged, s, e, rs[j]);
  }

  // =======================================================================
  // set_upper_limit

  method SetUpperLimit(flist: RangeList, end: int) returns (res: Result<RangeList, FreeListError>)
    requires flist.ranges != []
    modifies flist
    ensures res.Err? <==> Last(old(flist.ranges)).start > end
    ensures res.Err? ==> res.error == BoundaryConflict && flist.ranges == old(flist.ranges)
    ensures res.Ok? ==> res.value == flist && flist.ranges == WithLastEnd(old(flist.ranges), end)
  {
    var lastRange := flist.ranges[|flist.ranges| - 1];
    if lastRange.start > end {
      return Err(BoundaryConflict);
    }
    flist.ranges := flist.ranges[|flist.ranges| - 1 := Range(lastRange.start, end)];
    return Ok(flist);
  }

  /** Moving the ceiling keeps a free list well formed, keeps every free
      address below the last range's start, and makes the last range run
      exactly to the new ceiling. */
  lemma UpperLimitKeepsLowerAddresses(rs: seq<Range>, end: int)
    requires IsFreeList(rs) && rs != [] && Last(rs).start <= end
    ensures IsFreeList(WithLastEnd(rs, end))
    ensures forall x :: x < Last(rs).start ==> (x in Covered(WithLastEnd(rs, end)) <==> x in Covered(rs))
    ensures forall x :: Last(rs).start <= x ==> (x in Covered(WithLastEnd(rs, end)) <==> x <= end)
  {
    var init := rs[..|rs| - 1];
    WithLastEndCovered(rs, end);
    assert rs == init + [Last(rs)] + [];
    CanonicalAround(init, Last(rs), []);
    UpperLimitShape(rs, end);
  }

  lemma UpperLimitShape(rs: seq<Range>, end: int)
    requires IsFreeList(rs) && rs != [] && Last(rs).start <= end
    ensures IsFreeList(WithLastEnd(rs, end))
  {
    var init := rs[..|rs| - 1];
    assert Canonical(init);
    if init != [] {
      assert Last(init).end + 1 < Last(rs).start;
    }
    CanonicalSnoc(init, Range(Last(rs).start, end));
    assert init + [Range(Last(rs).start, end)] == WithLastEnd(rs, end);
  }

  // =======================================================================
  // get_nonfree

  /** Python's `range(lo, hi)`. */
  function IntRange(lo: int, hi: int): (r: seq<int>)
    ensures |r| == if lo < hi then hi - lo else 0
    ensures forall k :: 0 <= k < |r| ==> r[k] == lo + k
  {
    if hi <= lo then [] else seq(hi - lo, k => lo + k)
  }

  /** The addresses in [lo, hi) outside the free set, ascending. */
  function Uncovered(free: set<int>, lo: int, hi: int): seq<int>
    decreases hi - lo
  {
    if hi <= lo then []
    else if hi - 1 in free then Uncovered(free, lo, hi - 1)
    else Uncovered(free, lo, hi - 1) + [hi - 1]
  }

  /** What get_nonfree returns, or the error it raises. */
  ghost function NonFree(rs: seq<Range>, limit: Option<int>): Result<seq<int>, FreeListError>
  {
    if rs == [] then
      if limit.None? then Err(BoundaryRequired) else Ok(IntRange(1, limit.value))
    else
      Ok(Uncovered(Covered(rs), 1, Last(rs).start))
  }

  /** One round of get_nonfree's loop as written, for address `i`: inside
      the head range nothing happens; otherwise `i` is listed, and when it
      lies past the head range that one range (and only it) is dropped. An
      empty list would raise IndexError; the loop never reaches one, since
      it stops below the last range's start. */
  function ScanStep(fl: seq<Range>, out: seq<int>, i: int): (seq<Range>, seq<int>)
  {
    if fl == [] then (fl, out)
    else if fl[0].start <= i <= fl[0].end then (fl, out)
    else if i > fl[0].end then (fl[1..], out + [i])
    else (fl, out + [i])
  }

  /** The list and the result after the rounds for addresses 1 to n - 1. */
  function Scan(rs: seq<Range>, n: int): (seq<Range>, seq<int>)
    decreases n
  {
    if n <= 1 then (rs, [])
    else
      var prev := Scan(rs, n - 1);
      ScanStep(prev.0, prev.1, n - 1)
  }

  /** get_nonfree as written: the list the caller is left with, and the
      result or the error raised. */
  function NonfreeAsWritten(rs: seq<Range>, limit: Option<int>): (seq<Range>, Result<seq<int>, FreeListError>)
  {
    if rs == [] then
      (rs, if limit.None? then Err(BoundaryRequired) else Ok(IntRange(1, limit.value)))
    else
      var scanned := Scan(rs, Last(rs).start);
      (scanned.0, Ok(scanned.1))
  }

  method GetNonfree(flist: RangeList, limit: Option<int>) returns (res: Result<seq<int>, FreeListError>)
    requires flist.ranges != [] ==> Proper(Last(flist.ranges))
    modifies flist
    ensures (flist.ranges, res) == NonfreeAsWritten(old(flist.ranges), limit)
  {
    if flist.ranges == [] && limit.None? {
      return Err(BoundaryRequired);
    } else if flist.ranges == [] {
      return Ok(IntRange(1, limit.value));
    }
    ghost var all := flist.ranges;
    ghost var p := 0;
    var lastNonfree := Last(flist.ranges).start;
    var nonfreeList := [];
    var i := 1;
    while i < lastNonfree
      invariant 1 <= i && (i <= lastNonfree || i == 1)
      invariant 0 <= p < |all| && flist.ranges == all[p..]
      invariant (flist.ranges, nonfreeList) == Scan(all, i)
    {
      var head := flist.ranges[0];
      if head.start <= i < head.end + 1 {
        i := i + 1;
        continue;
      }
      if i > head.end {
        flist.ranges := flist.ranges[1..];
        p := p + 1;
      }
      nonfreeList := nonfreeList + [i];
      i := i + 1;
    }
    return Ok(nonfreeList);
  }

  /** On a canonical list none of whose ranges lies wholly below address 0,
      the scan so far has listed exactly the uncovered addresses below `n`,
      and the list it holds starts at range `p`, the first one that can
      still hold `n`. */
  lemma {:induction false} ScanUncovered(rs: seq<Range>, n: int) returns (p: int)
    requires Canonical(rs) && rs != [] && 0 <= rs[0].end
    requires 1 <= n <= Last(rs).start
    ensures 0 <= p < |rs| && Scan(rs, n).0 == rs[p..]
    ensures n <= rs[p].end + 1 && (p == 0 || rs[p - 1].end < n)
    ensures Scan(rs, n).1 == Uncovered(Covered(rs), 1, n)
    decreases n
  {
    if n == 1 {
      p := 0;
      assert Scan(rs, n) == (rs, []) && Uncovered(Covered(rs), 1, n) == [];
      assert rs[0..] == rs;
    } else {
      var q := ScanUncovered(rs, n - 1);
      p := ScanAdvance(rs, Covered(rs), q, n, Scan(rs, n - 1).1);
    }
  }

  /** The round for address n - 1 keeps the relation ScanUncovered
      states. */
  lemma ScanAdvance(rs: seq<Range>, free: set<int>, q: int, n: int, out: seq<int>) returns (p: int)
    requires Canonical(rs) && free == Covered(rs)
    requires 0 <= q < |rs| && 2 <= n <= Last(rs).start
    requires n - 1 <= rs[q].end + 1 && (q == 0 || rs[q - 1].end < n - 1)
    requires Scan(rs, n - 1) == (rs[q..], out) && out == Uncovered(free, 1, n - 1)
    ensures 0 <= p < |rs| && Scan(rs, n).0 == rs[p..]
    ensures n <= rs[p].end + 1 && (p == 0 || rs[p - 1].end < n)
    ensures Scan(rs, n).1 == Uncovered(free, 1, n)
  {
    var i := n - 1;
    NonfreeStep(rs, free, q, i);
    assert Scan(rs, n) == ScanStep(rs[q..], out, i);
    assert rs[q..][0] == rs[q];
    if rs[q].start <= i <= rs[q].end {
      p := q;
    } else if i > rs[q].end {
      p := q + 1;
    } else {
      p := q;
    }
  }

  /** get_nonfree as written meets its specification on every canonical
      list none of whose ranges lies wholly below address 0 (relative
      address 0 itself may be free), and leaves the caller only the last
      range. */
  lemma NonfreeAsWrittenMeetsSpec(rs: seq<Range>, limit: Option<int>)
    requires Canonical(rs) && (rs != [] ==> 0 <= rs[0].end)
    ensures NonfreeAsWritten(rs, limit).1 == NonFree(rs, limit)
    ensures NonfreeAsWritten(rs, limit).0 == if rs == [] then [] else [Last(rs)]
  {
    if rs != [] {
      var top := Last(rs).start;
      if top >= 1 {
        var p := ScanUncovered(rs, top);
        assert rs[|rs| - 1..] == [Last(rs)];
      }
    }
  }

  /** Lists with relative address 0 free are handled as the specification
      says; a range lying wholly below 0 is dropped together with a free
      address 1 that the one-range-per-round drop then misses. */
  lemma NonfreeExamples()
    ensures NonfreeAsWritten([Range(0, 254)], None) == ([Range(0, 254)], Ok([]))
    ensures NonfreeAsWritten([Range(0, 3), Range(10, 254)], None).1 == Ok([4, 5, 6, 7, 8, 9])
    ensures NonfreeAsWritten([Range(-3, -1), Range(1, 5), Range(8, 9)], None).1 == Ok([1, 6, 7])
    ensures 1 in Covered([Range(-3, -1), Range(1, 5), Range(8, 9)])
  {
    var a := [Range(0, 3), Range(10, 254)];
    assert Scan(a, 4) == (a, []);
    assert Scan(a, 5) == ScanStep(a, [], 4) == (a[1..], [] + [4]);
    assert [] + [4] == [4];
    assert Scan(a, 6) == ScanStep(a[1..], [4], 5) == (a[1..], [4] + [5]);
    assert [4] + [5] == [4, 5];
    assert Scan(a, 7) == ScanStep(a[1..], [4, 5], 6) == (a[1..], [4, 5] + [6]);
    assert [4, 5] + [6] == [4, 5, 6];
    assert Scan(a, 8) == ScanStep(a[1..], [4, 5, 6], 7) == (a[1..], [4, 5, 6] + [7]);
    assert [4, 5, 6] + [7] == [4, 5, 6, 7];
    assert Scan(a, 9) == ScanStep(a[1..], [4, 5, 6, 7], 8) == (a[1..], [4, 5, 6, 7] + [8]);
    assert [4, 5, 6, 7] + [8] == [4, 5, 6, 7, 8];
    assert Scan(a, 10) == ScanStep(a[1..], [4, 5, 6, 7, 8], 9) == (a[1..], [4, 5, 6, 7, 8] + [9]);
    assert [4, 5, 6, 7, 8] + [9] == [4, 5, 6, 7, 8, 9];
    var b := [Range(-3, -1), Range(1, 5), Range(8, 9)];
    assert Scan(b, 2) == ScanStep(b, [], 1) == (b[1..], [] + [1]);
    assert [] + [1] == [1];
    assert Scan(b, 6) == (b[1..], [1]);
    assert Scan(b, 7) == ScanStep(b[1..], [1], 6) == (b[1..][1..], [1] + [6]);
    assert [1] + [6] == [1, 6];
    assert Scan(b, 8) == ScanStep(b[1..][1..], [1, 6], 7) == (b[1..][1..], [1, 6] + [7]);
    assert [1, 6] + [7] == [1, 6, 7];
    CoveredAt(b, 1, 1);
  }

  /** One round of get_nonfree's loop: the head range `p` decides whether
      `i` is free, and once `i` is past it the next range is the head. */
  lemma NonfreeStep(all: seq<Range>, free: set<int>, p: int, i: int)
    requires Canonical(all) && free == Covered(all)
    requires 0 <= p < |all| && 1 <= i < Last(all).start
    requires i <= all[p].end + 1 && (p == 0 || all[p - 1].end < i)
    ensures all[p].start <= i <= all[p].end ==> Uncovered(free, 1, i + 1) == Uncovered(free, 1, i)
    ensures !(all[p].start <= i <= all[p].end) ==> Uncovered(free, 1, i + 1) == Uncovered(free, 1, i) + [i]
    ensures i > all[p].end ==> p + 1 < |all| && i + 1 <= all[p + 1].end + 1 && all[p..][1..] == all[p + 1..]
  {
    if all[p].start <= i <= all[p].end {
      CoveredAt(all, p, i);
    } else {
      FreeGap(all, p, i);
    }
    if i > all[p].end && p + 1 < |all| {
      assert all[p].end + 1 < all[p + 1].start;
    }
  }

  /** Below range `p`'s start, or just past its end, with the range before
      it behind: an address the free list does not cover. */
  lemma FreeGap(rs: seq<Range>, p: int, i: int)
    requires Canonical(rs) && 0 <= p < |rs|
    requires p == 0 || rs[p - 1].end < i
    requires i <= rs[p].end + 1 && !(rs[p].start <= i <= rs[p].end)
    ensures i !in Covered(rs)
  {
    forall k | 0 <= k < |rs|
      ensures !(rs[k].start <= i <= rs[k].end)
    {
      if k < p - 1 {
        assert rs[k].end + 1 < rs[p - 1].start;
      } else if k > p {
        assert rs[p].end + 1 < rs[k].start;
      }
    }
    CoveredMember(rs, i);
  }

  /** get_nonfree lists, in ascending order, exactly the addresses from 1
      up to the high-water mark that no range covers: the last range's start,
      or `limit` when the list is empty. */
  lemma NonFreeSpec(rs: seq<Range>, limit: Option<int>)
    requires NonFree(rs, limit).Ok?
    ensures var top := if rs == [] then limit.value else Last(rs).start;
      var r := NonFree(rs, limit).value;
      && (forall x :: x in r <==> 1 <= x < top && x !in Covered(rs))
      && (forall a, b :: 0 <= a < b < |r| ==> r[a] < r[b])
  {
    if rs == [] {
      var r := IntRange(1, limit.value);
      forall x | 1 <= x < limit.value
        ensures x in r
      {
        assert r[x - 1] == x;
      }
    } else {
      UncoveredMembers(Covered(rs), 1, Last(rs).start);
    }
  }

  lemma {:induction false} UncoveredMembers(free: set<int>, lo: int, hi: int)
    ensures forall x :: x in Uncovered(free, lo, hi) <==> lo <= x < hi && x !in free
    ensures forall a, b :: 0 <= a < b < |Uncovered(free, lo, hi)| ==> Uncovered(free, lo, hi)[a] < Uncovered(free, lo, hi)[b]
    decreases hi - lo
  {
    if lo < hi {
      UncoveredMembers(free, lo, hi - 1);
      var u := Uncovered(free, lo, hi - 1);
      forall k | 0 <= k < |u|
        ensures u[k] < hi - 1
      {
        assert u[k] in u;
      }
    }
  }

  /** Every address below the high-water mark is either listed by
      get_nonfree or free: the two counts add up. */
  lemma {:induction false} UncoveredCount(free: set<int>, lo: int, hi: int)
    requires lo <= hi
    ensures |Uncovered(free, lo, hi)| + |free * Interval(lo, hi - 1)| == hi - lo
    decreases hi - lo
  {
    if lo < hi {
      UncoveredCount(free, lo, hi - 1);
      IntervalStep(free, lo, hi - 1);
    } else {
      assert free * Interval(lo, hi - 1) == {};
    }
  }

  /** The part of `S` in [lo, hi] is its part in [lo, hi - 1] plus `hi`
      when `S` holds it. */
  lemma IntervalStep(S: set<int>, lo: int, hi: int)
    requires lo <= hi
    ensures |S * Interval(lo, hi)| == |S * Interval(lo, hi - 1)| + (if hi in S then 1 else 0)
  {
    var c, c' := S * Interval(lo, hi - 1), S * Interval(lo, hi);
    if hi in S {
      assert hi !in c;
      assert c' == c + {hi};
    } else {
      assert c' == c;
    }
  }

  /** Two free sets that agree on [lo, hi) leave the same addresses
      uncovered there. */
  lemma {:induction false} UncoveredAgree(a: set<int>, b: set<int>, lo: int, hi: int)
    requires forall x :: lo <= x < hi ==> (x in a <==> x in b)
    ensures Uncovered(a, lo, hi) == Uncovered(b, lo, hi)
    decreases hi - lo
  {
    if lo < hi {
      UncoveredAgree(a, b, lo, hi - 1);
    }
  }

  /** Moving the ceiling does not change which addresses get_nonfree
      reports. */
  lemma UpperLimitKeepsNonFree(rs: seq<Range>, end: int, limit: Option<int>)
    requires IsFreeList(rs) && rs != [] && Last(rs).start <= end
    ensures NonFree(WithLastEnd(rs, end), limit) == NonFree(rs, limit)
  {
    UpperLimitKeepsLowerAddresses(rs, end);
    UncoveredAgree(Covered(WithLastEnd(rs, end)), Covered(rs), 1, Last(rs).start);
  }

  // =======================================================================
  // How the operations fit together

  /** Re-freeing addresses that are already free returns an equal list. */
  lemma ReleaseFreeIsIdentity(rs: seq<Range>, s: int, e: int)
    requires Canonical(rs) && s <= e
    requires forall x :: s <= x <= e ==> x in Covered(rs)
    ensures Released(rs, s, e) == rs
  {
    ReleasedFacts(rs, s, e);
    assert Covered(rs) + Interval(s, e) == Covered(rs);
    CanonicalUnique(Released(rs, s, e), rs);
  }

  /** Releasing the same block twice is the same as releasing it once. */
  lemma ReleaseIdempotent(rs: seq<Range>, s: int, e: int)
    requires AllProper(rs) && s <= e
    ensures Released(Released(rs, s, e), s, e) == Released(rs, s, e)
  {
    ReleasedFacts(rs, s, e);
    ReleaseFreeIsIdentity(Released(rs, s, e), s, e);
  }

  /** Handing out the lowest address and releasing it again restores the
      list. */
  lemma TakeThenRelease(rs: seq<Range>)
    requires IsFreeList(rs) && rs != []
    ensures var (rest, a) := TakeLowest(rs); Released(rest, a.value, a.value) == rs
  {
    TakeLowestTakesMinimum(rs);
    TakeLowestKeepsFreeList(rs);
    var (rest, a) := TakeLowest(rs);
    ReleasedFacts(rest, a.value, a.value);
    assert (Covered(rs) - {a.value}) + Interval(a.value, a.value) == Covered(rs);
    CanonicalUnique(Released(rest, a.value, a.value), rs);
  }

  /** Reserving and then releasing the same block restores the list
      whenever the reservation took the whole block: always for a single
      address, and for a block except in the left-edge case. */
  lemma ReserveThenRelease(rs: seq<Range>, s: int, e: int)
    requires IsFreeList(rs) && s <= e
    requires Reserve(rs, s, e).1.Some?
    requires s == e || !ShortChanged(rs, s, e)
    ensures Released(Reserve(rs, s, e).0, s, e) == rs
  {
    ReserveOutcome(rs, s, e);
    ReserveCovered(rs, s, e);
    var rest := Reserve(rs, s, e).0;
    ReleasedFacts(rest, s, e);
    assert Covered(rest) == Covered(rs) - Interval(s, e);
    assert (Covered(rs) - Interval(s, e)) + Interval(s, e) == Covered(rs);
    CanonicalUnique(Released(rest, s, e), rs);
  }

  // =======================================================================
  // The left-edge case of unfree_range

  /** As written: reserving [1, 5] from the full list [1, 254] reports the
      block as reserved but only takes address 1, so the next next_free
      hands out address 2 a second time. */
  lemma LeftEdgeReservationLeaks()
    ensures Reserve([Range(1, 254)], 1, 5) == ([Range(2, 254)], Some(Block(1, 5)))
    ensures TakeLowest(Reserve([Range(1, 254)], 1, 5).0).1 == Some(2)
  {
    var rs := [Range(1, 254)];
    assert Holder(rs, 1, 5) == 0;
    assert rs[..0] == [] && rs[1..] == [];
    assert Carved(rs, 0, 1, 5) == [Range(2, 254)];
  }

  /** The carve the branch at the left edge evidently intends: the
      remainder of the range above `e`. */
  function CarveIntended(r: Range, s: int, e: int): seq<Range>
  {
    if r.end == e && r.start == s then []
    else if r.start == s then [Range(e + 1, r.end)]
    else if r.end == e then [Range(r.start, s - 1)]
    else [Range(r.start, s - 1), Range(e + 1, r.end)]
  }

  /** unfree_range with the corrected left-edge branch. */
  function ReserveIntended(rs: seq<Range>, s: int, e: int): (seq<Range>, Option<Grant>)
  {
    var k := Holder(rs, s, e);
    if k == -1 then (rs, None)
    else (rs[..k] + CarveIntended(rs[k], s, e) + rs[k + 1..], Some(GrantOf(s, e)))
  }

  lemma CarveIntendedFacts(r: Range, s: int, e: int)
    requires Holds(r, s, e) && s <= e
    ensures Canonical(CarveIntended(r, s, e))
    ensures forall k :: 0 <= k < |CarveIntended(r, s, e)| ==> r.start <= CarveIntended(r, s, e)[k].start && CarveIntended(r, s, e)[k].end <= r.end
    ensures Covered(CarveIntended(r, s, e)) == Span(r) - Interval(s, e)
  {
    var c := CarveIntended(r, s, e);
    if |c| == 1 {
      CoveredSingle(c[0]);
    } else if |c| == 2 {
      CoveredConcat([c[0]], [c[1]]);
      assert c == [c[0]] + [c[1]];
      CoveredSingle(c[0]);
      CoveredSingle(c[1]);
    }
  }

  /** The corrected reservation takes exactly [s, e] out of the free list,
      keeps it well formed, and releasing the block restores the list. */
  lemma ReserveIntendedRemovesBlock(rs: seq<Range>, s: int, e: int)
    requires IsFreeList(rs) && s <= e
    requires ReserveIntended(rs, s, e).1.Some?
    ensures IsFreeList(ReserveIntended(rs, s, e).0)
    ensures Covered(ReserveIntended(rs, s, e).0) == Covered(rs) - Interval(s, e)
    ensures Released(ReserveIntended(rs, s, e).0, s, e) == rs
  {
    var k := Holder(rs, s, e);
    CarveIntendedFacts(rs[k], s, e);
    ReplaceFacts(rs, k, CarveIntended(rs[k], s, e), Interval(s, e));
    var rest := ReserveIntended(rs, s, e).0;
    ReleasedFacts(rest, s, e);
    forall x | s <= x <= e
      ensures x in Covered(rs)
    {
      CoveredAt(rs, k, x);
    }
    assert (Covered(rs) - Interval(s, e)) + Interval(s, e) == Covered(rs);
    CanonicalUnique(Released(rest, s, e), rs);
  }

  /** The correction changes nothing outside the left-edge case. */
  lemma ReserveIntendedAgrees(rs: seq<Range>, s: int, e: int)
    requires Canonical(rs) && s <= e
    requires s == e || !ShortChanged(rs, s, e)
    ensures ReserveIntended(rs, s, e) == Reserve(rs, s, e)
  {
    var k := Holder(rs, s, e);
    if k != -1 {
      assert CarveIntended(rs[k], s, e) == Carve(rs[k], s, e);
    }
  }
}
