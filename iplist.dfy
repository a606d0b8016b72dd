/** The stateful prototype of the allocator in test/test27.py: one object
    owns the free list and the upper border it was created with. */
module Prototype {
  import opened Wrappers
  import opened Ranges
  import FreeList

  /** What `_change_tuple(num, tup)` returns: whether `tup` holds `num`, and
      the ranges that replace it (None when `tup` was the single address
      `num`). */
  function ChangeTuple(num: int, tup: Range): (r: (bool, Option<seq<Range>>))
    ensures r.0 <==> tup.start <= num <= tup.end
    ensures !r.0 ==> r.1 == Some([tup])
    ensures r.1 == None <==> tup == Range(num, num)
    ensures r.0 && r.1.Some? ==> forall p :: p in r.1.value ==>
      tup.start <= p.start <= p.end <= tup.end && !(p.start <= num <= p.end)
  {
    if !(tup.start <= num < tup.end + 1) then (false, Some([tup]))
    else if tup.end == tup.start then (true, None)
    else if num == tup.start then (true, Some([Range(tup.start + 1, tup.end)]))
    else if num == tup.end then (true, Some([Range(tup.start, tup.end - 1)]))
    else (true, Some([Range(tup.start, num - 1), Range(num + 1, tup.end)]))
  }

  /** What `get` appends for one range: nothing when `_change_tuple` gave
      None or an empty list. */
  function Pieces(num: int, tup: Range): seq<Range>
  {
    match ChangeTuple(num, tup).1
    case None => []
    case Some(p) => p
  }

  /** The list `get` has built after the first `n` ranges: each replaced by
      its pieces, in order. */
  function ChangeUpTo(rs: seq<Range>, n: int, num: int): seq<Range>
    requires 0 <= n <= |rs|
  {
    if n == 0 then [] else ChangeUpTo(rs, n - 1, num) + Pieces(num, rs[n - 1])
  }

  /** The list `get` builds from the whole list. */
  function ChangeAll(rs: seq<Range>, num: int): seq<Range>
  {
    ChangeUpTo(rs, |rs|, num)
  }

  /** `_change_tuple` reports exactly whether the range holds `num`, and its
      pieces cover the range's addresses except `num`; a range without `num`
      is kept as it is. */
  lemma ChangeTupleFacts(num: int, tup: Range)
    ensures ChangeTuple(num, tup).0 <==> tup.start <= num <= tup.end
    ensures Covered(Pieces(num, tup)) == Span(tup) - {num}
    ensures !ChangeTuple(num, tup).0 ==> Pieces(num, tup) == [tup]
  {
    var p := Pieces(num, tup);
    if |p| == 1 {
      CoveredSingle(p[0]);
    } else if |p| == 2 {
      assert p == [p[0]] + [p[1]];
      CoveredConcat([p[0]], [p[1]]);
      CoveredSingle(p[0]);
      CoveredSingle(p[1]);
    }
  }

  lemma {:induction false} ChangeUpToCovered(rs: seq<Range>, n: int, num: int)
    requires 0 <= n <= |rs|
    ensures Covered(ChangeUpTo(rs, n, num)) == Covered(rs[..n]) - {num}
  {
    if n > 0 {
      var r := rs[n - 1];
      ChangeUpToCovered(rs, n - 1, num);
      ChangeTupleFacts(num, r);
      assert rs[..n] == rs[..n - 1] + [r];
      CoveredConcat(rs[..n - 1], [r]);
      CoveredSingle(r);
      CoveredConcat(ChangeUpTo(rs, n - 1, num), Pieces(num, r));
      assert ChangeUpTo(rs, n, num) == ChangeUpTo(rs, n - 1, num) + Pieces(num, r);
      assert Covered(ChangeUpTo(rs, n, num))
          == (Covered(rs[..n - 1]) - {num}) + (Span(r) - {num});
    }
  }

  /** Ranges that do not hold `num` are copied unchanged and in order. */
  lemma {:induction false} ChangeUpToCopies(rs: seq<Range>, k: int, n: int, num: int)
    requires 0 <= k <= n <= |rs|
    requires forall j :: k <= j < n ==> !(rs[j].start <= num <= rs[j].end)
    ensures ChangeUpTo(rs, n, num) == ChangeUpTo(rs, k, num) + rs[k..n]
  {
    if k < n {
      ChangeUpToCopies(rs, k, n - 1, num);
      ChangeTupleFacts(num, rs[n - 1]);
      assert rs[k..n] == rs[k..n - 1] + [rs[n - 1]];
    }
  }

  /** `get` removes exactly `num` from the free addresses, whatever shape
      the list has, and leaves a list without `num` equal to before. */
  lemma ChangeAllCovered(rs: seq<Range>, num: int)
    ensures Covered(ChangeAll(rs, num)) == Covered(rs) - {num}
    ensures num !in Covered(rs) ==> ChangeAll(rs, num) == rs
  {
    ChangeUpToCovered(rs, |rs|, num);
    assert rs[..|rs|] == rs;
    CoveredMember(rs, num);
    if num !in Covered(rs) {
      ChangeUpToCopies(rs, 0, |rs|, num);
      assert rs[0..|rs|] == rs;
    }
  }

  /** For any list, `get` builds the same list as unfree_range's loop
      does for the single address `num`. */
  lemma {:induction false} ChangeUpToCarves(rs: seq<Range>, n: int, num: int)
    requires 0 <= n <= |rs|
    ensures ChangeUpTo(rs, n, num) == FreeList.CarveUpTo(rs, n, num, num)
  {
    if n > 0 {
      ChangeUpToCarves(rs, n - 1, num);
      ChangeTupleFacts(num, rs[n - 1]);
    }
  }

  /** On a free list the prototype's `get` and the library's
      `unfree_range(flist, num)` build the same list, and one succeeds
      exactly when the other does. */
  lemma ChangeAllIsReserve(rs: seq<Range>, num: int)
    requires IsFreeList(rs)
    ensures ChangeAll(rs, num) == FreeList.Reserve(rs, num, num).0
    ensures num in Covered(rs) <==> FreeList.Reserve(rs, num, num).1.Some?
  {
    FreeList.ReserveOutcome(rs, num, num);
    CoveredMember(rs, num);
    var k := FreeList.Holder(rs, num, num);
    if k == -1 {
      ChangeAllCovered(rs, num);
    } else {
      ChangeUpToCarves(rs, |rs|, num);
      FreeList.HolderAlone(rs, k, num, num);
      FreeList.CarveUpToCarved(rs, k, num, num);
    }
  }

  /** Creating a prototype list, taking addresses and borders from it. */
  class IPList {
    var upborder: int
    var iplist: seq<Range>

    /** The list stays a well-formed free list. */
    predicate Valid()
      reads this
    {
      IsFreeList(iplist)
    }

    constructor (upborder: int := 254)
      ensures this.upborder == upborder
      ensures iplist == [Range(1, upborder)]
      ensures 1 <= upborder ==> Valid()
    {
      this.upborder := upborder;
      iplist := [Range(1, upborder)];
    }

    method GetNext() returns (next: Option<int>)
      modifies this
      ensures (iplist, next) == FreeList.TakeLowest(old(iplist))
      ensures upborder == old(upborder)
      ensures old(Valid()) ==> Valid()
    {
      if iplist == [] {
        return None;
      }
      var firstTup := iplist[0];
      if firstTup.start == firstTup.end {
        if Valid() {
          FreeList.TakeLowestKeepsFreeList(iplist);
        }
        iplist := iplist[1..];
        return Some(firstTup.start);
      }
      if Valid() {
        FreeList.TakeLowestKeepsFreeList(iplist);
      }
      iplist := iplist[0 := Range(firstTup.start + 1, firstTup.end)];
      assert iplist == [Range(firstTup.start + 1, firstTup.end)] + old(iplist)[1..];
      return Some(firstTup.start);
    }

    method Get(num: int) returns (got: Option<int>)
      modifies this
      ensures num > old(upborder) ==> got == None && iplist == old(iplist)
      ensures num <= old(upborder) ==> iplist == ChangeAll(old(iplist), num)
      ensures num <= old(upborder) ==> (got == Some(num) <==> num in Covered(old(iplist)))
      ensures got == None || got == Some(num)
      ensures upborder == old(upborder)
      ensures old(Valid()) ==> Valid()
    {
      if num > upborder {
        return None;
      }
      var newList := [];
      var find := false;
      for i := 0 to |iplist|
        invariant newList == ChangeUpTo(iplist, i, num)
        invariant find <==> exists k :: 0 <= k < i && iplist[k].start <= num <= iplist[k].end
      {
        var newTup := ChangeTuple(num, iplist[i]);
        if newTup.0 {
          find := true;
        }
        if newTup.1.None? || newTup.1.value == [] {
          continue;
        }
        newList := newList + newTup.1.value;
      }
      CoveredMember(iplist, num);
      if IsFreeList(iplist) {
        ChangeAllIsReserve(iplist, num);
        if find {
          FreeList.ReserveCovered(iplist, num, num);
        }
        ChangeAllCovered(iplist, num);
      }
      iplist := newList;
      if find {
        return Some(num);
      }
      return None;
    }

    method SetBorder(border: int) returns (ok: bool)
      requires iplist != []
      modifies this
      ensures ok <==> Last(old(iplist)).start <= border
      ensures ok ==> iplist == WithLastEnd(old(iplist), border)
      ensures !ok ==> iplist == old(iplist)
      ensures upborder == old(upborder)
      ensures old(Valid()) ==> Valid()
    {
      var lastTup := iplist[|iplist| - 1];
      if lastTup.start > border {
        return false;
      }
      if Valid() {
        FreeList.UpperLimitShape(iplist, border);
      }
      iplist := iplist[|iplist| - 1 := Range(lastTup.start, border)];
      return true;
    }
  }
}
