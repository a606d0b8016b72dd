/** Closed ranges of relative IPv4 addresses and the shape a free list keeps
    them in (luna/utils/freelist.py and the IPList prototype in
    test/test27.py). A range is the record `{'start': s, 'end': e}`; every
    address from `s` to `e` is free. */
module Ranges {

  /** One free range; both ends are free addresses. */
  datatype Range = Range(start: int, end: int)

  function Max(a: int, b: int): int
  {
    if a < b then b else a
  }

  /** Every integer from `lo` to `hi`, both included. */
  ghost function Interval(lo: int, hi: int): (s: set<int>)
    ensures forall x :: x in s <==> lo <= x <= hi
    decreases hi - lo
  {
    if hi < lo then {} else {lo} + Interval(lo + 1, hi)
  }

  /** The addresses one range marks free. */
  ghost function Span(r: Range): set<int>
  {
    Interval(r.start, r.end)
  }

  /** The addresses a list of ranges marks free. */
  ghost function Covered(rs: seq<Range>): set<int>
  {
    if rs == [] then {} else Span(rs[0]) + Covered(rs[1..])
  }

  /** `start <= end`: the range holds at least one address. */
  predicate Proper(r: Range)
  {
    r.start <= r.end
  }

  predicate AllProper(rs: seq<Range>)
  {
    forall i :: 0 <= i < |rs| ==> Proper(rs[i])
  }

  predicate SortedByStart(rs: seq<Range>)
  {
    forall i, j :: 0 <= i < j < |rs| ==> rs[i].start <= rs[j].start
  }

  /** Sorted by `start`, pairwise disjoint and never touching (at least one
      allocated address between two ranges), every range non-empty. */
  predicate Canonical(rs: seq<Range>)
  {
    && AllProper(rs)
    && forall i, j :: 0 <= i < j < |rs| ==> rs[i].end + 1 < rs[j].start
  }

  /** Every range lies above relative address 0, the network address, as
      in a new list, which starts at 1. */
  predicate Positive(rs: seq<Range>)
  {
    forall i :: 0 <= i < |rs| ==> 1 <= rs[i].start
  }

  /** A well-formed free list: canonical and above the network address. */
  predicate IsFreeList(rs: seq<Range>)
  {
    Canonical(rs) && Positive(rs)
  }

  function Last(rs: seq<Range>): Range
    requires rs != []
  {
    rs[|rs| - 1]
  }

  /** `flist[-1] = {'start': flist[-1]['start'], 'end': end}`: the last range
      gets a new upper end, every other range stays. */
  function WithLastEnd(rs: seq<Range>, end: int): (r: seq<Range>)
    requires rs != []
    ensures |r| == |rs| && r[..|rs| - 1] == rs[..|rs| - 1]
    ensures Last(r) == Range(Last(rs).start, end)
  {
    rs[..|rs| - 1] + [Range(Last(rs).start, end)]
  }

  // ---------------------------------------------------------------------
  // Facts about the covered set

  lemma {:induction false} CoveredMember(rs: seq<Range>, x: int)
    ensures x in Covered(rs) <==> exists k :: 0 <= k < |rs| && rs[k].start <= x <= rs[k].end
  {
    if rs != [] {
      CoveredMember(rs[1..], x);
      if x in Covered(rs[1..]) {
        var k :| 0 <= k < |rs[1..]| && rs[1..][k].start <= x <= rs[1..][k].end;
        assert rs[k + 1] == rs[1..][k];
      }
      if exists k :: 0 <= k < |rs| && rs[k].start <= x <= rs[k].end {
        var k :| 0 <= k < |rs| && rs[k].start <= x <= rs[k].end;
        if k > 0 {
          assert rs[1..][k - 1] == rs[k];
        }
      }
    }
  }

  lemma CoveredAt(rs: seq<Range>, k: int, x: int)
    requires 0 <= k < |rs| && rs[k].start <= x <= rs[k].end
    ensures x in Covered(rs)
  {
    CoveredMember(rs, x);
  }

  lemma {:induction false} CoveredConcat(a: seq<Range>, b: seq<Range>)
    ensures Covered(a + b) == Covered(a) + Covered(b)
  {
    if a == [] {
      assert a + b == b;
    } else {
      assert (a + b)[1..] == a[1..] + b;
      CoveredConcat(a[1..], b);
    }
  }

  lemma CoveredSingle(r: Range)
    ensures Covered([r]) == Span(r)
  {
    assert [r][1..] == [];
  }

  /** Two ranges that overlap or touch cover one range. */
  lemma IntervalUnion(a: int, b: int, c: int, d: int)
    requires a <= c <= b + 1
    ensures Interval(a, b) + Interval(c, d) == Interval(a, Max(b, d))
  {
  }

  /** In a canonical list everything after the first range lies above it,
      with a gap. */
  lemma CanonicalAboveHead(rs: seq<Range>, x: int)
    requires Canonical(rs) && rs != []
    requires x in Covered(rs[1..])
    ensures rs[0].end + 1 < x
  {
    CoveredMember(rs[1..], x);
    var k :| 0 <= k < |rs[1..]| && rs[1..][k].start <= x <= rs[1..][k].end;
    assert rs[1..][k] == rs[k + 1];
  }

  /** The covered set of a canonical list runs from its first `start` to its
      last `end`. */
  lemma CanonicalBounds(rs: seq<Range>, x: int)
    requires Canonical(rs) && rs != []
    requires x in Covered(rs)
    ensures rs[0].start <= x <= Last(rs).end
  {
    CoveredMember(rs, x);
    var k :| 0 <= k < |rs| && rs[k].start <= x <= rs[k].end;
    assert k > 0 ==> rs[0].end + 1 < rs[k].start;
    assert k < |rs| - 1 ==> rs[k].end + 1 < Last(rs).start;
  }

  /** What a canonical list's first range says about the whole list: its
      start is the lowest free address, the address just above it is not
      free, and the rest of the list covers the remaining addresses. */
  lemma CanonicalHead(rs: seq<Range>)
    requires Canonical(rs) && rs != []
    ensures Canonical(rs[1..])
    ensures rs[0].start in Covered(rs) && rs[0].end + 1 !in Covered(rs)
    ensures forall x :: x in Covered(rs) ==> rs[0].start <= x
    ensures Covered(rs[1..]) == Covered(rs) - Span(rs[0])
  {
    forall x | x in Covered(rs[1..])
      ensures rs[0].end + 1 < x
    {
      CanonicalAboveHead(rs, x);
    }
  }

  /** A canonical list is determined by the addresses it covers: there is
      exactly one canonical representation of a set of free addresses. */
  lemma {:induction false} CanonicalUnique(a: seq<Range>, b: seq<Range>)
    requires Canonical(a) && Canonical(b) && Covered(a) == Covered(b)
    ensures a == b
    decreases |a|
  {
    if a != [] && b != [] {
      SameHead(a, b);
      CanonicalUnique(a[1..], b[1..]);
      assert a == [a[0]] + a[1..];
      assert b == [b[0]] + b[1..];
    } else if a != [] {
      CanonicalHead(a);
    } else if b != [] {
      CanonicalHead(b);
    }
  }

  /** Two canonical lists covering the same addresses start with the same
      range. */
  lemma SameHead(a: seq<Range>, b: seq<Range>)
    requires Canonical(a) && Canonical(b) && Covered(a) == Covered(b)
    requires a != [] && b != []
    ensures a[0] == b[0]
    ensures Canonical(a[1..]) && Canonical(b[1..]) && Covered(a[1..]) == Covered(b[1..])
  {
    CanonicalHead(a);
    CanonicalHead(b);
  }

  /** Replacing the last range's end moves the ceiling and nothing below the
      last range's start. */
  lemma WithLastEndCovered(rs: seq<Range>, end: int)
    requires rs != []
    ensures Covered(WithLastEnd(rs, end)) == Covered(rs[..|rs| - 1]) + Interval(Last(rs).start, end)
    ensures Covered(rs) == Covered(rs[..|rs| - 1]) + Span(Last(rs))
  {
    CoveredConcat(rs[..|rs| - 1], [Range(Last(rs).start, end)]);
    CoveredSingle(Range(Last(rs).start, end));
    assert rs == rs[..|rs| - 1] + [Last(rs)];
    CoveredConcat(rs[..|rs| - 1], [Last(rs)]);
    CoveredSingle(Last(rs));
  }

  // ---------------------------------------------------------------------
  // Python's `list.sort(key=lambda r: r['start'])`: a stable sort

  /** Insert `r` after every range whose start is not above its own, so that
      ranges with equal starts keep their order. */
  function InsertByStart(r: Range, rs: seq<Range>): (ins: seq<Range>)
    ensures multiset(ins) == multiset(rs) + multiset{r}
    ensures forall x :: x in ins <==> x == r || x in rs
  {
    if rs == [] || r.start < rs[0].start then
      [r] + rs
    else
      assert rs == [rs[0]] + rs[1..];
      [rs[0]] + InsertByStart(r, rs[1..])
  }

  lemma {:induction false} InsertByStartSorted(r: Range, rs: seq<Range>)
    requires SortedByStart(rs)
    ensures SortedByStart(InsertByStart(r, rs))
  {
    if rs != [] && rs[0].start <= r.start {
      InsertByStartSorted(r, rs[1..]);
      var tail := InsertByStart(r, rs[1..]);
      forall k | 0 <= k < |tail|
        ensures rs[0].start <= tail[k].start
      {
        assert tail[k] in tail;
      }
    }
  }

  /** The list the source's sort call produces. */
  function SortByStart(rs: seq<Range>): (sorted: seq<Range>)
    ensures SortedByStart(sorted)
    ensures multiset(sorted) == multiset(rs)
  {
    if rs == [] then
      []
    else
      assert rs == rs[..|rs| - 1] + [Last(rs)];
      InsertByStartSorted(Last(rs), SortByStart(rs[..|rs| - 1]));
      InsertByStart(Last(rs), SortByStart(rs[..|rs| - 1]))
  }

  /** Two lists holding the same ranges, in any order or multiplicity,
      cover the same addresses. */
  lemma CoveredSameElements(a: seq<Range>, b: seq<Range>)
    requires forall r :: r in a <==> r in b
    ensures Covered(a) == Covered(b)
  {
    forall x | x in Covered(a)
      ensures x in Covered(b)
    {
      CoveredMember(a, x);
      var k :| 0 <= k < |a| && a[k].start <= x <= a[k].end;
      assert a[k] in b;
      var j :| 0 <= j < |b| && b[j] == a[k];
      CoveredMember(b, x);
    }
    forall x | x in Covered(b)
      ensures x in Covered(a)
    {
      CoveredMember(b, x);
      var k :| 0 <= k < |b| && b[k].start <= x <= b[k].end;
      assert b[k] in a;
      var j :| 0 <= j < |a| && a[j] == b[k];
      CoveredMember(a, x);
    }
  }

  lemma SortByStartFacts(rs: seq<Range>)
    ensures Covered(SortByStart(rs)) == Covered(rs)
    ensures AllProper(rs) ==> AllProper(SortByStart(rs))
  {
    var s := SortByStart(rs);
    assert forall r :: r in s <==> r in multiset(s);
    CoveredSameElements(s, rs);
    SortByStartProper(rs);
  }

  lemma SortByStartProper(rs: seq<Range>)
    ensures AllProper(rs) ==> AllProper(SortByStart(rs))
  {
    var s := SortByStart(rs);
    forall k | 0 <= k < |s| && AllProper(rs)
      ensures Proper(s[k])
    {
      assert s[k] in multiset(rs);
    }
  }

  // ---------------------------------------------------------------------
  // The merge sweep: overlapping or touching ranges become one

  /** Fold `r` into the last range of `acc` when they overlap or touch,
      otherwise start a new range. */
  function Absorb(acc: seq<Range>, r: Range): seq<Range>
  {
    if acc != [] && r.start <= Last(acc).end + 1 then
      acc[..|acc| - 1] + [Range(Last(acc).start, Max(Last(acc).end, r.end))]
    else
      acc + [r]
  }

  /** The textbook sweep over the first `n` ranges of a start-sorted list. */
  function Sweep(rs: seq<Range>, n: int): (c: seq<Range>)
    requires 0 <= n <= |rs|
    ensures n > 0 ==> c != []
  {
    if n == 0 then [] else Absorb(Sweep(rs, n - 1), rs[n - 1])
  }

  /** The sweep over a whole list. */
  function Coalesce(rs: seq<Range>): seq<Range>
  {
    Sweep(rs, |rs|)
  }

  /** The sweep yields the canonical list of the addresses its start-sorted
      input covers. */
  lemma {:induction false} SweepFacts(rs: seq<Range>, n: int)
    requires SortedByStart(rs) && AllProper(rs) && 0 <= n <= |rs|
    ensures Canonical(Sweep(rs, n)) && Covered(Sweep(rs, n)) == Covered(rs[..n])
    ensures n > 0 ==> Last(Sweep(rs, n)).start <= rs[n - 1].start
  {
    if n > 0 {
      SweepFacts(rs, n - 1);
      var acc, r := Sweep(rs, n - 1), rs[n - 1];
      assert rs[..n] == rs[..n - 1] + [r];
      CoveredConcat(rs[..n - 1], [r]);
      CoveredSingle(r);
      assert n > 1 ==> rs[n - 2].start <= r.start;
      AbsorbFacts(acc, r);
    }
  }

  lemma CoalesceFacts(rs: seq<Range>)
    requires SortedByStart(rs) && AllProper(rs)
    ensures Canonical(Coalesce(rs)) && Covered(Coalesce(rs)) == Covered(rs)
  {
    SweepFacts(rs, |rs|);
    assert rs[..|rs|] == rs;
  }

  /** One step of the sweep keeps the list canonical and adds the range's
      addresses. */
  lemma AbsorbFacts(acc: seq<Range>, r: Range)
    requires Canonical(acc) && Proper(r) && (acc != [] ==> Last(acc).start <= r.start)
    ensures Canonical(Absorb(acc, r)) && Covered(Absorb(acc, r)) == Covered(acc) + Span(r)
  {
    if acc != [] && r.start <= Last(acc).end + 1 {
      AbsorbMerges(acc, r);
    } else {
      AbsorbNew(acc, r);
    }
  }

  /** Appending a range beyond the last one, with a gap, keeps a list
      canonical. */
  lemma CanonicalSnoc(rs: seq<Range>, r: Range)
    requires Canonical(rs) && Proper(r)
    requires rs != [] ==> Last(rs).end + 1 < r.start
    ensures Canonical(rs + [r])
  {
    assert forall i :: 0 <= i < |rs| - 1 ==> rs[i].end + 1 < Last(rs).start;
  }

  lemma AbsorbMerges(acc: seq<Range>, r: Range)
    requires Canonical(acc) && Proper(r) && acc != []
    requires Last(acc).start <= r.start <= Last(acc).end + 1
    ensures Canonical(Absorb(acc, r)) && Covered(Absorb(acc, r)) == Covered(acc) + Span(r)
  {
    var init, l := acc[..|acc| - 1], Last(acc);
    var m := Range(l.start, Max(l.end, r.end));
    assert acc == init + [l];
    assert Absorb(acc, r) == init + [m];
    assert Canonical(init + [m]) by {
      assert init != [] ==> Last(init).end + 1 < l.start;
      CanonicalSnoc(init, m);
    }
    SnocCovered(init, l, m, r);
  }

  lemma SnocCovered(init: seq<Range>, l: Range, m: Range, r: Range)
    requires l.start <= r.start <= l.end + 1
    requires m == Range(l.start, Max(l.end, r.end))
    ensures Covered(init + [m]) == Covered(init + [l]) + Span(r)
  {
    CoveredConcat(init, [l]);
    CoveredSingle(l);
    CoveredConcat(init, [m]);
    CoveredSingle(m);
    IntervalUnion(l.start, l.end, r.start, r.end);
  }

  lemma AbsorbNew(acc: seq<Range>, r: Range)
    requires Canonical(acc) && Proper(r)
    requires acc != [] ==> Last(acc).end + 1 < r.start
    ensures Canonical(Absorb(acc, r)) && Covered(Absorb(acc, r)) == Covered(acc) + Span(r)
  {
    CanonicalSnoc(acc, r);
    CoveredConcat(acc, [r]);
    CoveredSingle(r);
  }

  /** The merge pass appends when the next range starts beyond the last
      merged one, with a gap. */
  lemma AbsorbAppends(acc: seq<Range>, r: Range)
    requires acc != [] ==> Last(acc).end + 1 < r.start
    ensures Absorb(acc, r) == acc + [r]
  {
  }

  /** The merge pass extends the last merged range when the next one
      overlaps or touches it. */
  lemma AbsorbExtends(acc: seq<Range>, lo: int, hi: int, r: Range)
    requires r.start <= hi + 1
    ensures Absorb(acc + [Range(lo, hi)], r) == acc + [Range(lo, Max(hi, r.end))]
  {
    var a := acc + [Range(lo, hi)];
    assert a[..|a| - 1] == acc;
  }
}
