/**
 * Hunk merger (`merge_close_hunks`): sorts hunks by start line, then makes
 * one left-to-right pass that extends the current region with every hunk
 * starting at most `maxGap` lines after the region's end, and opens a new
 * region otherwise.
 */
module HunkMerger {
  import opened Lines
  import opened HunkParser

  function Max(a: int, b: int): int
  {
    if a >= b then a else b
  }

  predicate SortedByStart(hs: seq<Hunk>)
  {
    forall i, j :: 0 <= i < j < |hs| ==> hs[i].start <= hs[j].start
  }

  /** Consecutive regions are more than `maxGap` lines apart. */
  predicate Separated(rs: seq<Hunk>, maxGap: int)
  {
    forall i :: 0 <= i < |rs| - 1 ==> rs[i + 1].start - rs[i].end > maxGap
  }

  /** Region `r` contains the line range of hunk `h`. */
  predicate Contains(r: Hunk, h: Hunk)
  {
    r.start <= h.start && h.end <= r.end
  }

  /** Every hunk of `hs` lies inside some region of `rs`. */
  predicate Covers(rs: seq<Hunk>, hs: seq<Hunk>)
  {
    forall h :: h in hs ==> exists r :: r in rs && Contains(r, h)
  }

  /** Every region of `rs` starts where some hunk of `hs` starts. */
  predicate StartsFrom(rs: seq<Hunk>, hs: seq<Hunk>)
  {
    forall r :: r in rs ==> exists h :: h in hs && h.start == r.start
  }

  // ----- `sorted(hunks, key=lambda x: x[0])` -----

  /** Inserts `h` before the first hunk that starts at or after it. */
  function Insert(h: Hunk, sorted: seq<Hunk>): (r: seq<Hunk>)
    ensures |r| == |sorted| + 1
  {
    if sorted == [] || h.start <= sorted[0].start then [h] + sorted
    else [sorted[0]] + Insert(h, sorted[1..])
  }

  /**
   * Python's stable `sorted` by start line, as an insertion sort: each hunk
   * goes in front of the later hunks with the same start.
   */
  function SortByStart(hs: seq<Hunk>): (r: seq<Hunk>)
    ensures |r| == |hs|
  {
    if hs == [] then [] else Insert(hs[0], SortByStart(hs[1..]))
  }

  lemma {:induction false} InsertPermutes(h: Hunk, sorted: seq<Hunk>)
    ensures multiset(Insert(h, sorted)) == multiset(sorted) + multiset{h}
  {
    if sorted != [] && h.start > sorted[0].start {
      InsertPermutes(h, sorted[1..]);
      assert sorted == [sorted[0]] + sorted[1..];
    }
  }

  lemma {:induction false} InsertSorted(h: Hunk, sorted: seq<Hunk>)
    requires SortedByStart(sorted)
    ensures SortedByStart(Insert(h, sorted))
  {
    if sorted != [] && h.start > sorted[0].start {
      var tail := sorted[1..];
      InsertSorted(h, tail);
      var r := Insert(h, tail);
      forall x | x in r
        ensures sorted[0].start <= x.start
      {
        InsertPermutes(h, tail);
        assert x in multiset(r);
        if x != h {
          assert x in multiset(tail);
        }
      }
      assert Insert(h, sorted) == [sorted[0]] + r;
    }
  }

  /** The sort returns its input in ascending order of start, with the same hunks. */
  lemma {:induction false} SortByStartSorts(hs: seq<Hunk>)
    ensures SortedByStart(SortByStart(hs))
    ensures multiset(SortByStart(hs)) == multiset(hs)
  {
    if hs != [] {
      SortByStartSorts(hs[1..]);
      InsertSorted(hs[0], SortByStart(hs[1..]));
      InsertPermutes(hs[0], SortByStart(hs[1..]));
      assert hs == [hs[0]] + hs[1..];
    }
  }

  /** The hunks of `hs` that start at line `s`, in their order in `hs`. */
  function WithStart(hs: seq<Hunk>, s: int): seq<Hunk>
  {
    if hs == [] then [] else (if hs[0].start == s then [hs[0]] else []) + WithStart(hs[1..], s)
  }

  /** Insertion puts `h` in front of every hunk with its start, and moves no other hunk past one. */
  lemma {:induction false} InsertStable(h: Hunk, sorted: seq<Hunk>, s: int)
    ensures WithStart(Insert(h, sorted), s) == (if h.start == s then [h] else []) + WithStart(sorted, s)
  {
    if sorted == [] || h.start <= sorted[0].start {
      WithStartCons(h, sorted, s);
    } else {
      var x, tail := sorted[0], sorted[1..];
      InsertStable(h, tail, s);
      WithStartCons(x, Insert(h, tail), s);
      WithStartCons(x, tail, s);
      assert sorted == [x] + tail;
      assert x.start != s || h.start != s;
    }
  }

  lemma WithStartCons(x: Hunk, hs: seq<Hunk>, s: int)
    ensures WithStart([x] + hs, s) == (if x.start == s then [x] else []) + WithStart(hs, s)
  {
    assert ([x] + hs)[1..] == hs;
  }

  /** The sort is stable: hunks with the same start keep their input order. */
  lemma {:induction false} SortByStartStable(hs: seq<Hunk>, s: int)
    ensures WithStart(SortByStart(hs), s) == WithStart(hs, s)
  {
    if hs != [] {
      SortByStartStable(hs[1..], s);
      InsertStable(hs[0], SortByStart(hs[1..]), s);
    }
  }

  /** Sorting an already sorted list leaves it as it is. */
  lemma {:induction false} SortByStartOfSorted(hs: seq<Hunk>)
    requires SortedByStart(hs)
    ensures SortByStart(hs) == hs
  {
    if hs != [] {
      SortByStartOfSorted(hs[1..]);
    }
  }

  // ----- The merging pass -----

  /** One iteration of the pass: extend the last region with `h`, or open a new one. */
  function Step(acc: seq<Hunk>, h: Hunk, maxGap: int): (r: seq<Hunk>)
    ensures |r| >= 1
  {
    if acc == [] then [h]
    else
      var last := Last(acc);
      if h.start - last.end <= maxGap then acc[..|acc| - 1] + [Hunk(last.start, Max(last.end, h.end))]
      else acc + [h]
  }

  /** The regions after the pass has consumed all of `sorted`. */
  function Coalesce(sorted: seq<Hunk>, maxGap: int): seq<Hunk>
  {
    if sorted == [] then []
    else Step(Coalesce(sorted[..|sorted| - 1], maxGap), Last(sorted), maxGap)
  }

  /** `merge_close_hunks(hunks, max_gap)` */
  function Merge(hunks: seq<Hunk>, maxGap: int): (merged: seq<Hunk>)
    ensures |merged| <= |hunks|
    ensures merged == [] <==> hunks == []
  {
    if hunks == [] then []
    else
      CoalesceShape(SortByStart(hunks), maxGap);
      Coalesce(SortByStart(hunks), maxGap)
  }

  /** The source's loop, which overwrites the last region in place or appends a new one. */
  method MergeCloseHunks(hunks: seq<Hunk>, maxGap: int) returns (merged: seq<Hunk>)
    ensures merged == Merge(hunks, maxGap)
  {
    if hunks == [] {
      return [];
    }
    var sortedHunks := SortByStart(hunks);
    merged := [sortedHunks[0]];
    assert sortedHunks[..1][..0] == [];
    var i := 1;
    while i < |sortedHunks|
      invariant 1 <= i <= |sortedHunks|
      invariant |merged| >= 1
      invariant merged == Coalesce(sortedHunks[..i], maxGap)
    {
      var current := sortedHunks[i];
      var last := merged[|merged| - 1];
      if current.start - last.end <= maxGap {
        merged := merged[..|merged| - 1] + [Hunk(last.start, Max(last.end, current.end))];
      } else {
        merged := merged + [current];
      }
      assert sortedHunks[..i + 1][..i] == sortedHunks[..i];
      i := i + 1;
    }
    assert sortedHunks[..i] == sortedHunks;
  }

  // ----- Properties of the pass -----

  /** Every hunk of `hs` starts at or before `bound`. */
  predicate StartsAtMost(hs: seq<Hunk>, bound: int)
  {
    forall x :: x in hs ==> x.start <= bound
  }

  /** One step keeps region starts at hunk starts and adds at most one region. */
  lemma StepShape(acc: seq<Hunk>, p: seq<Hunk>, h: Hunk, maxGap: int)
    requires StartsFrom(acc, p)
    ensures |Step(acc, h, maxGap)| <= |acc| + 1
    ensures StartsFrom(Step(acc, h, maxGap), p + [h])
  {
    var q := p + [h];
    assert forall x :: x in p ==> x in q;
    if acc != [] {
      var last := Last(acc);
      var init := acc[..|acc| - 1];
      assert last in acc;
      assert forall x :: x in init ==> x in acc;
    }
  }

  /** The pass yields no more regions than hunks, and each starts where a hunk starts. */
  lemma {:induction false} CoalesceShape(s: seq<Hunk>, maxGap: int)
    ensures |Coalesce(s, maxGap)| <= |s|
    ensures Coalesce(s, maxGap) == [] <==> s == []
    ensures StartsFrom(Coalesce(s, maxGap), s)
  {
    if s != [] {
      var p := s[..|s| - 1];
      CoalesceShape(p, maxGap);
      StepShape(Coalesce(p, maxGap), p, Last(s), maxGap);
      assert p + [Last(s)] == s;
    }
  }

  lemma StartsBelow(rs: seq<Hunk>, s: seq<Hunk>, bound: int)
    requires StartsFrom(rs, s)
    requires StartsAtMost(s, bound)
    ensures StartsAtMost(rs, bound)
  {
  }

  lemma SortedPrefixBelow(s: seq<Hunk>)
    requires |s| >= 1
    requires SortedByStart(s)
    ensures StartsAtMost(s[..|s| - 1], Last(s).start)
  {
    var p := s[..|s| - 1];
    forall x | x in p
      ensures x.start <= Last(s).start
    {
      var k :| 0 <= k < |p| && p[k] == x;
    }
  }

  /** A step keeps regions sorted when the new hunk starts after all of them. */
  lemma StepAscending(acc: seq<Hunk>, h: Hunk, maxGap: int)
    requires SortedByStart(acc)
    requires StartsAtMost(acc, h.start)
    ensures SortedByStart(Step(acc, h, maxGap))
  {
    if acc != [] {
      assert forall i :: 0 <= i < |acc| ==> acc[i] in acc;
    }
  }

  /** On sorted input the regions come out in ascending order of start. */
  lemma {:induction false} CoalesceAscending(s: seq<Hunk>, maxGap: int)
    requires SortedByStart(s)
    ensures SortedByStart(Coalesce(s, maxGap))
  {
    if s != [] {
      var p := s[..|s| - 1];
      CoalesceAscending(p, maxGap);
      CoalesceShape(p, maxGap);
      SortedPrefixBelow(s);
      StartsBelow(Coalesce(p, maxGap), p, Last(s).start);
      StepAscending(Coalesce(p, maxGap), Last(s), maxGap);
    }
  }

  /** Consecutive regions are always more than `maxGap` apart. */
  lemma {:induction false} CoalesceSeparated(s: seq<Hunk>, maxGap: int)
    ensures Separated(Coalesce(s, maxGap), maxGap)
  {
    if s != [] {
      CoalesceSeparated(s[..|s| - 1], maxGap);
    }
  }

  /** A step keeps every earlier hunk covered and covers the new one. */
  lemma StepCovers(acc: seq<Hunk>, p: seq<Hunk>, h: Hunk, maxGap: int)
    requires Covers(acc, p)
    requires acc == [] ==> p == []
    requires StartsAtMost(acc, h.start)
    ensures Covers(Step(acc, h, maxGap), p + [h])
  {
    var result := Step(acc, h, maxGap);
    if acc == [] {
      assert p + [h] == [h];
      assert Contains(h, h);
    } else {
      var last := Last(acc);
      var init := acc[..|acc| - 1];
      assert acc == init + [last];
      assert last in acc;
      if h.start - last.end <= maxGap {
        var grown := Hunk(last.start, Max(last.end, h.end));
        assert result == init + [grown];
        forall x | x in p + [h]
          ensures exists r :: r in result && Contains(r, x)
        {
          if x in p {
            var r :| r in acc && Contains(r, x);
            if r in init {
              assert r in result;
            } else {
              assert Contains(grown, x);
            }
          } else {
            assert Contains(grown, x);
          }
        }
      } else {
        assert result == acc + [h];
        forall x | x in p + [h]
          ensures exists r :: r in result && Contains(r, x)
        {
          if x in p {
            var r :| r in acc && Contains(r, x);
            assert r in result;
          } else {
            assert Contains(h, x);
          }
        }
      }
    }
  }

  /** On sorted input every hunk lies inside some region. */
  lemma {:induction false} CoalesceCovers(s: seq<Hunk>, maxGap: int)
    requires SortedByStart(s)
    ensures Covers(Coalesce(s, maxGap), s)
  {
    if s != [] {
      var p, h := s[..|s| - 1], Last(s);
      var acc := Coalesce(p, maxGap);
      assert Coalesce(s, maxGap) == Step(acc, h, maxGap);
      assert p + [h] == s;
      assert StartsAtMost(acc, h.start) by {
        CoalesceShape(p, maxGap);
        SortedPrefixBelow(s);
        StartsBelow(acc, p, h.start);
      }
      assert acc == [] ==> p == [] by {
        CoalesceShape(p, maxGap);
      }
      CoalesceCovers(p, maxGap);
      StepCovers(acc, p, h, maxGap);
    }
  }

  /** A list whose neighbours are already far enough apart passes through unchanged. */
  lemma {:induction false} CoalesceOfSeparated(s: seq<Hunk>, maxGap: int)
    requires Separated(s, maxGap)
    ensures Coalesce(s, maxGap) == s
  {
    if s != [] {
      var p := s[..|s| - 1];
      CoalesceOfSeparated(p, maxGap);
      if |s| >= 2 {
        assert Last(p) == s[|s| - 2];
      }
      assert p + [Last(s)] == s;
    }
  }

  /**
   * A wider gap never gives more regions; the last region of the wider
   * pass ends no earlier than that of the narrower one.
   */
  lemma {:induction false} CoalesceMonotone(s: seq<Hunk>, gap1: int, gap2: int)
    requires gap1 <= gap2
    ensures |Coalesce(s, gap2)| <= |Coalesce(s, gap1)|
    ensures s != [] ==> Last(Coalesce(s, gap2)).end >= Last(Coalesce(s, gap1)).end
  {
    if s != [] {
      var p := s[..|s| - 1];
      CoalesceMonotone(p, gap1, gap2);
      CoalesceShape(p, gap1);
      CoalesceShape(p, gap2);
    }
  }

  // ----- Properties of `merge_close_hunks` -----

  /**
   * The merged regions are ascending by start, more than `maxGap` apart,
   * start where input hunks start, and are no more numerous than the hunks;
   * there are none exactly when there are no hunks.
   */
  lemma MergeOrdered(hunks: seq<Hunk>, maxGap: int)
    ensures var merged := Merge(hunks, maxGap);
      && SortedByStart(merged)
      && Separated(merged, maxGap)
      && StartsFrom(merged, hunks)
      && |merged| <= |hunks|
      && (merged == [] <==> hunks == [])
  {
    if hunks != [] {
      var sorted := SortByStart(hunks);
      SortByStartSorts(hunks);
      CoalesceAscending(sorted, maxGap);
      CoalesceSeparated(sorted, maxGap);
      CoalesceShape(sorted, maxGap);
      assert forall x :: x in sorted <==> x in multiset(sorted);
      assert forall x :: x in hunks <==> x in multiset(hunks);
    }
  }

  /** Every input hunk lies inside some merged region. */
  lemma MergeCovers(hunks: seq<Hunk>, maxGap: int)
    ensures Covers(Merge(hunks, maxGap), hunks)
  {
    if hunks != [] {
      var sorted := SortByStart(hunks);
      SortByStartSorts(hunks);
      CoalesceCovers(sorted, maxGap);
      assert forall x :: x in sorted <==> x in multiset(sorted);
      assert forall x :: x in hunks <==> x in multiset(hunks);
    }
  }

  /** Merging an already merged list with the same gap changes nothing. */
  lemma MergeIdempotent(hunks: seq<Hunk>, maxGap: int)
    ensures Merge(Merge(hunks, maxGap), maxGap) == Merge(hunks, maxGap)
  {
    var merged := Merge(hunks, maxGap);
    MergeOrdered(hunks, maxGap);
    if merged != [] {
      SortByStartOfSorted(merged);
      CoalesceOfSeparated(merged, maxGap);
    }
  }

  /** Increasing `maxGap` never increases the number of merged regions. */
  lemma MergeMonotone(hunks: seq<Hunk>, gap1: int, gap2: int)
    requires gap1 <= gap2
    ensures |Merge(hunks, gap2)| <= |Merge(hunks, gap1)|
  {
    if hunks != [] {
      CoalesceMonotone(SortByStart(hunks), gap1, gap2);
    }
  }
}
