/** Turning the heights that differ between the peers and the node into the ranges to sync
    (ca/sync_block.cpp, get_sync_sum_hash_node): one pass over the ordered heights. */
module RangeCoalescing {
  import Orders

  datatype Range = Range(start: nat, end: nat)

  predicate Inside(r: Range, h: nat) {
    r.start <= h <= r.end
  }

  /** A longest stretch of consecutive heights. */
  ghost predicate MaximalRun(heights: set<nat>, r: Range) {
    && r.start <= r.end
    && (forall h: nat :: Inside(r, h) ==> h in heights)
    && (r.start > 0 ==> r.start - 1 !in heights) && r.end + 1 !in heights
  }

  /** In order, each range apart from the next by at least one height. */
  ghost predicate Gapped(ranges: seq<Range>) {
    && (forall k :: 0 <= k < |ranges| ==> ranges[k].start <= ranges[k].end)
    && (forall j, k :: 0 <= j < k < |ranges| ==> ranges[j].end + 1 < ranges[k].start)
  }

  ghost predicate Covered(ranges: seq<Range>, h: nat) {
    exists k :: 0 <= k < |ranges| && Inside(ranges[k], h)
  }

  /** Every height of the ranges is one of the given, and the reverse. */
  ghost predicate Covers(ranges: seq<Range>, heights: set<nat>) {
    forall h: nat :: h in heights <==> Covered(ranges, h)
  }

  lemma {:induction false} RangeIsMaximal(ranges: seq<Range>, heights: set<nat>, k: nat)
    requires Gapped(ranges) && Covers(ranges, heights) && k < |ranges|
    ensures MaximalRun(heights, ranges[k])
  {
    var r := ranges[k];
    forall h: nat | Inside(r, h) ensures h in heights {
      assert Covered(ranges, h);
    }
    forall j | 0 <= j < |ranges|
      ensures (r.start == 0 || !Inside(ranges[j], r.start - 1)) && !Inside(ranges[j], r.end + 1)
    {
      assert j == k || j < k || k < j;
    }
  }

  /** Gapped ranges that cover the heights are exactly the maximal runs. */
  lemma {:induction false} RangesAreMaximalRuns(ranges: seq<Range>, heights: set<nat>, r: Range)
    requires Gapped(ranges) && Covers(ranges, heights)
    ensures r in ranges <==> MaximalRun(heights, r)
  {
    if r in ranges {
      var k :| 0 <= k < |ranges| && ranges[k] == r;
      RangeIsMaximal(ranges, heights, k);
    }
    if MaximalRun(heights, r) {
      assert Inside(r, r.start) && Covered(ranges, r.start);
      var k :| 0 <= k < |ranges| && Inside(ranges[k], r.start);
      RangeIsMaximal(ranges, heights, k);
    }
  }

  lemma {:induction false} ExtendLast(ranges: seq<Range>, heights: set<nat>, end: nat)
    requires ranges != [] && Gapped(ranges) && Covers(ranges, heights) && end == ranges[|ranges| - 1].end + 1
    ensures var longer := ranges[..|ranges| - 1] + [Range(ranges[|ranges| - 1].start, end)];
      Gapped(longer) && Covers(longer, heights + {end})
  {
    var n := |ranges| - 1;
    var longer := ranges[..n] + [Range(ranges[n].start, end)];
    forall h: nat ensures h in heights + {end} <==> Covered(longer, h) {
      if Covered(ranges, h) {
        var k :| 0 <= k < |ranges| && Inside(ranges[k], h);
        assert Inside(longer[k], h);
      }
      if h == end { assert Inside(longer[n], h); }
      if Covered(longer, h) {
        var k :| 0 <= k < |longer| && Inside(longer[k], h);
        assert h == end || Inside(ranges[k], h);
      }
    }
  }

  lemma {:induction false} StartNext(ranges: seq<Range>, heights: set<nat>, h: nat)
    requires Gapped(ranges) && Covers(ranges, heights)
    requires ranges != [] ==> h > ranges[|ranges| - 1].end + 1
    ensures Gapped(ranges + [Range(h, h)]) && Covers(ranges + [Range(h, h)], heights + {h})
  {
    var more := ranges + [Range(h, h)];
    forall g: nat ensures g in heights + {h} <==> Covered(more, g) {
      if Covered(ranges, g) {
        var k :| 0 <= k < |ranges| && Inside(ranges[k], g);
        assert Inside(more[k], g);
      }
      if g == h { assert Inside(more[|ranges|], g); }
      if Covered(more, g) {
        var k :| 0 <= k < |more| && Inside(more[k], g);
        assert k == |ranges| || Inside(ranges[k], g);
      }
    }
  }

  /** The ranges closed so far, and the open one when there is any. */
  function Current(closed: seq<Range>, start: int, end: int): seq<Range>
    requires (start == -1 && end == -1) || 0 <= start <= end
  {
    if start == -1 && end == -1 then closed else closed + [Range(start, end)]
  }

  function Seen(values: seq<nat>, i: nat): set<nat>
    requires i <= |values|
  {
    set h | h in values[..i]
  }

  /** What holds after the first i values: the ranges so far are apart and cover exactly these. */
  ghost predicate Progress(closed: seq<Range>, start: int, end: int, values: seq<nat>, i: nat) {
    && i <= |values|
    && (if i == 0 then start == -1 && end == -1 && closed == [] else 0 <= start <= end == values[i - 1])
    && Gapped(Current(closed, start, end))
    && Covers(Current(closed, start, end), Seen(values, i))
  }

  lemma {:induction false} OpenNext(closed: seq<Range>, start: int, end: int, values: seq<nat>, i: nat)
    requires i < |values| && Progress(closed, start, end, values, i) && (i > 0 ==> values[i] > end + 1)
    ensures Progress(Current(closed, start, end), values[i], values[i], values, i + 1)
  {
    StartNext(Current(closed, start, end), Seen(values, i), values[i]);
  }

  lemma {:induction false} LengthenOpen(closed: seq<Range>, start: int, end: int, values: seq<nat>, i: nat)
    requires 0 < i < |values| && Progress(closed, start, end, values, i) && values[i] == end + 1
    ensures Progress(closed, start, values[i], values, i + 1)
  {
    ExtendLast(Current(closed, start, end), Seen(values, i), values[i]);
    assert Current(closed, start, end)[..|closed|] == closed;
  }

  /** The ranges are exactly the maximal runs of the heights, in order. */
  method Coalesce(heights: set<nat>) returns (ranges: seq<Range>)
    ensures Gapped(ranges) && Covers(ranges, heights)
    ensures forall r :: r in ranges <==> MaximalRun(heights, r)
  {
    var values := Orders.AscendingNats(heights);
    ranges := Close(values);
    assert (set h | h in values) == heights;
    forall r ensures r in ranges <==> MaximalRun(heights, r) {
      RangesAreMaximalRuns(ranges, heights, r);
    }
  }

  /** The pass over the ordered heights, with the open range closed at the end. */
  method Close(values: seq<nat>) returns (ranges: seq<Range>)
    requires forall j, k :: 0 <= j < k < |values| ==> values[j] < values[k]
    ensures Gapped(ranges) && Covers(ranges, (set h | h in values))
  {
    var start: int, end: int := -1, -1;
    ranges := [];
    for i := 0 to |values|
      invariant Progress(ranges, start, end, values, i)
    {
      var value := values[i];
      if start == -1 && end == -1 {
        OpenNext(ranges, start, end, values, i);
        start := value;
        end := start;
      } else if value != end + 1 {
        OpenNext(ranges, start, end, values, i);
        ranges := ranges + [Range(start, end)];
        start := value;
        end := value;
      } else {
        LengthenOpen(ranges, start, end, values, i);
        end := value;
      }
    }
    assert values[..|values|] == values;
    if start != -1 && end != -1 {
      ranges := ranges + [Range(start, end)];
    }
  }
}
