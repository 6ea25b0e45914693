/** The slice planner of `Sensor._fetch_data`: how many history requests are
    made for a sensor, over which periods, and how their answers are put
    together. Timestamps are integers (pandas keeps them as nanoseconds). */
module Slicing {
  import opened Wrappers

  type Time = int

  /** One row of a sensor table: its timestamp and its (float) value, which the
      fetcher only carries around. */
  datatype Row = Row(time: Time, value: real)

  type Table = seq<Row>

  /** MAX_LINE_PER_REQUEST: above this many rows, the history is requested in slices. */
  const MaxLinePerRequest: nat := 100000

  /** A history request for one sensor: optional start and end of the period. */
  datatype Request = Request(start: Option<Time>, end: Option<Time>)

  /** The building status fields the planner reads. */
  datatype BuildingStatus = BuildingStatus(firstMeasurementDate: Time, lastVariableValueChangedDate: Time)

  /** `n_values // MAX_LINE_PER_REQUEST + 1`. */
  function SliceCount(nValues: nat): (n: nat)
    ensures n >= 1
    ensures nValues >= MaxLinePerRequest ==> n >= 2
  {
    nValues / MaxLinePerRequest + 1
  }

  lemma MulMonotone(x: int, y: int, d: nat)
    requires x <= y
    ensures x * d <= y * d
  {
    assert y * d - x * d == (y - x) * d;
  }

  lemma MulCancel(x: int, y: int, d: int)
    requires d > 0 && x * d < y * d
    ensures x < y
  {
    if y <= x {
      MulMonotone(y, x, d);
    }
  }

  lemma DivOfMul(q: int, d: int)
    requires d > 0
    ensures (q * d) / d == q
  {
    var r := (q * d) / d;
    assert q * d == r * d + (q * d) % d;
    assert (q + 1) * d == q * d + d;
    assert (r + 1) * d == r * d + d;
    MulCancel(r, q + 1, d);
    MulCancel(q, r + 1, d);
  }

  lemma DivMonotone(a: nat, b: nat, d: int)
    requires d > 0 && a <= b
    ensures a / d <= b / d
  {
    assert a == (a / d) * d + a % d;
    assert b == (b / d) * d + b % d;
    assert (b / d + 1) * d == (b / d) * d + d;
    MulCancel(a / d, b / d + 1, d);
  }

  /** The i-th of `periods` evenly spaced timestamps from `start` to `end`:
      the start plus the offset `i * (end - start) / (periods - 1)` rounded
      down, as pandas computes it from numpy's linspace over the offsets
      `0 .. end - start` in integer arithmetic. */
  function Linspace(start: Time, end: Time, periods: nat, i: nat): Time
    requires periods >= 2
  {
    start + (i * (end - start)) / (periods - 1)
  }

  /** `pd.date_range(start=start, end=end, periods=periods)`. */
  function DateRange(start: Time, end: Time, periods: nat): (bs: seq<Time>)
    ensures |bs| == periods
    ensures periods >= 1 ==> bs[0] == start
    ensures periods >= 2 ==> bs[periods - 1] == end
  {
    if periods == 0 then [] else if periods == 1 then [start]
    else
      var bs := seq(periods, i requires 0 <= i < periods => Linspace(start, end, periods, i));
      LinspaceEnds(start, end, periods);
      bs
  }

  /** The first and the last of the evenly spaced timestamps are exact. */
  lemma LinspaceEnds(start: Time, end: Time, periods: nat)
    requires periods >= 2
    ensures Linspace(start, end, periods, 0) == start
    ensures Linspace(start, end, periods, periods - 1) == end
  {
    var d, w := periods - 1, end - start;
    MulZero(w);
    assert d * w == w * d;
    DivOfMul(w, d);
  }

  lemma MulZero(w: int)
    ensures 0 * w == 0
  {
  }

  lemma DateRangeIsLinspace(start: Time, end: Time, periods: nat, i: nat)
    requires periods >= 2 && i < periods
    ensures DateRange(start, end, periods)[i] == Linspace(start, end, periods, i)
  {
  }

  lemma LinspaceStep(start: Time, end: Time, periods: nat, i: nat)
    requires start <= end && periods >= 2 && i + 1 < periods
    ensures Linspace(start, end, periods, i) <= Linspace(start, end, periods, i + 1)
  {
    var d, w := periods - 1, end - start;
    MulMonotone(0, i, w);
    MulSucc(i, w);
    DivMonotone(i * w, i * w + w, d);
  }

  lemma MulSucc(i: int, w: int)
    ensures (i + 1) * w == i * w + w
  {
  }

  lemma LinspaceBounds(start: Time, end: Time, periods: nat, i: nat)
    requires start <= end && periods >= 2 && i < periods
    ensures start <= Linspace(start, end, periods, i) <= end
  {
    var d, w := periods - 1, end - start;
    MulMonotone(0, i, w);
    MulMonotone(i, d, w);
    DivMonotone(0, i * w, d);
    DivMonotone(i * w, d * w, d);
    assert d * w == w * d;
    DivOfMul(w, d);
  }

  /** The boundaries never go backwards and stay within the period when the
      period is not reversed. */
  lemma DateRangeOrdered(start: Time, end: Time, periods: nat)
    requires start <= end
    ensures forall i :: 0 <= i < periods - 1 ==> DateRange(start, end, periods)[i] <= DateRange(start, end, periods)[i + 1]
    ensures forall i :: 0 <= i < periods ==> start <= DateRange(start, end, periods)[i] <= end
  {
    var bs := DateRange(start, end, periods);
    if periods >= 2 {
      forall i | 0 <= i < periods - 1
        ensures bs[i] <= bs[i + 1]
      {
        DateRangeIsLinspace(start, end, periods, i);
        DateRangeIsLinspace(start, end, periods, i + 1);
        LinspaceStep(start, end, periods, i);
      }
      forall i | 0 <= i < periods
        ensures start <= bs[i] <= end
      {
        DateRangeIsLinspace(start, end, periods, i);
        LinspaceBounds(start, end, periods, i);
      }
    }
  }

  /** The `window` that `Sensor._fetch_data` iterates over. The utilities
      module it is imported from does not define it; this is the width-2
      sliding window, the pairs of adjacent boundaries, one per slice. */
  function Windows(bs: seq<Time>): (ps: seq<(Time, Time)>)
    ensures |ps| == if bs == [] then 0 else |bs| - 1
    ensures forall i :: 0 <= i < |ps| ==> ps[i] == (bs[i], bs[i + 1])
  {
    if |bs| < 2 then [] else [(bs[0], bs[1])] + Windows(bs[1..])
  }

  /** Where the sliced period starts: at `since` when given, else at the
      building's first measurement. */
  function PeriodStart(since: Option<Time>, status: BuildingStatus): Time {
    if since.Some? then since.value else status.firstMeasurementDate
  }

  /** One bounded request per pair of adjacent boundaries. */
  function SliceRequests(bs: seq<Time>): (rs: seq<Request>)
    ensures |rs| == |Windows(bs)|
    ensures forall i :: 0 <= i < |rs| ==> rs[i] == Request(Some(bs[i]), Some(bs[i + 1]))
    ensures forall i :: 0 <= i < |rs| - 1 ==> rs[i].end == rs[i + 1].start
  {
    var pairs := Windows(bs);
    var rs := seq(|pairs|, i requires 0 <= i < |pairs| => Request(Some(pairs[i].0), Some(pairs[i].1)));
    forall i | 0 <= i < |rs| - 1
      ensures rs[i].end == rs[i + 1].start
    {
      assert pairs[i] == (bs[i], bs[i + 1]) && pairs[i + 1] == (bs[i + 1], bs[i + 2]);
    }
    rs
  }

  /** The history requests `_fetch_data` issues once the remote size is known:
      one unbounded request below the threshold (whatever `since` is), else one
      bounded request per pair of adjacent boundaries. */
  function Plan(nValues: nat, since: Option<Time>, status: BuildingStatus): (plan: seq<Request>)
    ensures nValues < MaxLinePerRequest ==> plan == [Request(None, None)]
    ensures nValues >= MaxLinePerRequest ==> |plan| == nValues / MaxLinePerRequest
    ensures nValues >= MaxLinePerRequest ==>
      plan[0].start == Some(PeriodStart(since, status)) &&
      plan[|plan| - 1].end == Some(status.lastVariableValueChangedDate)
    ensures nValues >= MaxLinePerRequest ==>
      forall i :: 0 <= i < |plan| ==> plan[i].start.Some? && plan[i].end.Some?
    ensures forall i :: 0 <= i < |plan| - 1 ==> plan[i].end == plan[i + 1].start
  {
    if nValues < MaxLinePerRequest then [Request(None, None)]
    else
      var bs := DateRange(PeriodStart(since, status), status.lastVariableValueChangedDate, SliceCount(nValues));
      var rs := SliceRequests(bs);
      assert |rs| == |bs| - 1;
      rs
  }

  /** Each sliced request covers a period inside the planned one, start not
      after end, when the planned period is not reversed. */
  lemma PlanOrdered(nValues: nat, since: Option<Time>, status: BuildingStatus)
    requires nValues >= MaxLinePerRequest
    requires PeriodStart(since, status) <= status.lastVariableValueChangedDate
    ensures forall i :: 0 <= i < |Plan(nValues, since, status)| ==>
      var r := Plan(nValues, since, status)[i];
      PeriodStart(since, status) <= r.start.value <= r.end.value <= status.lastVariableValueChangedDate
  {
    var first, last := PeriodStart(since, status), status.lastVariableValueChangedDate;
    var bs := DateRange(first, last, SliceCount(nValues));
    DateRangeOrdered(first, last, SliceCount(nValues));
    var plan := Plan(nValues, since, status);
    assert plan == SliceRequests(bs);
    forall i | 0 <= i < |plan|
      ensures first <= plan[i].start.value <= plan[i].end.value <= last
    {
      assert plan[i] == Request(Some(bs[i]), Some(bs[i + 1]));
    }
  }

  lemma DateRangeThree(start: Time, end: Time)
    ensures DateRange(start, end, 3) == [start, Linspace(start, end, 3, 1), end]
  {
    DateRangeIsLinspace(start, end, 3, 1);
  }

  lemma SliceRequestsThree(x: Time, y: Time, z: Time)
    ensures SliceRequests([x, y, z]) == [Request(Some(x), Some(y)), Request(Some(y), Some(z))]
  {
    var rs := SliceRequests([x, y, z]);
    assert |rs| == 2;
    assert [x, y, z][1] == y && [x, y, z][2] == z;
    assert rs[0] == Request(Some(x), Some(y)) && rs[1] == Request(Some(y), Some(z));
  }

  /** 250000 rows over [0, 300]: three boundaries and two requests. */
  lemma PlanExample()
    ensures Plan(250000, None, BuildingStatus(0, 300))
      == [Request(Some(0), Some(150)), Request(Some(150), Some(300))]
  {
    assert SliceCount(250000) == 3;
    DateRangeThree(0, 300);
    assert 1 * (300 - 0) == 300 && 300 / 2 == 150;
    assert Linspace(0, 300, 3, 1) == 150;
    SliceRequestsThree(0, 150, 300);
  }

  // ---------------------------------------------------------------------------
  // Putting the slices together: pd.concat
  // ---------------------------------------------------------------------------

  function TotalRows(parts: seq<Table>): nat {
    if parts == [] then 0 else |parts[0]| + TotalRows(parts[1..])
  }

  /** The slice tables one after the other, in slice order. */
  function ConcatTables(parts: seq<Table>): (t: Table)
    ensures |t| == TotalRows(parts)
  {
    if parts == [] then [] else parts[0] + ConcatTables(parts[1..])
  }

  /** The answers to the requests of a plan, asked one after the other: part i
      is the answer to request i. */
  function FetchAll(history: Request -> Table, plan: seq<Request>): (parts: seq<Table>)
    ensures |parts| == |plan|
    ensures forall i :: 0 <= i < |plan| ==> parts[i] == history(plan[i])
    decreases |plan|
  {
    if plan == [] then []
    else
      var rest := FetchAll(history, plan[1..]);
      assert forall i :: 1 <= i < |plan| ==> plan[1..][i - 1] == plan[i];
      [history(plan[0])] + rest
  }

  /** Asking the requests of two plans one after the other gives the answers
      of the first plan followed by those of the second. */
  lemma {:induction false} FetchAllAppend(history: Request -> Table, p: seq<Request>, q: seq<Request>)
    ensures FetchAll(history, p + q) == FetchAll(history, p) + FetchAll(history, q)
    decreases |p|
  {
    if p == [] {
      assert p + q == q;
    } else {
      assert (p + q)[1..] == p[1..] + q;
      FetchAllAppend(history, p[1..], q);
    }
  }

  /** The fetched rows keep the plan's order: the rows answering the first
      requests come before those answering the later ones. */
  lemma FetchedRowsKeepPlanOrder(history: Request -> Table, p: seq<Request>, q: seq<Request>)
    ensures ConcatTables(FetchAll(history, p + q))
      == ConcatTables(FetchAll(history, p)) + ConcatTables(FetchAll(history, q))
  {
    FetchAllAppend(history, p, q);
    ConcatTablesAppend(FetchAll(history, p), FetchAll(history, q));
  }

  lemma {:induction false} TotalRowsAppend(a: seq<Table>, b: seq<Table>)
    ensures TotalRows(a + b) == TotalRows(a) + TotalRows(b)
    decreases |a|
  {
    if a == [] {
      assert a + b == b;
    } else {
      assert (a + b)[1..] == a[1..] + b;
      TotalRowsAppend(a[1..], b);
    }
  }

  lemma {:induction false} ConcatTablesAppend(a: seq<Table>, b: seq<Table>)
    ensures ConcatTables(a + b) == ConcatTables(a) + ConcatTables(b)
    decreases |a|
  {
    if a == [] {
      assert a + b == b;
    } else {
      assert (a + b)[1..] == a[1..] + b;
      ConcatTablesAppend(a[1..], b);
    }
  }

  /** Slice i occupies its own contiguous segment of the result, right after
      the rows of the slices before it. */
  lemma ConcatTablesSegment(parts: seq<Table>, i: nat)
    requires i < |parts|
    ensures TotalRows(parts[..i]) + |parts[i]| <= |ConcatTables(parts)|
    ensures ConcatTables(parts)[TotalRows(parts[..i])..TotalRows(parts[..i]) + |parts[i]|] == parts[i]
  {
    assert parts == parts[..i] + ([parts[i]] + parts[i + 1..]);
    ConcatTablesAppend(parts[..i], [parts[i]] + parts[i + 1..]);
    assert ConcatTables([parts[i]] + parts[i + 1..]) == parts[i] + ConcatTables(parts[i + 1..]) by {
      assert ([parts[i]] + parts[i + 1..])[1..] == parts[i + 1..];
    }
  }

  /** The slices that came back with rows. */
  function NonEmpty(parts: seq<Table>): (r: seq<Table>)
    ensures forall i :: 0 <= i < |r| ==> r[i] != []
    ensures |r| <= |parts|
  {
    if parts == [] then []
    else if parts[0] == [] then NonEmpty(parts[1..])
    else [parts[0]] + NonEmpty(parts[1..])
  }

  /** Empty slices (an empty or unreadable answer) contribute nothing. */
  lemma {:induction false} ConcatTablesSkipsEmpty(parts: seq<Table>)
    ensures ConcatTables(NonEmpty(parts)) == ConcatTables(parts)
    decreases |parts|
  {
    if parts != [] {
      ConcatTablesSkipsEmpty(parts[1..]);
      if parts[0] != [] {
        assert ([parts[0]] + NonEmpty(parts[1..]))[1..] == NonEmpty(parts[1..]);
      } else {
        assert [] + ConcatTables(parts[1..]) == ConcatTables(parts[1..]);
      }
    }
  }

  /** Timestamps strictly increase along the table. */
  predicate Ascending(t: Table) {
    forall i, j :: 0 <= i < j < |t| ==> t[i].time < t[j].time
  }

  /** Every row of an earlier slice is older than every row of a later one. */
  predicate SlicesInOrder(parts: seq<Table>) {
    forall i, j, k, l :: 0 <= i < j < |parts| && 0 <= k < |parts[i]| && 0 <= l < |parts[j]| ==>
      parts[i][k].time < parts[j][l].time
  }

  /** Concatenating ascending slices that come back in time order gives an
      ascending table. */
  lemma {:induction false} ConcatTablesAscending(parts: seq<Table>)
    requires forall i :: 0 <= i < |parts| ==> Ascending(parts[i])
    requires SlicesInOrder(parts)
    ensures Ascending(ConcatTables(parts))
    decreases |parts|
  {
    if parts != [] {
      SlicesInOrderTail(parts);
      ConcatTablesAscending(parts[1..]);
      HeadBeforeRest(parts);
      AscendingAppend(parts[0], ConcatTables(parts[1..]));
    }
  }

  /** The slices after the first keep both hypotheses. */
  lemma SlicesInOrderTail(parts: seq<Table>)
    requires parts != []
    requires forall i :: 0 <= i < |parts| ==> Ascending(parts[i])
    requires SlicesInOrder(parts)
    ensures forall i :: 0 <= i < |parts[1..]| ==> Ascending(parts[1..][i])
    ensures SlicesInOrder(parts[1..])
  {
    forall i | 0 <= i < |parts[1..]|
      ensures Ascending(parts[1..][i])
    {
      assert parts[1..][i] == parts[i + 1];
    }
    forall i, j, k, l | 0 <= i < j < |parts[1..]| && 0 <= k < |parts[1..][i]| && 0 <= l < |parts[1..][j]|
      ensures parts[1..][i][k].time < parts[1..][j][l].time
    {
      assert parts[1..][i] == parts[i + 1] && parts[1..][j] == parts[j + 1];
    }
  }

  /** Every row of the first slice is older than every row of the others. */
  lemma HeadBeforeRest(parts: seq<Table>)
    requires parts != []
    requires SlicesInOrder(parts)
    ensures forall k, m :: 0 <= k < |parts[0]| && 0 <= m < |ConcatTables(parts[1..])| ==>
      parts[0][k].time < ConcatTables(parts[1..])[m].time
  {
    var head, rest := parts[0], ConcatTables(parts[1..]);
    forall k, m | 0 <= k < |head| && 0 <= m < |rest|
      ensures head[k].time < rest[m].time
    {
      RowOfConcat(parts[1..], m);
      var j, l :| 0 <= j < |parts[1..]| && 0 <= l < |parts[1..][j]| && rest[m] == parts[1..][j][l];
      assert parts[1..][j] == parts[j + 1];
    }
  }

  /** Two ascending tables, the first entirely older, append to an ascending one. */
  lemma AscendingAppend(head: Table, rest: Table)
    requires Ascending(head) && Ascending(rest)
    requires forall k, m :: 0 <= k < |head| && 0 <= m < |rest| ==> head[k].time < rest[m].time
    ensures Ascending(head + rest)
  {
    var t := head + rest;
    forall i, j | 0 <= i < j < |t|
      ensures t[i].time < t[j].time
    {
      if j < |head| {
        assert t[i] == head[i] && t[j] == head[j];
      } else if i >= |head| {
        assert t[i] == rest[i - |head|] && t[j] == rest[j - |head|];
      } else {
        assert t[i] == head[i] && t[j] == rest[j - |head|];
      }
    }
  }

  /** Every row of the concatenation comes from one of the slices. */
  lemma {:induction false} RowOfConcat(parts: seq<Table>, m: nat)
    requires m < |ConcatTables(parts)|
    ensures exists j, l :: 0 <= j < |parts| && 0 <= l < |parts[j]| && ConcatTables(parts)[m] == parts[j][l]
    decreases |parts|
  {
    if m < |parts[0]| {
      assert ConcatTables(parts)[m] == parts[0][m];
    } else {
      RowOfConcat(parts[1..], m - |parts[0]|);
      var j, l :| 0 <= j < |parts[1..]| && 0 <= l < |parts[1..][j]|
        && ConcatTables(parts[1..])[m - |parts[0]|] == parts[1..][j][l];
      assert parts[1..][j] == parts[j + 1];
      assert ConcatTables(parts)[m] == parts[j + 1][l];
    }
  }
}
