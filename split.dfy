/**
 * data_prep/1_split.py: every row of the tab-separated input loses its columns
 * 1 and 2 and is written to writer `i % 16`, where the writers are one per CPU.
 */
module Split {
  import opened Wrappers

  type Row = seq<string>

  /** The modulus the script routes by, whatever the number of writers. */
  const RouteModulus: nat := 16

  datatype SplitError =
    | RowTooShort(index: nat)   // `del row[1], row[1]` on a row of fewer than three columns
    | NoSuchWriter(index: nat)  // `writers[i % 16]` past the end of the writer list

  /** What the writers hold when the loop ends, and why it ended early if it did. */
  datatype SplitOutcome = SplitOutcome(segments: seq<seq<Row>>, failure: Option<SplitError>)

  /** `del row[1], row[1]`: the second deletion removes what was column 2. */
  function DeleteColumns(row: Row): (r: Row)
    requires |row| >= 3
    ensures |r| == |row| - 2
    ensures r[0] == row[0]
    ensures forall k :: 1 <= k < |r| ==> r[k] == row[k + 2]
  {
    var once := row[..1] + row[2..];
    once[..1] + once[2..]
  }

  /** Whether row j can be written: wide enough, and routed to an existing writer. */
  predicate Routable(rows: seq<Row>, j: nat, writers: nat, modulus: nat)
    requires j < |rows| && modulus > 0
  {
    |rows[j]| >= 3 && j % modulus < writers
  }

  /** The loop over `enumerate(reader)` with `writers` writers, routing row i to writer `i % modulus`. */
  function Distribute(rows: seq<Row>, writers: nat, modulus: nat): (r: SplitOutcome)
    requires modulus > 0
    ensures |r.segments| == writers
  {
    if rows == [] then SplitOutcome(seq(writers, _ => []), None)
    else
      var i := |rows| - 1;
      var prev := Distribute(rows[..i], writers, modulus);
      if prev.failure.Some? then prev
      else if |rows[i]| < 3 then SplitOutcome(prev.segments, Some(RowTooShort(i)))
      else if i % modulus >= writers then SplitOutcome(prev.segments, Some(NoSuchWriter(i)))
      else
        var k := i % modulus;
        SplitOutcome(prev.segments[k := prev.segments[k] + [DeleteColumns(rows[i])]], None)
  }

  /** Every row the writers hold, counted with multiplicity. */
  function AllWritten(segments: seq<seq<Row>>): multiset<Row>
  {
    if segments == [] then multiset{}
    else AllWritten(segments[..|segments| - 1]) + multiset(segments[|segments| - 1])
  }

  lemma {:induction false} AllWrittenAppend(segments: seq<seq<Row>>, k: nat, row: Row)
    requires k < |segments|
    ensures AllWritten(segments[k := segments[k] + [row]]) == AllWritten(segments) + multiset{row}
  {
    var n := |segments| - 1;
    var after := segments[k := segments[k] + [row]];
    if k < n {
      assert after[..n] == segments[..n][k := segments[k] + [row]];
      AllWrittenAppend(segments[..n], k, row);
    } else {
      assert after[..n] == segments[..n];
    }
  }

  lemma {:induction false} AllWrittenEmpty(n: nat)
    ensures AllWritten(seq(n, _ => [])) == multiset{}
  {
    if n > 0 {
      var empty: seq<seq<Row>> := seq(n, _ => []);
      assert empty[..n - 1] == seq(n - 1, _ => []);
      AllWrittenEmpty(n - 1);
    }
  }

  /** Every row has the three columns `del row[1], row[1]` needs. */
  predicate Wide(rows: seq<Row>)
  {
    forall j :: 0 <= j < |rows| ==> |rows[j]| >= 3
  }

  /** The rows stripped of their columns 1 and 2, in input order. */
  function Stripped(rows: seq<Row>): (r: seq<Row>)
    requires Wide(rows)
    ensures |r| == |rows|
  {
    seq(|rows|, j requires 0 <= j < |rows| => DeleteColumns(rows[j]))
  }

  /** How many rows the loop handled: all of them, or those before the row that stopped it. */
  function StopIndex(r: SplitOutcome, len: nat): nat
  {
    if r.failure.None? then len else r.failure.value.index
  }

  /** The loop runs to the end exactly when every row is wide enough and routed to an existing writer. */
  lemma {:induction false} DistributeSucceeds(rows: seq<Row>, writers: nat, modulus: nat)
    requires modulus > 0
    ensures Distribute(rows, writers, modulus).failure.None? <==>
      forall j :: 0 <= j < |rows| ==> Routable(rows, j, writers, modulus)
  {
    if rows != [] {
      var i := |rows| - 1;
      var init := rows[..i];
      DistributeSucceeds(init, writers, modulus);
      assert forall j :: 0 <= j < i ==> rows[j] == init[j];
      assert forall j :: 0 <= j < i ==> (Routable(rows, j, writers, modulus) <==> Routable(init, j, writers, modulus));
      var prev := Distribute(init, writers, modulus);
      if prev.failure.Some? {
        var j :| 0 <= j < i && !Routable(init, j, writers, modulus);
        assert !Routable(rows, j, writers, modulus);
      } else if Routable(rows, i, writers, modulus) {
        assert Distribute(rows, writers, modulus).failure.None?;
        forall j | 0 <= j < |rows| ensures Routable(rows, j, writers, modulus) {
          if j < i {
            assert Routable(init, j, writers, modulus);
          }
        }
      } else {
        assert Distribute(rows, writers, modulus).failure.Some?;
      }
    }
  }

  /** The loop stops at the first row that cannot be written, with the error that row raises. */
  lemma {:induction false} DistributeStopsAtFirstFailure(rows: seq<Row>, writers: nat, modulus: nat)
    requires modulus > 0
    ensures var r := Distribute(rows, writers, modulus);
      r.failure.Some? ==>
        var e := r.failure.value.index;
        && e < |rows| && !Routable(rows, e, writers, modulus)
        && (r.failure.value.RowTooShort? <==> |rows[e]| < 3)
        && (forall j :: 0 <= j < e ==> Routable(rows, j, writers, modulus))
  {
    if rows != [] {
      var i := |rows| - 1;
      var init := rows[..i];
      DistributeStopsAtFirstFailure(init, writers, modulus);
      DistributeSucceeds(init, writers, modulus);
      assert forall j :: 0 <= j < i ==> rows[j] == init[j];
      assert forall j :: 0 <= j < i ==> (Routable(rows, j, writers, modulus) <==> Routable(init, j, writers, modulus));
    }
  }

  /** The writers hold exactly the rows before `stop`, stripped, each as often as it occurs. */
  ghost predicate WrittenOnce(rows: seq<Row>, segments: seq<seq<Row>>, stop: nat)
  {
    stop <= |rows| && Wide(rows[..stop]) && AllWritten(segments) == multiset(Stripped(rows[..stop]))
  }

  /** Every row read before the loop stops is written exactly once. */
  lemma {:induction false} DistributeWritesEachRowOnce(rows: seq<Row>, writers: nat, modulus: nat)
    requires modulus > 0
    ensures var r := Distribute(rows, writers, modulus);
      WrittenOnce(rows, r.segments, StopIndex(r, |rows|))
  {
    if rows == [] {
      AllWrittenEmpty(writers);
      assert rows[..0] == [];
    } else {
      var i := |rows| - 1;
      var init := rows[..i];
      DistributeWritesEachRowOnce(init, writers, modulus);
      var prev := Distribute(init, writers, modulus);
      var r := Distribute(rows, writers, modulus);
      var stop := StopIndex(prev, i);
      if prev.failure.None? && Routable(rows, i, writers, modulus) {
        WrittenOnceAppend(rows, prev.segments, i % modulus);
      } else {
        WrittenOnceExtend(rows, prev.segments, stop);
      }
    }
  }

  /** Writing the last row, stripped, to one writer keeps every row read written once. */
  lemma WrittenOnceAppend(rows: seq<Row>, segments: seq<seq<Row>>, k: nat)
    requires |rows| > 0 && |rows[|rows| - 1]| >= 3 && k < |segments|
    requires WrittenOnce(rows[..|rows| - 1], segments, |rows| - 1)
    ensures WrittenOnce(rows, segments[k := segments[k] + [DeleteColumns(rows[|rows| - 1])]], |rows|)
  {
    var i := |rows| - 1;
    var init := rows[..i];
    assert init[..i] == init;
    AllWrittenAppend(segments, k, DeleteColumns(rows[i]));
    assert rows[..i + 1] == rows == init + [rows[i]];
    assert Stripped(rows) == Stripped(init) + [DeleteColumns(rows[i])];
  }

  /** Reading a further row without writing it leaves what was written before `stop` as it was. */
  lemma WrittenOnceExtend(rows: seq<Row>, segments: seq<seq<Row>>, stop: nat)
    requires |rows| > 0 && stop < |rows|
    requires WrittenOnce(rows[..|rows| - 1], segments, stop)
    ensures WrittenOnce(rows, segments, stop)
  {
    assert rows[..|rows| - 1][..stop] == rows[..stop];
  }

  /** Each written row lands on writer `j % modulus`. */
  lemma {:induction false} DistributeRoutes(rows: seq<Row>, writers: nat, modulus: nat)
    requires modulus > 0
    ensures var r := Distribute(rows, writers, modulus);
      r.failure.None? ==> forall j :: 0 <= j < |rows| ==>
        |rows[j]| >= 3 && j % modulus < writers && DeleteColumns(rows[j]) in r.segments[j % modulus]
  {
    if rows != [] {
      var i := |rows| - 1;
      var init := rows[..i];
      DistributeRoutes(init, writers, modulus);
      var prev := Distribute(init, writers, modulus);
      assert forall j :: 0 <= j < i ==> rows[j] == init[j];
    }
  }

  /** Writers at index `modulus` and above never receive a row. */
  lemma {:induction false} DistributeIdleWriters(rows: seq<Row>, writers: nat, modulus: nat)
    requires modulus > 0
    ensures forall k :: modulus <= k < writers ==> Distribute(rows, writers, modulus).segments[k] == []
  {
    if rows != [] {
      DistributeIdleWriters(rows[..|rows| - 1], writers, modulus);
    }
  }

  /** The number of indices below `len` that are congruent to k modulo `modulus`. */
  function CountRouted(len: nat, k: nat, modulus: nat): nat
    requires modulus > 0
  {
    if len == 0 then 0 else CountRouted(len - 1, k, modulus) + if (len - 1) % modulus == k then 1 else 0
  }

  /** The count in closed form: for k below the modulus, indices k, k + modulus, ... below `len`. */
  lemma {:induction false} CountRoutedClosed(len: nat, k: nat, m: nat)
    requires m > 0
    ensures CountRouted(len, k, m) == if k < m && k < len then (len - 1 - k) / m + 1 else 0
  {
    if len > 0 {
      CountRoutedClosed(len - 1, k, m);
      ClosedStep(len - 1, k, m);
    }
  }

  /** Euclidean division has one quotient and one remainder. */
  lemma DivUnique(a: int, m: int, q: int, s: int)
    requires m > 0 && 0 <= s < m && a == m * q + s
    ensures a / m == q && a % m == s
  {
    var q', s' := a / m, a % m;
    if q' > q {
      MulMonotone(m, q + 1, q');
    } else if q' < q {
      MulMonotone(m, q' + 1, q);
    }
  }

  lemma MulMonotone(m: nat, x: int, y: int)
    requires x <= y
    ensures m * x + m * (y - x) == m * y && m * x <= m * y
  {
    var d: nat := y - x;
    assert m * y == m * x + m * d;
  }

  /** The closed form grows by one exactly at the indices congruent to k. */
  lemma ClosedStep(i: nat, k: nat, m: nat)
    requires m > 0
    ensures (if k < m && k < i + 1 then (i - k) / m + 1 else 0)
         == (if k < m && k < i then (i - 1 - k) / m + 1 else 0) + if i % m == k then 1 else 0
  {
    if k < m && k < i {
      var a := i - 1 - k;
      var q, s := a / m, a % m;
      assert a == m * q + s;
      MulStep(m, q);
      if s + 1 < m {
        DivUnique(a + 1, m, q, s + 1);
        if s + 1 + k < m {
          DivUnique(i, m, q, s + 1 + k);
        } else {
          DivUnique(i, m, q + 1, s + 1 + k - m);
        }
      } else {
        DivUnique(a + 1, m, q + 1, 0);
        DivUnique(i, m, q + 1, k);
      }
    } else if k < m && k == i {
      DivUnique(i, m, 0, k);
      DivUnique(0, m, 0, 0);
    } else if k < m {
      DivUnique(i, m, 0, i);
    }
  }

  lemma MulStep(m: nat, q: int)
    ensures m * (q + 1) == m * q + m
  {
  }

  /** Row i is the next position of its writer: that writer has received `i / m` rows before it. */
  lemma CountAtRemainder(i: nat, m: nat)
    requires m > 0
    ensures CountRouted(i, i % m, m) == i / m
  {
    CountRoutedClosed(i, i % m, m);
    if i % m < i {
      PreviousQuotient(i, m);
    } else {
      DivUnique(i, m, 0, i);
    }
  }

  /** Row i sits at remainder plus modulus times quotient. */
  lemma Decompose(i: nat, m: nat)
    requires m > 0
    ensures i % m + m * (i / m) == i
  {
  }

  lemma PreviousQuotient(i: nat, m: nat)
    requires m > 0 && i % m < i
    ensures (i - 1 - i % m) / m + 1 == i / m
  {
    var q, k := i / m, i % m;
    assert i == m * q + k;
    MulStep(m, q - 1);
    DivUnique(i - 1 - k, m, q - 1, m - 1);
  }

  /** Writer k holds one row for each index below `stop` congruent to k mod `modulus`. */
  ghost predicate SizesMatch(segments: seq<seq<Row>>, stop: nat, modulus: nat)
    requires modulus > 0
  {
    forall k :: 0 <= k < |segments| ==> |segments[k]| == CountRouted(stop, k, modulus)
  }

  /**
   * Writer k receives one row for each index below the stop index congruent to k mod
   * `modulus`, whether the loop runs to the end or stops early.
   */
  lemma {:induction false} SplitSegmentSizes(rows: seq<Row>, writers: nat, modulus: nat)
    requires modulus > 0
    ensures var r := Distribute(rows, writers, modulus);
      SizesMatch(r.segments, StopIndex(r, |rows|), modulus)
  {
    if rows != [] {
      var i := |rows| - 1;
      var init := rows[..i];
      SplitSegmentSizes(init, writers, modulus);
      var prev := Distribute(init, writers, modulus);
      var r := Distribute(rows, writers, modulus);
      if prev.failure.None? && Routable(rows, i, writers, modulus) {
        forall k | 0 <= k < writers
          ensures |r.segments[k]| == CountRouted(i + 1, k, modulus)
        {
          assert |prev.segments[k]| == CountRouted(i, k, modulus);
        }
      }
    }
  }

  /**
   * Position p of writer k holds row k + modulus * p, one of the rows read before `stop`,
   * stripped of its columns 1 and 2.
   */
  ghost predicate WrittenAt(rows: seq<Row>, segments: seq<seq<Row>>, stop: nat, k: nat, p: nat, modulus: nat)
    requires k < |segments| && p < |segments[k]|
  {
    var j := k + modulus * p;
    j < stop && j < |rows| && |rows[j]| >= 3 && segments[k][p] == DeleteColumns(rows[j])
  }

  /** Every position of every writer holds the row its routing predicts, read before `stop`. */
  ghost predicate ContentsMatch(rows: seq<Row>, segments: seq<seq<Row>>, stop: nat, modulus: nat)
  {
    forall k, p :: 0 <= k < |segments| && 0 <= p < |segments[k]| ==> WrittenAt(rows, segments, stop, k, p, modulus)
  }

  /**
   * Writer k receives rows k, k + modulus, k + 2 modulus, ..., in input order, all of them
   * before the stop index.
   */
  lemma {:induction false} SplitSegmentContents(rows: seq<Row>, writers: nat, modulus: nat)
    requires modulus > 0
    ensures var r := Distribute(rows, writers, modulus);
      ContentsMatch(rows, r.segments, StopIndex(r, |rows|), modulus)
  {
    if rows != [] {
      var i := |rows| - 1;
      var init := rows[..i];
      SplitSegmentContents(init, writers, modulus);
      SplitSegmentSizes(init, writers, modulus);
      var prev := Distribute(init, writers, modulus);
      if prev.failure.None? && Routable(rows, i, writers, modulus) {
        ContentsAppend(rows, prev.segments, modulus);
      } else {
        DistributeStopsAtFirstFailure(init, writers, modulus);
        ContentsExtend(rows, prev.segments, StopIndex(prev, i), modulus);
      }
    }
  }

  /** Writing the last row to writer `i % modulus` puts it at the position its routing predicts. */
  lemma ContentsAppend(rows: seq<Row>, segments: seq<seq<Row>>, modulus: nat)
    requires modulus > 0 && |rows| > 0
    requires |rows[|rows| - 1]| >= 3 && (|rows| - 1) % modulus < |segments|
    requires ContentsMatch(rows[..|rows| - 1], segments, |rows| - 1, modulus)
    requires SizesMatch(segments, |rows| - 1, modulus)
    ensures var i := |rows| - 1; var k0 := i % modulus;
      ContentsMatch(rows, segments[k0 := segments[k0] + [DeleteColumns(rows[i])]], i + 1, modulus)
  {
    var i := |rows| - 1;
    var init := rows[..i];
    var k0 := i % modulus;
    var after := segments[k0 := segments[k0] + [DeleteColumns(rows[i])]];
    var stop := i + 1;
    CountAtRemainder(i, modulus);
    Decompose(i, modulus);
    forall k, p | 0 <= k < |after| && 0 <= p < |after[k]|
      ensures WrittenAt(rows, after, stop, k, p, modulus)
    {
      if k == k0 && p == |segments[k]| {
        assert p == CountRouted(i, k0, modulus) == i / modulus;
        assert k + modulus * p == i;
      } else {
        assert WrittenAt(init, segments, i, k, p, modulus);
        assert rows[k + modulus * p] == init[k + modulus * p];
      }
    }
  }

  /** Reading a further row without writing it leaves the writers' contents as they were. */
  lemma ContentsExtend(rows: seq<Row>, segments: seq<seq<Row>>, stop: nat, modulus: nat)
    requires |rows| > 0 && stop < |rows|
    requires ContentsMatch(rows[..|rows| - 1], segments, stop, modulus)
    ensures ContentsMatch(rows, segments, stop, modulus)
  {
    var init := rows[..|rows| - 1];
    forall k, p | 0 <= k < |segments| && 0 <= p < |segments[k]|
      ensures WrittenAt(rows, segments, stop, k, p, modulus)
    {
      assert WrittenAt(init, segments, stop, k, p, modulus);
      assert rows[k + modulus * p] == init[k + modulus * p];
    }
  }

  /**
   * The loop of data_prep/1_split.py:15-18 over one writer per CPU: the rows written to
   * each writer, and the error that stopped the script if one did.
   */
  method SplitRows(rows: seq<Row>, cpuCount: nat) returns (segments: seq<seq<Row>>, failure: Option<SplitError>)
    ensures SplitOutcome(segments, failure) == Distribute(rows, cpuCount, RouteModulus)
  {
    var writers := new seq<Row>[cpuCount](_ => []);
    assert writers[..] == Distribute(rows[..0], cpuCount, RouteModulus).segments;
    for i := 0 to |rows|
      invariant Distribute(rows[..i], cpuCount, RouteModulus) == SplitOutcome(writers[..], None)
    {
      assert rows[..i + 1][..i] == rows[..i];
      var row := rows[i];
      if |row| < 3 {
        DistributeFailureSticks(rows, i + 1, cpuCount, RouteModulus);
        return writers[..], Some(RowTooShort(i));
      }
      row := DeleteColumns(row);
      var k := i % RouteModulus;
      if k >= writers.Length {
        DistributeFailureSticks(rows, i + 1, cpuCount, RouteModulus);
        return writers[..], Some(NoSuchWriter(i));
      }
      writers[k] := writers[k] + [row];
    }
    assert rows[..|rows|] == rows;
    segments, failure := writers[..], None;
  }

  /** Once the loop has stopped, later rows change nothing. */
  lemma {:induction false} DistributeFailureSticks(rows: seq<Row>, k: nat, writers: nat, modulus: nat)
    requires modulus > 0
    requires k <= |rows| && Distribute(rows[..k], writers, modulus).failure.Some?
    ensures Distribute(rows, writers, modulus) == Distribute(rows[..k], writers, modulus)
    decreases |rows| - k
  {
    if k == |rows| {
      assert rows[..k] == rows;
    } else {
      assert rows[..k + 1][..k] == rows[..k];
      DistributeFailureSticks(rows, k + 1, writers, modulus);
    }
  }

  /** The evident intent: route row i to writer `i % cpuCount`, so that every writer exists. */
  function SplitCorrected(rows: seq<Row>, cpuCount: nat): (r: SplitOutcome)
    requires cpuCount > 0
    ensures |r.segments| == cpuCount
    ensures r.failure.None? <==> Wide(rows)
    ensures r.failure.Some? ==> r.failure.value.RowTooShort?
    ensures WrittenOnce(rows, r.segments, StopIndex(r, |rows|))
    ensures SizesMatch(r.segments, StopIndex(r, |rows|), cpuCount)
    ensures ContentsMatch(rows, r.segments, StopIndex(r, |rows|), cpuCount)
  {
    CorrectedFailure(rows, cpuCount);
    DistributeWritesEachRowOnce(rows, cpuCount, cpuCount);
    SplitSegmentSizes(rows, cpuCount, cpuCount);
    SplitSegmentContents(rows, cpuCount, cpuCount);
    Distribute(rows, cpuCount, cpuCount)
  }

  /** With as many routes as writers every index names a writer, so only a short row can stop the loop. */
  lemma CorrectedFailure(rows: seq<Row>, cpuCount: nat)
    requires cpuCount > 0
    ensures var r := Distribute(rows, cpuCount, cpuCount);
      && (r.failure.None? <==> Wide(rows))
      && (r.failure.Some? ==> r.failure.value.RowTooShort?)
  {
    DistributeSucceeds(rows, cpuCount, cpuCount);
    DistributeStopsAtFirstFailure(rows, cpuCount, cpuCount);
    forall j | 0 <= j < |rows|
      ensures Routable(rows, j, cpuCount, cpuCount) <==> |rows[j]| >= 3
    {
      assert j % cpuCount < cpuCount;
    }
  }

  /** Every writer below both the writer count and the stop index holds at least one row. */
  ghost predicate WritersUsed(segments: seq<seq<Row>>, stop: nat, writers: nat)
  {
    forall k :: 0 <= k < writers && k < stop && k < |segments| ==> |segments[k]| > 0
  }

  /**
   * Every writer of the corrected split whose index is below the stop index receives a row:
   * all of them once there are as many rows as writers and no row is short.
   */
  lemma CorrectedUsesEveryWriter(rows: seq<Row>, cpuCount: nat)
    requires cpuCount > 0
    ensures WritersUsed(SplitCorrected(rows, cpuCount).segments, StopIndex(SplitCorrected(rows, cpuCount), |rows|), cpuCount)
    ensures SplitCorrected(rows, cpuCount).failure.None? ==> WritersUsed(SplitCorrected(rows, cpuCount).segments, |rows|, cpuCount)
  {
    var r := SplitCorrected(rows, cpuCount);
    var stop := StopIndex(r, |rows|);
    forall k | 0 <= k < cpuCount && k < stop && k < |r.segments| ensures |r.segments[k]| > 0 {
      CountRoutedClosed(stop, k, cpuCount);
    }
  }

  /** Five three-column rows. */
  const FiveRows: seq<Row> := seq(5, i => ["text", "a", "b"])

  /**
   * With four CPUs the script as written stops at row 4 (4 % 16 == 4 has no writer) after
   * writing one row to each writer, while the corrected split writes row 4 to writer 0.
   */
  lemma FourCpuCounterexample()
    ensures Distribute(FiveRows, 4, RouteModulus).failure == Some(NoSuchWriter(4))
    ensures SplitCorrected(FiveRows, 4).failure.None?
  {
    DistributeSucceeds(FiveRows, 4, RouteModulus);
    DistributeStopsAtFirstFailure(FiveRows, 4, RouteModulus);
    assert !Routable(FiveRows, 4, 4, RouteModulus);
  }

  /** With twenty CPUs the writers 16 to 19 stay empty whatever the input. */
  lemma TwentyCpusLeaveWritersIdle(rows: seq<Row>)
    ensures forall k :: 16 <= k < 20 ==> Distribute(rows, 20, RouteModulus).segments[k] == []
  {
    DistributeIdleWriters(rows, 20, RouteModulus);
  }
}
