/**
 * One tick of the metrics ticker and the ticker loop itself: scan every
 * directory, turn each size into a `directory_size_in_bytes` point tagged
 * with the static tags and the path-derived tags, batch the points and hand
 * the batch to the sink unless this is a dry run.
 */
module Report {
  import opened Wrappers
  import opened Paths
  import opened FileTree
  import opened Scan
  import opened Tags

  const Measurement: string := "directory_size_in_bytes"

  /** A point as `influx.NewPoint` is asked to build it; no timestamp is given to it. */
  datatype Point = Point(measurement: string, tags: Tags, fields: map<string, int>)

  /** `influx.BatchPoints`: the configured database and the points added, in order. */
  datatype Batch = Batch(database: string, points: seq<Point>)

  /** The tags derived from a scanned directory's path. */
  function DerivedTags(k: Path): Tags
  {
    map["absolute_path" := PathString(k), "directory_path" := DirString(k), "base_path" := BaseString(k)]
  }

  /** The point built for directory `k` of size `v`: static tags first, then derived ones. */
  function PointFor(k: Path, v: int, staticTags: Tags): Point
  {
    Point(Measurement, Merged([staticTags, DerivedTags(k)]), map["value" := v])
  }

  /**
   * Each point is tagged with the directory's path, its parent and its base
   * name, keeps every static tag whose key is not one of those three, and
   * carries the size as its one field, `value`.
   */
  lemma PointForTags(k: Path, v: int, staticTags: Tags)
    ensures PointFor(k, v, staticTags).measurement == "directory_size_in_bytes"
    ensures PointFor(k, v, staticTags).fields == map["value" := v]
    ensures PointFor(k, v, staticTags).tags.Keys == staticTags.Keys + {"absolute_path", "directory_path", "base_path"}
    ensures PointFor(k, v, staticTags).tags["absolute_path"] == PathString(k)
    ensures PointFor(k, v, staticTags).tags["directory_path"] == DirString(k)
    ensures PointFor(k, v, staticTags).tags["base_path"] == BaseString(k)
    ensures forall t :: t in staticTags && t !in {"absolute_path", "directory_path", "base_path"} ==>
                          PointFor(k, v, staticTags).tags[t] == staticTags[t]
  {
    DerivedTagsWin(staticTags, DerivedTags(k));
  }

  /**
   * `points` holds one point per entry of `sizes` whose point `accepts`, and
   * no other: `order` lists those directories, each once, in the order their
   * points were added.
   */
  ghost predicate IsBatchFor(points: seq<Point>, order: seq<Path>, sizes: map<Path, int>,
                             staticTags: Tags, accepts: Point -> bool)
  {
    && |order| == |points|
    && (forall i, j :: 0 <= i < j < |order| ==> order[i] != order[j])
    && (forall i :: 0 <= i < |order| ==> order[i] in sizes && points[i] == PointFor(order[i], sizes[order[i]], staticTags))
    && (forall k :: k in sizes ==> (k in order <==> accepts(PointFor(k, sizes[k], staticTags))))
  }

  /**
   * The point loop of a tick.  `accepts` stands for the checks inside
   * `influx.NewPoint`: a point it rejects is skipped and the others are still
   * added.  Go's map order is unspecified, so keys are taken in any order.
   */
  method BuildBatch(sizes: map<Path, int>, staticTags: Tags, accepts: Point -> bool)
    returns (points: seq<Point>, ghost order: seq<Path>)
    ensures IsBatchFor(points, order, sizes, staticTags, accepts)
    ensures forall p :: p in points <==> exists k :: k in sizes && p == PointFor(k, sizes[k], staticTags) && accepts(p)
  {
    points, order := [], [];
    var rest := sizes.Keys;
    while rest != {}
      invariant rest <= sizes.Keys
      invariant |order| == |points|
      invariant forall i :: 0 <= i < |order| ==> order[i] in sizes && order[i] !in rest
      invariant forall i :: 0 <= i < |order| ==> points[i] == PointFor(order[i], sizes[order[i]], staticTags)
      invariant forall i, j :: 0 <= i < j < |order| ==> order[i] != order[j]
      invariant forall k :: k in sizes && k !in rest ==> (k in order <==> accepts(PointFor(k, sizes[k], staticTags)))
      decreases rest
    {
      var k :| k in rest;
      var tags := MergeTagSets([staticTags, DerivedTags(k)]);
      var point := Point(Measurement, tags, map["value" := sizes[k]]);
      assert point == PointFor(k, sizes[k], staticTags);
      ghost var order0 := order;
      if accepts(point) {
        points, order := points + [point], order + [k];
      }
      assert forall x :: x in order <==> x in order0 || (x == k && accepts(point));
      rest := rest - {k};
    }
    BatchMembers(points, order, sizes, staticTags, accepts);
  }

  /** The batch's points are exactly the accepted points of the sizes found. */
  lemma BatchMembers(points: seq<Point>, order: seq<Path>, sizes: map<Path, int>, staticTags: Tags, accepts: Point -> bool)
    requires IsBatchFor(points, order, sizes, staticTags, accepts)
    ensures forall p :: p in points <==> exists k :: k in sizes && p == PointFor(k, sizes[k], staticTags) && accepts(p)
  {
    forall p | p in points
      ensures exists k :: k in sizes && p == PointFor(k, sizes[k], staticTags) && accepts(p)
    {
      var i :| 0 <= i < |points| && points[i] == p;
      assert order[i] in order;
    }
    forall k | k in sizes && accepts(PointFor(k, sizes[k], staticTags))
      ensures PointFor(k, sizes[k], staticTags) in points
    {
      var i :| 0 <= i < |order| && order[i] == k;
    }
  }

  lemma {:induction false} DistinctCard(order: seq<Path>)
    requires forall i, j :: 0 <= i < j < |order| ==> order[i] != order[j]
    ensures |set k | k in order| == |order|
    decreases |order|
  {
    if order != [] {
      var init := order[..|order| - 1];
      DistinctCard(init);
      assert (set k | k in order) == (set k | k in init) + {order[|order| - 1]};
      assert order[|order| - 1] !in init;
    }
  }

  /** A batch has exactly as many points as there are sizes whose point was accepted. */
  lemma BatchSize(points: seq<Point>, order: seq<Path>, sizes: map<Path, int>, staticTags: Tags, accepts: Point -> bool)
    requires IsBatchFor(points, order, sizes, staticTags, accepts)
    ensures |points| == |set k | k in sizes && accepts(PointFor(k, sizes[k], staticTags))|
    ensures |points| <= |sizes|
  {
    DistinctCard(order);
    assert (set k | k in order) == (set k | k in sizes && accepts(PointFor(k, sizes[k], staticTags)));
    assert (set k | k in order) <= sizes.Keys;
    CardSubset((set k | k in order), sizes.Keys);
  }

  lemma CardSubset(a: set<Path>, b: set<Path>)
    requires a <= b
    ensures |a| <= |b|
  {
    assert b == a + (b - a);
  }

  /** The external metrics sink; it records every batch handed to it. */
  class Sink {
    ghost var written: seq<Batch>

    constructor ()
      ensures written == []
    {
      written := [];
    }

    /** `influxClient.Write`: the batch is handed over; whether the write fails is up to the server. */
    method Write(batch: Batch) returns (failed: bool)
      modifies this
      ensures written == old(written) + [batch]
    {
      written := written + [batch];
      failed := *;
    }
  }

  /** What a tick did: the sizes it found, the batch it built, whether it wrote it and whether that failed. */
  datatype TickReport = TickReport(sizes: map<Path, int>, batch: Option<Batch>, sent: bool, sinkFailed: bool)

  /**
   * What one tick leaves behind, apart from the sink: the sizes are those of
   * `GetAllDirSizes`; a batch exists exactly when `NewBatchPoints` succeeds
   * and then holds the accepted points for the configured database; the
   * batch is written exactly when it exists and the run is not dry; and a
   * write failure is only reported.
   */
  ghost predicate TickOutcome(fs: Node, directories: seq<Path>, database: string, staticTags: Tags, isDry: bool,
                              batchCreated: bool, accepts: Point -> bool, report: TickReport)
  {
    && (forall d :: d in report.sizes <==> d in directories && DirSize(fs, d).Success?)
    && (forall d :: d in report.sizes ==> report.sizes[d] == DirSize(fs, d).value)
    && (report.batch.Some? <==> batchCreated)
    && (report.batch.Some? ==>
          && report.batch.value.database == database
          && exists order :: IsBatchFor(report.batch.value.points, order, report.sizes, staticTags, accepts))
    && (report.sent <==> batchCreated && !isDry)
    && (report.sinkFailed ==> report.sent)
  }

  /**
   * One tick.  `batchCreated` is the outcome of `influx.NewBatchPoints`; when
   * it fails the tick ends early.  A dry run builds the batch and never
   * calls the sink; otherwise the sink is called exactly once and its error
   * is only reported.
   */
  method Tick(fs: Node, directories: seq<Path>, database: string, staticTags: Tags, isDry: bool,
              batchCreated: bool, accepts: Point -> bool, sink: Sink)
    returns (report: TickReport)
    modifies sink
    ensures TickOutcome(fs, directories, database, staticTags, isDry, batchCreated, accepts, report)
    ensures sink.written == old(sink.written) + (if report.sent then [report.batch.value] else [])
  {
    var sizes := GetAllDirSizes(fs, directories);
    if !batchCreated {
      return TickReport(sizes, None, false, false);
    }
    var points, order := BuildBatch(sizes, staticTags, accepts);
    var batch := Batch(database, points);
    if isDry {
      return TickReport(sizes, Some(batch), false, false);
    }
    var failed := sink.Write(batch);
    report := TickReport(sizes, Some(batch), true, failed);
  }

  /** What changes from one tick to the next: the filesystem and whether the batch can be created. */
  datatype TickInput = TickInput(fs: Node, batchCreated: bool)

  /** The batches of the ticks that wrote, in tick order. */
  function SentBatches(reports: seq<TickReport>): seq<Batch>
  {
    if reports == [] then []
    else
      var last := reports[|reports| - 1];
      SentBatches(reports[..|reports| - 1]) + (if last.sent && last.batch.Some? then [last.batch.value] else [])
  }

  /**
   * The ticker loop over a finite run of ticks: ticks run one after the
   * other, each with everything `Tick` promises for its own filesystem; a
   * failed write neither stops the loop nor is retried; the sink receives
   * exactly the batches of the ticks that wrote, in order, so nothing in a
   * dry run and one batch per created batch otherwise.
   */
  method RunTicks(ticks: seq<TickInput>, directories: seq<Path>, database: string, staticTags: Tags,
                  isDry: bool, accepts: Point -> bool, sink: Sink)
    returns (reports: seq<TickReport>)
    modifies sink
    ensures |reports| == |ticks|
    ensures forall i :: 0 <= i < |ticks| ==>
              TickOutcome(ticks[i].fs, directories, database, staticTags, isDry, ticks[i].batchCreated, accepts, reports[i])
    ensures sink.written == old(sink.written) + SentBatches(reports)
    ensures isDry ==> sink.written == old(sink.written)
    ensures |sink.written| == |old(sink.written)| + |set i | 0 <= i < |ticks| && ticks[i].batchCreated && !isDry|
  {
    reports := [];
    for i := 0 to |ticks|
      invariant |reports| == i
      invariant forall j :: 0 <= j < i ==>
                  TickOutcome(ticks[j].fs, directories, database, staticTags, isDry, ticks[j].batchCreated, accepts, reports[j])
      invariant sink.written == old(sink.written) + SentBatches(reports)
    {
      var report := Tick(ticks[i].fs, directories, database, staticTags, isDry, ticks[i].batchCreated, accepts, sink);
      assert (reports + [report])[..i] == reports;
      reports := reports + [report];
    }
    if isDry {
      DryRunSendsNothing(reports);
    }
    SentBatchesCount(reports);
    assert (set i | 0 <= i < |reports| && reports[i].sent) == (set i | 0 <= i < |ticks| && ticks[i].batchCreated && !isDry);
  }

  /** A dry run never writes, however many ticks pass. */
  lemma {:induction false} DryRunSendsNothing(reports: seq<TickReport>)
    requires forall i :: 0 <= i < |reports| ==> !reports[i].sent
    ensures SentBatches(reports) == []
  {
    if reports != [] {
      DryRunSendsNothing(reports[..|reports| - 1]);
    }
  }

  /** Without a dry run, every tick that created its batch writes it exactly once. */
  lemma {:induction false} SentBatchesCount(reports: seq<TickReport>)
    requires forall i :: 0 <= i < |reports| ==> reports[i].sent ==> reports[i].batch.Some?
    ensures |SentBatches(reports)| == |set i | 0 <= i < |reports| && reports[i].sent|
  {
    if reports != [] {
      var n := |reports| - 1;
      SentBatchesCount(reports[..n]);
      var before := set i | 0 <= i < n && reports[..n][i].sent;
      assert (set i | 0 <= i < n && reports[i].sent) == before;
      if reports[n].sent {
        assert (set i | 0 <= i < |reports| && reports[i].sent) == before + {n};
      } else {
        assert (set i | 0 <= i < |reports| && reports[i].sent) == before;
      }
    }
  }
}
