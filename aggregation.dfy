/** The per-frame loops: count person detections into a freshly zeroed
    `rows` by `cols` array, then walk the cells in row-major order, emitting
    one zone per cell and updating the alert set as each zone is emitted.
    Each method is proved against the value-level definitions of modules
    Zones and Alerts. */
module Aggregation {
  import opened Zones
  import opened Alerts

  /** A frame as the processing loop sees it: its pixel size and what the
      detector found in it. */
  datatype Frame = Frame(height: nat, width: nat, detections: seq<Detection>) {
    function GridOf(rows: nat, cols: nat): Grid {
      Grid(rows, cols, height, width)
    }

    /** `rows` by `cols` cells fit the frame and every box is on screen. */
    predicate Fits(rows: nat, cols: nat) {
      GridOf(rows, cols).Valid() && AllOnScreen(detections)
    }
  }

  /** The count stored for row-major position `k`. */
  function CountAt(counts: array2<nat>, k: int): nat
    reads counts
    requires 1 <= counts.Length1 && 0 <= k < counts.Length0 * counts.Length1
  {
    FlatCell(k, counts.Length0, counts.Length1);
    counts[k / counts.Length1, k % counts.Length1]
  }

  /** Counts the person detections per cell and in total. */
  method CountZones(g: Grid, dets: seq<Detection>) returns (counts: array2<nat>, total: nat)
    requires g.Valid() && AllOnScreen(dets)
    ensures counts.Length0 == g.rows && counts.Length1 == g.cols
    ensures total == Persons(dets)
    ensures forall r, c | 0 <= r < g.rows && 0 <= c < g.cols :: counts[r, c] == CellCount(g, dets, r, c)
  {
    var zoneH, zoneW := g.ZoneH(), g.ZoneW();
    counts := new nat[g.rows, g.cols]((_, _) => 0);
    total := 0;
    for i := 0 to |dets|
      invariant total == Persons(dets[..i])
      invariant forall r, c | 0 <= r < g.rows && 0 <= c < g.cols :: counts[r, c] == CellCount(g, dets[..i], r, c)
    {
      var d := dets[i];
      assert dets[..i + 1] == dets[..i] + [d];
      if d.cls == PERSON_CLASS {
        total := total + 1;
        var cx, cy := (d.x1 + d.x2) / 2, (d.y1 + d.y2) / 2;
        var row := Min(cy / zoneH, g.rows - 1);
        var col := Min(cx / zoneW, g.cols - 1);
        assert (row, col) == CellOf(g, d);
        forall r, c | 0 <= r < g.rows && 0 <= c < g.cols
          ensures CellCount(g, dets[..i + 1], r, c)
               == CellCount(g, dets[..i], r, c) + (if (r, c) == (row, col) then 1 else 0)
        {
          PersonCounted(g, dets[..i], d, r, c);
        }
        counts[row, col] := counts[row, col] + 1;
      } else {
        forall r, c | 0 <= r < g.rows && 0 <= c < g.cols
          ensures CellCount(g, dets[..i + 1], r, c) == CellCount(g, dets[..i], r, c)
        {
          NonPersonIgnored(g, dets[..i], d, r, c);
        }
        NonPersonIgnored(g, dets[..i], d, 0, 0);
      }
    }
    assert dets[..|dets|] == dets;
  }

  /** Emits the zones of the counted cells in row-major order and, zone by
      zone, raises alerts for zones entering Critical and clears zones that
      left it. */
  method EmitZones(counts: array2<nat>, t: Thresholds, prior: set<string>)
    returns (zones: seq<Zone>, alerted: set<string>, alerts: seq<Alert>)
    requires 1 <= counts.Length1
    ensures |zones| == counts.Length0 * counts.Length1
    ensures forall k | 0 <= k < |zones| :: zones[k] == MakeZone(k, CountAt(counts, k), t)
    ensures (alerted, alerts) == AlertStep(prior, zones)
  {
    var rows, cols := counts.Length0, counts.Length1;
    zones, alerted, alerts := [], prior, [];
    for row := 0 to rows
      invariant |zones| == row * cols <= rows * cols
      invariant forall k | 0 <= k < |zones| :: zones[k] == MakeZone(k, CountAt(counts, k), t)
      invariant (alerted, alerts) == AlertStep(prior, zones)
    {
      for col := 0 to cols
        invariant |zones| == row * cols + col < rows * cols + 1
        invariant forall k | 0 <= k < |zones| :: zones[k] == MakeZone(k, CountAt(counts, k), t)
        invariant (alerted, alerts) == AlertStep(prior, zones)
      {
        ghost var k := row * cols + col;
        FlatBound(row, col, rows, cols);
        RowMajor(row, col, cols);
        var zoneId := ZoneId(row * cols + col + 1);
        var zoneCount := counts[row, col];
        var level := Classify(zoneCount, t);
        assert Zone(zoneId, zoneCount, level) == MakeZone(k, CountAt(counts, k), t);
        ghost var before := zones;
        zones := zones + [Zone(zoneId, zoneCount, level)];
        assert zones[..|zones| - 1] == before;
        assert forall j | 0 <= j < |before| :: zones[j] == before[j];

        if level == Critical && zoneId !in alerted {
          alerted := alerted + {zoneId};
          alerts := alerts + [Alert(zoneId, zoneCount)];
        } else if level != Critical && zoneId in alerted {
          alerted := alerted - {zoneId};
        }
      }
      MulMonotone(row + 1, rows, cols);
      assert (row + 1) * cols == row * cols + cols;
    }
  }

  /** One frame's aggregation and alert update: the snapshot of the
      detections and the alert set and alerts that checking it produces. */
  method ProcessDetections(g: Grid, t: Thresholds, dets: seq<Detection>, prior: set<string>)
    returns (snapshot: Snapshot, alerted: set<string>, alerts: seq<Alert>)
    requires g.Valid() && AllOnScreen(dets)
    ensures snapshot == Aggregate(g, t, dets)
    ensures snapshot.total == TotalOf(snapshot.zones)
    ensures (alerted, alerts) == AlertStep(prior, snapshot.zones)
    ensures alerted == (prior - GridIds(g.rows * g.cols)) + CriticalIds(snapshot.zones)
    ensures alerts == Entering(prior, snapshot.zones)
  {
    var counts, total := CountZones(g, dets);
    var zones;
    zones, alerted, alerts := EmitZones(counts, t, prior);
    snapshot := Snapshot(total, zones);
    forall k | 0 <= k < |zones|
      ensures zones[k] == FrameZones(g, t, dets)[k]
    {
      FlatCell(k, g.rows, g.cols);
    }
    assert zones == FrameZones(g, t, dets);
    FrameTotal(g, t, dets);
    FrameZoneIds(g, t, dets);
    AlertStepSpec(prior, zones);
  }
}
