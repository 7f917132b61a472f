/** The stand-alone detection script: a fixed 3 by 3 grid, fixed thresholds
    3, 6 and 10, and a loop that processes frames until a read fails. The
    alert set lives for the whole run and starts empty. */
module YoloDetect {
  import opened Wrappers
  import opened Zones
  import opened Alerts
  import opened Aggregation

  const ROWS := 3
  const COLS := 3
  const THRESHOLDS := Thresholds(3, 6, 10)

  /** What a run leaves behind: the snapshot of every processed frame in
      order, every alert raised in order, and the final alert set. */
  datatype Run = Run(snapshots: seq<Snapshot>, alerts: seq<Alert>, alerted: set<string>)

  predicate Processable(frames: seq<Option<Frame>>) {
    forall i | 0 <= i < |frames| && frames[i].Some? :: frames[i].value.Fits(ROWS, COLS)
  }

  /** The snapshot of one frame on the script's grid. */
  function Snap(f: Frame): Snapshot
    requires f.Fits(ROWS, COLS)
  {
    Aggregate(f.GridOf(ROWS, COLS), THRESHOLDS, f.detections)
  }

  /** The run over `frames` starting from alert set `alerted`: frames are
      processed in order, and a failed read (`None`) ends the run. */
  function Session(alerted: set<string>, frames: seq<Option<Frame>>): Run
    requires Processable(frames)
    decreases |frames|
  {
    if frames == [] || frames[0].None? then Run([], [], alerted)
    else
      var snapshot := Snap(frames[0].value);
      var (next, raised) := AlertStep(alerted, snapshot.zones);
      var rest := Session(next, frames[1..]);
      Run([snapshot] + rest.snapshots, raised + rest.alerts, rest.alerted)
  }

  /** The script's main loop over the frames the source delivers. */
  method Detect(frames: seq<Option<Frame>>) returns (snapshots: seq<Snapshot>, alerts: seq<Alert>, alertedZones: set<string>)
    requires Processable(frames)
    ensures Run(snapshots, alerts, alertedZones) == Session({}, frames)
  {
    snapshots, alerts, alertedZones := [], [], {};
    var i := 0;
    while i < |frames|
      invariant 0 <= i <= |frames|
      invariant var rest := Session(alertedZones, frames[i..]);
        Session({}, frames) == Run(snapshots + rest.snapshots, alerts + rest.alerts, rest.alerted)
    {
      if frames[i].None? {
        break;
      }
      var frame := frames[i].value;
      var snapshot, alerted, raised := ProcessDetections(frame.GridOf(ROWS, COLS), THRESHOLDS, frame.detections, alertedZones);
      assert frames[i..][1..] == frames[i + 1..];
      snapshots, alerts, alertedZones := snapshots + [snapshot], alerts + raised, alerted;
      i := i + 1;
    }
  }

  // ---------------------------------------------------------------------
  // The script's fixed grid and thresholds

  /** 0 to 3 people is Low, 4 to 6 Medium, 7 to 10 High, 11 or more
      Critical. */
  lemma FixedLevels(count: nat)
    ensures Classify(count, THRESHOLDS) == Low <==> count <= 3
    ensures Classify(count, THRESHOLDS) == Medium <==> 4 <= count <= 6
    ensures Classify(count, THRESHOLDS) == High <==> 7 <= count <= 10
    ensures Classify(count, THRESHOLDS) == Critical <==> 11 <= count
  {
  }

  /** On the 3 by 3 grid a person detection adds one to cell
      `(min(cy // zone_h, 2), min(cx // zone_w, 2))` and to no other, where
      zone_h and zone_w are a third of the frame height and width. */
  lemma FixedGridCell(f: Frame, d: Detection, r: int, c: int)
    requires f.Fits(ROWS, COLS) && d.OnScreen() && d.IsPerson()
    ensures AllOnScreen(f.detections + [d])
    ensures CellCount(f.GridOf(ROWS, COLS), f.detections + [d], r, c)
         == CellCount(f.GridOf(ROWS, COLS), f.detections, r, c)
            + (if (r, c) == (Min(d.CentreY() / (f.height / 3), 2), Min(d.CentreX() / (f.width / 3), 2)) then 1 else 0)
  {
    PersonCounted(f.GridOf(ROWS, COLS), f.detections, d, r, c);
  }

  /** The script emits nine zones, `Z1` to `Z9` in row-major order, and its
      total is their sum. */
  lemma NineZones(f: Frame, k: int)
    requires f.Fits(ROWS, COLS) && 0 <= k < 9
    ensures |Snap(f).zones| == 9
    ensures Snap(f).zones[k].id == ZoneId(k + 1)
    ensures Snap(f).total == TotalOf(Snap(f).zones)
  {
    FrameTotal(f.GridOf(ROWS, COLS), THRESHOLDS, f.detections);
  }

  // ---------------------------------------------------------------------
  // Worked examples

  /** Every detection is a person in cell (r0, c0). */
  predicate AllInCell(g: Grid, dets: seq<Detection>, r0: int, c0: int)
    requires g.Valid() && AllOnScreen(dets)
  {
    forall i | 0 <= i < |dets| :: InCell(g, dets[i], r0, c0)
  }

  lemma {:induction false} OneCellCounts(g: Grid, dets: seq<Detection>, r0: int, c0: int, r: int, c: int)
    requires g.Valid() && AllOnScreen(dets) && AllInCell(g, dets, r0, c0)
    ensures CellCount(g, dets, r, c) == if (r, c) == (r0, c0) then |dets| else 0
    ensures Persons(dets) == |dets|
  {
    if dets != [] {
      OneCellCounts(g, dets[..|dets| - 1], r0, c0, r, c);
    }
  }

  /** A box whose centre (20, 20) lies in the top-left cell of a 1080 by 1920
      frame. */
  const PERSON_AT_TOP_LEFT := Detection(PERSON_CLASS, 10, 10, 30, 30)

  /** A 1080 by 1920 frame with `n` people, all in the top-left cell. */
  function Crowd(n: nat): (f: Frame)
    ensures f.Fits(ROWS, COLS)
    ensures AllInCell(f.GridOf(ROWS, COLS), f.detections, 0, 0)
  {
    Frame(1080, 1920, seq(n, _ => PERSON_AT_TOP_LEFT))
  }

  /** The zones of `Crowd(n)`: `Z1` holds all `n` people, the other eight
      zones none. */
  lemma CrowdZones(n: nat, k: int)
    requires 0 <= k < 9
    ensures Snap(Crowd(n)).total == n
    ensures Snap(Crowd(n)).zones[k]
         == if k == 0 then Zone("Z1", n, Classify(n, THRESHOLDS)) else Zone(ZoneId(k + 1), 0, Low)
  {
    var f := Crowd(n);
    var g := f.GridOf(ROWS, COLS);
    OneCellCounts(g, f.detections, 0, 0, k / 3, k % 3);
    assert Decimal.Render(1) == "1";
  }

  /** Alerts raised by `Crowd(n)` for a run whose alert set holds only grid
      zones: `Z1` is flagged exactly when `n` is at least 11, and one alert
      for it is raised exactly when it was not flagged before. */
  lemma CrowdAlerts(n: nat, prior: set<string>)
    requires prior <= GridIds(9)
    ensures AlertStep(prior, Snap(Crowd(n)).zones).0 == if 11 <= n then {"Z1"} else {}
    ensures AlertStep(prior, Snap(Crowd(n)).zones).1
         == if 11 <= n && "Z1" !in prior then [Alert("Z1", n)] else []
  {
    var f := Crowd(n);
    var zones := Snap(f).zones;
    forall k | 0 <= k < 9
      ensures zones[k] == if k == 0 then Zone("Z1", n, Classify(n, THRESHOLDS)) else Zone(ZoneId(k + 1), 0, Low)
    {
      CrowdZones(n, k);
    }
    FrameZoneIds(f.GridOf(ROWS, COLS), THRESHOLDS, f.detections);
    AlertStepSpec(prior, zones);
    if 11 <= n && "Z1" !in prior {
      SingleEntering(prior, zones, 0);
    } else if 11 <= n {
      SingleEntering({}, zones, 0);
      NothingEntering(prior, zones);
    } else {
      NoneCritical(prior, zones);
    }
  }

  /** Eleven people in the top-left cell: total 11, `Z1` is Critical with 11
      people, the other zones are empty and Low, and the first such frame
      raises exactly one alert, for `Z1`. */
  lemma ElevenInOneCell()
    ensures Snap(Crowd(11)).total == 11
    ensures Snap(Crowd(11)).zones[0] == Zone("Z1", 11, Critical)
    ensures forall k | 1 <= k < 9 :: Snap(Crowd(11)).zones[k] == Zone(ZoneId(k + 1), 0, Low)
    ensures Session({}, [Some(Crowd(11))]).alerts == [Alert("Z1", 11)]
  {
    forall k | 0 <= k < 9
      ensures Snap(Crowd(11)).zones[k]
           == if k == 0 then Zone("Z1", 11, Critical) else Zone(ZoneId(k + 1), 0, Low)
    {
      CrowdZones(11, k);
    }
    CrowdZones(11, 0);
    CrowdAlerts(11, {});
    assert [Some(Crowd(11))][1..] == [];
  }

  /** The same Critical frame twice raises one alert, not two. */
  lemma SameCriticalFrameTwice()
    ensures Session({}, [Some(Crowd(11)), Some(Crowd(11))]).alerts == [Alert("Z1", 11)]
  {
    var frames := [Some(Crowd(11)), Some(Crowd(11))];
    CrowdAlerts(11, {});
    assert {"Z1"} <= GridIds(9) by {
      assert ZoneId(1) == "Z1" by {
        assert Decimal.Render(1) == "1";
      }
    }
    CrowdAlerts(11, {"Z1"});
    assert frames[1..] == [Some(Crowd(11))];
    assert frames[1..][1..] == [];
  }

  /** Critical, then High, then Critical again raises two alerts, one per
      entry into Critical. */
  lemma CriticalHighCritical()
    ensures Session({}, [Some(Crowd(11)), Some(Crowd(8)), Some(Crowd(11))]).alerts
         == [Alert("Z1", 11), Alert("Z1", 11)]
  {
    var frames := [Some(Crowd(11)), Some(Crowd(8)), Some(Crowd(11))];
    CrowdAlerts(11, {});
    assert {"Z1"} <= GridIds(9) by {
      assert ZoneId(1) == "Z1" by {
        assert Decimal.Render(1) == "1";
      }
    }
    CrowdAlerts(8, {"Z1"});
    CrowdAlerts(11, {});
    assert frames[1..] == [Some(Crowd(8)), Some(Crowd(11))];
    assert frames[1..][1..] == [Some(Crowd(11))];
    assert frames[1..][1..][1..] == [];
  }

  // ---------------------------------------------------------------------
  // Properties of every run

  /** The run's alert set stays within the nine grid zones. Once a frame has
      been processed it is exactly the set of zones that are Critical in the
      latest snapshot; before that it is the starting set. */
  lemma {:induction false} SessionAlerted(alerted: set<string>, frames: seq<Option<Frame>>)
    requires Processable(frames) && alerted <= GridIds(9)
    ensures Session(alerted, frames).alerted <= GridIds(9)
    ensures Session(alerted, frames).snapshots == [] ==> Session(alerted, frames).alerted == alerted
    ensures var run := Session(alerted, frames);
      run.snapshots != [] ==> run.alerted == CriticalIds(run.snapshots[|run.snapshots| - 1].zones)
    decreases |frames|
  {
    if frames != [] && frames[0].Some? {
      var f := frames[0].value;
      var zones := Snap(f).zones;
      FrameZoneIds(f.GridOf(ROWS, COLS), THRESHOLDS, f.detections);
      AlertStepSpec(alerted, zones);
      CriticalWithin(zones);
      var next := AlertStep(alerted, zones).0;
      assert next == CriticalIds(zones);
      assert Processable(frames[1..]) by {
        forall i | 0 <= i < |frames[1..]| && frames[1..][i].Some?
          ensures frames[1..][i].value.Fits(ROWS, COLS)
        {
          assert frames[1..][i] == frames[i + 1];
        }
      }
      SessionAlerted(next, frames[1..]);
    }
  }

  /** A frame with no detections leaves every zone empty and Low, raises
      nothing, and empties an alert set that holds only grid zones, as every
      set a run reaches does (`SessionAlerted`). */
  lemma EmptyFrameClears(alerted: set<string>, f: Frame)
    requires f.Fits(ROWS, COLS) && f.detections == [] && alerted <= GridIds(9)
    ensures Session(alerted, [Some(f)]).alerted == {}
    ensures Session(alerted, [Some(f)]).alerts == []
    ensures forall k | 0 <= k < 9 :: Snap(f).zones[k] == Zone(ZoneId(k + 1), 0, Low)
  {
    var g := f.GridOf(ROWS, COLS);
    EmptyFrameAlerts(g, THRESHOLDS, alerted);
    forall k | 0 <= k < 9
      ensures Snap(f).zones[k] == Zone(ZoneId(k + 1), 0, Low)
    {
      EmptyFrame(g, THRESHOLDS, k);
    }
    assert [Some(f)][1..] == [];
  }
}
