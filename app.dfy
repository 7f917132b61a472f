/** The web service's frame processing. The service keeps its configuration,
    the latest zone snapshot and the set of alerted zones in process-wide
    state; here that state is one `Monitor` object, and processing a frame
    updates it in place. */
module App {
  import opened Wrappers
  import opened Zones
  import opened Alerts
  import opened Aggregation

  /** The settings the frame processing reads: grid shape and thresholds. */
  datatype Config = Config(rows: nat, cols: nat, thresholds: Thresholds) {
    predicate Valid() {
      1 <= rows && 1 <= cols
    }
  }

  /** The built-in settings used when no configuration file is found: a
      3 by 3 grid and thresholds 3, 6 and 10. */
  function DefaultConfig(): (c: Config)
    ensures c.Valid() && c.thresholds.Ordered()
  {
    Config(3, 3, Thresholds(3, 6, 10))
  }

  class Monitor {
    const config: Config
    /** The latest snapshot, served to readers until the next frame. */
    var currentZoneData: Snapshot
    /** Zones that have already raised an alert for their current stay in
        Critical. */
    var alertedZones: set<string>

    /** The alert set is exactly the set of zones that are Critical in the
        latest snapshot, and the snapshot only holds zones of the grid. */
    ghost predicate Valid()
      reads this
    {
      && config.Valid()
      && alertedZones == CriticalIds(currentZoneData.zones)
      && Ids(currentZoneData.zones) <= GridIds(config.rows * config.cols)
    }

    /** Start-up state: an empty snapshot and nothing alerted. */
    constructor (config: Config)
      requires config.Valid()
      ensures Valid()
      ensures this.config == config
      ensures currentZoneData == Snapshot(0, []) && alertedZones == {}
    {
      this.config := config;
      currentZoneData := Snapshot(0, []);
      alertedZones := {};
    }

    /** Processes one frame. `None` stands for no frame: the camera is not
        active or not open, or reading from it failed; then nothing changes.
        Otherwise the frame's detections are aggregated into a new snapshot,
        which replaces the current one, and the alert set is updated zone by
        zone. Returns the snapshot and the alerts raised. */
    method ProcessFrame(frame: Option<Frame>) returns (data: Option<Snapshot>, alerts: seq<Alert>)
      requires Valid()
      requires frame.Some? ==> frame.value.Fits(config.rows, config.cols)
      modifies this
      ensures Valid()
      ensures frame.None? ==> data == None && alerts == []
      ensures frame.None? ==> currentZoneData == old(currentZoneData) && alertedZones == old(alertedZones)
      ensures frame.Some? ==>
        var f := frame.value;
        && data == Some(currentZoneData)
        && currentZoneData == Aggregate(f.GridOf(config.rows, config.cols), config.thresholds, f.detections)
        && (alertedZones, alerts) == AlertStep(old(alertedZones), currentZoneData.zones)
        && alerts == Entering(old(alertedZones), currentZoneData.zones)
    {
      if frame.None? {
        return None, [];
      }
      var f := frame.value;
      var g := f.GridOf(config.rows, config.cols);
      CriticalWithin(currentZoneData.zones);
      var snapshot, alerted;
      snapshot, alerted, alerts := ProcessDetections(g, config.thresholds, f.detections, alertedZones);
      FrameZoneIds(g, config.thresholds, f.detections);
      assert alertedZones - GridIds(config.rows * config.cols) == {};
      alertedZones := alerted;
      currentZoneData := snapshot;
      data := Some(snapshot);
    }
  }
}
