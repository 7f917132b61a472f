/** Edge-triggered alerting on Critical zones. The alert state is the set of
    zone identifiers already alerted. Checking a frame's zones in order, a
    Critical zone that is not in the set raises one alert and joins it, a
    Critical zone already in it raises nothing, and a zone that is not
    Critical leaves the set silently. */
module Alerts {
  import opened Zones

  /** One alert: the zone that entered Critical and its count at that moment. */
  datatype Alert = Alert(zone: string, count: nat)

  /** The alert set after checking `zones` in order, starting from `prior`,
      and the alerts raised on the way. */
  function AlertStep(prior: set<string>, zones: seq<Zone>): (set<string>, seq<Alert>) {
    if zones == [] then (prior, [])
    else
      var (alerted, alerts) := AlertStep(prior, zones[..|zones| - 1]);
      var z := zones[|zones| - 1];
      if z.level == Critical && z.id !in alerted then
        (alerted + {z.id}, alerts + [Alert(z.id, z.count)])
      else if z.level != Critical && z.id in alerted then
        (alerted - {z.id}, alerts)
      else
        (alerted, alerts)
  }

  /** Reference definition of the alerts due: one per Critical zone that was
      not flagged before, in zone order. */
  function Entering(prior: set<string>, zones: seq<Zone>): seq<Alert> {
    if zones == [] then []
    else
      var z := zones[|zones| - 1];
      Entering(prior, zones[..|zones| - 1])
        + (if z.level == Critical && z.id !in prior then [Alert(z.id, z.count)] else [])
  }

  lemma IdsOfLast(zones: seq<Zone>)
    requires zones != []
    ensures Ids(zones) == Ids(zones[..|zones| - 1]) + {zones[|zones| - 1].id}
    ensures CriticalIds(zones) == CriticalIds(zones[..|zones| - 1])
              + (if zones[|zones| - 1].level == Critical then {zones[|zones| - 1].id} else {})
  {
    var n := |zones| - 1;
    assert zones == zones[..n] + [zones[n]];
    forall id | id in Ids(zones)
      ensures id in Ids(zones[..n]) + {zones[n].id}
    {
      var z :| z in zones && z.id == id;
      var i :| 0 <= i < |zones| && zones[i] == z;
      if i < n {
        assert zones[..n][i] == z;
      }
    }
    forall id | id in CriticalIds(zones)
      ensures id in CriticalIds(zones[..n]) + (if zones[n].level == Critical then {zones[n].id} else {})
    {
      var z :| z in zones && z.level == Critical && z.id == id;
      var i :| 0 <= i < |zones| && zones[i] == z;
      if i < n {
        assert zones[..n][i] == z;
      }
    }
  }

  lemma CriticalWithin(zones: seq<Zone>)
    ensures CriticalIds(zones) <= Ids(zones)
  {
    forall id | id in CriticalIds(zones)
      ensures id in Ids(zones)
    {
      var z :| z in zones && z.level == Critical && z.id == id;
    }
  }

  /** With distinct zone identifiers, the new alert set is the prior set with
      every checked zone removed and every Critical zone put back, and the
      alerts raised are exactly those of the reference definition. */
  lemma {:induction false} AlertStepSpec(prior: set<string>, zones: seq<Zone>)
    requires DistinctIds(zones)
    ensures AlertStep(prior, zones).0 == (prior - Ids(zones)) + CriticalIds(zones)
    ensures AlertStep(prior, zones).1 == Entering(prior, zones)
  {
    if zones != [] {
      var n := |zones| - 1;
      var front, z := zones[..n], zones[n];
      AlertStepSpec(prior, front);
      IdsOfLast(zones);
      assert z.id !in Ids(front);
      assert CriticalIds(front) <= Ids(front);
      var alerted := AlertStep(prior, front).0;
      assert z.id in alerted <==> z.id in prior;
    }
  }

  /** After the step, a checked zone is in the alert set exactly when it is
      Critical. */
  lemma AlertedIffCritical(prior: set<string>, zones: seq<Zone>, i: int)
    requires DistinctIds(zones) && 0 <= i < |zones|
    ensures zones[i].id in AlertStep(prior, zones).0 <==> zones[i].level == Critical
  {
    AlertStepSpec(prior, zones);
    if zones[i].id in CriticalIds(zones) {
      var z :| z in zones && z.level == Critical && z.id == zones[i].id;
      var j :| 0 <= j < |zones| && zones[j] == z;
      assert i == j;
    }
  }

  /** An alert is raised for a zone and count exactly when a Critical zone
      with that identifier and count was checked and was not flagged before. */
  lemma {:induction false} EnteringIff(prior: set<string>, zones: seq<Zone>, a: Alert)
    ensures a in Entering(prior, zones)
        <==> exists i | 0 <= i < |zones| :: zones[i] == Zone(a.zone, a.count, Critical) && a.zone !in prior
  {
    if zones != [] {
      var n := |zones| - 1;
      EnteringIff(prior, zones[..n], a);
      if a in Entering(prior, zones[..n]) {
        var i :| 0 <= i < n && zones[..n][i] == Zone(a.zone, a.count, Critical) && a.zone !in prior;
        assert zones[i] == zones[..n][i];
      }
      if exists i | 0 <= i < |zones| :: zones[i] == Zone(a.zone, a.count, Critical) && a.zone !in prior {
        var i :| 0 <= i < |zones| && zones[i] == Zone(a.zone, a.count, Critical) && a.zone !in prior;
        if i < n {
          assert zones[..n][i] == zones[i];
        }
      }
    }
  }

  /** No alerts are due when every Critical zone is already flagged. */
  lemma {:induction false} NothingEntering(prior: set<string>, zones: seq<Zone>)
    requires CriticalIds(zones) <= prior
    ensures Entering(prior, zones) == []
  {
    if zones != [] {
      IdsOfLast(zones);
      NothingEntering(prior, zones[..|zones| - 1]);
    }
  }

  /** Edge triggering: checking the same zones again right away raises no
      alert and leaves the alert set as it is. */
  lemma RepeatIsQuiet(prior: set<string>, zones: seq<Zone>)
    requires DistinctIds(zones)
    ensures AlertStep(AlertStep(prior, zones).0, zones) == (AlertStep(prior, zones).0, [])
  {
    var alerted := AlertStep(prior, zones).0;
    AlertStepSpec(prior, zones);
    AlertStepSpec(alerted, zones);
    CriticalWithin(zones);
    assert alerted - Ids(zones) == prior - Ids(zones);
    NothingEntering(alerted, zones);
  }

  /** A zone that stays Critical from one frame to the next raises no second
      alert. */
  lemma SustainedCriticalIsQuiet(prior: set<string>, first: seq<Zone>, second: seq<Zone>, id: string)
    requires DistinctIds(first) && DistinctIds(second)
    requires id in CriticalIds(first)
    ensures forall a | a in AlertStep(AlertStep(prior, first).0, second).1 :: a.zone != id
  {
    var alerted := AlertStep(prior, first).0;
    AlertStepSpec(prior, first);
    AlertStepSpec(alerted, second);
    forall a | a in Entering(alerted, second)
      ensures a.zone != id
    {
      EnteringIff(alerted, second, a);
    }
  }

  /** A zone that left Critical in one frame and is Critical again in the next
      raises a fresh alert with its new count. */
  lemma ReentryAlerts(prior: set<string>, first: seq<Zone>, second: seq<Zone>, i: int, j: int)
    requires DistinctIds(first) && DistinctIds(second)
    requires 0 <= i < |first| && first[i].level != Critical
    requires 0 <= j < |second| && second[j].level == Critical && second[j].id == first[i].id
    ensures Alert(second[j].id, second[j].count) in AlertStep(AlertStep(prior, first).0, second).1
  {
    var alerted := AlertStep(prior, first).0;
    AlertedIffCritical(prior, first, i);
    AlertStepSpec(alerted, second);
    EnteringIff(alerted, second, Alert(second[j].id, second[j].count));
  }

  /** No alerts are due when no zone is Critical. */
  lemma {:induction false} NoneCritical(prior: set<string>, zones: seq<Zone>)
    requires forall i | 0 <= i < |zones| :: zones[i].level != Critical
    ensures Entering(prior, zones) == [] && CriticalIds(zones) == {}
  {
    if zones != [] {
      IdsOfLast(zones);
      NoneCritical(prior, zones[..|zones| - 1]);
    }
  }

  /** When the only Critical zone is zone `j` and it was not flagged, exactly
      one alert is due, for zone `j`. */
  lemma {:induction false} SingleEntering(prior: set<string>, zones: seq<Zone>, j: int)
    requires 0 <= j < |zones| && zones[j].level == Critical && zones[j].id !in prior
    requires forall i | 0 <= i < |zones| && i != j :: zones[i].level != Critical
    ensures Entering(prior, zones) == [Alert(zones[j].id, zones[j].count)]
    ensures CriticalIds(zones) == {zones[j].id}
  {
    var n := |zones| - 1;
    IdsOfLast(zones);
    if j == n {
      NoneCritical(prior, zones[..n]);
    } else {
      SingleEntering(prior, zones[..n], j);
    }
  }

  /** A frame with no detections clears every grid zone from the alert set,
      whatever was flagged before, and raises nothing. */
  lemma EmptyFrameAlerts(g: Grid, t: Thresholds, prior: set<string>)
    requires g.Valid() && 0 <= t.low
    ensures AlertStep(prior, FrameZones(g, t, [])) == (prior - GridIds(g.rows * g.cols), [])
  {
    var zones := FrameZones(g, t, []);
    forall i | 0 <= i < |zones|
      ensures zones[i].level != Critical
    {
      EmptyFrame(g, t, i);
    }
    NoneCritical(prior, zones);
    FrameZoneIds(g, t, []);
    AlertStepSpec(prior, zones);
    var r := AlertStep(prior, zones);
    assert r.0 == prior - GridIds(g.rows * g.cols);
    assert r.1 == [];
  }
}
