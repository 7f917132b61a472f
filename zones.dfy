/** Zone aggregation of one frame: the grid laid over the frame, the cell a
    detection falls in, the per-cell person counts, the density level of a
    count and the row-major list of zones built from them. Everything here is
    a value; the loops that compute the same things in place are in module
    Aggregation. */
module Zones {
  import Decimal

  /** The detector's class id for "person". */
  const PERSON_CLASS := 0

  /** One detected object: class id and integer box corners. */
  datatype Detection = Detection(cls: int, x1: int, y1: int, x2: int, y2: int) {
    /** The detector reports boxes inside the frame, so no corner is negative. */
    predicate OnScreen() {
      0 <= x1 && 0 <= y1 && 0 <= x2 && 0 <= y2
    }

    predicate IsPerson() {
      cls == PERSON_CLASS
    }

    /** Centre of the box, by floor division as in `(x1 + x2) // 2`. */
    function CentreX(): int {
      (x1 + x2) / 2
    }

    function CentreY(): int {
      (y1 + y2) / 2
    }
  }

  predicate AllOnScreen(dets: seq<Detection>) {
    forall i | 0 <= i < |dets| :: dets[i].OnScreen()
  }

  /** A `rows` by `cols` grid laid over a `height` by `width` frame. */
  datatype Grid = Grid(rows: nat, cols: nat, height: nat, width: nat) {
    /** At least one row and column, and every cell at least one pixel high
        and wide, so that the cell size below is never zero. */
    predicate Valid() {
      1 <= rows <= height && 1 <= cols <= width
    }

    /** Cell height `height // rows`; the remainder goes to the last row. */
    function ZoneH(): (h: nat)
      requires Valid()
      ensures 1 <= h && h * rows <= height
    {
      DivLower(height, rows, 1);
      DivFloor(height, rows);
      height / rows
    }

    /** Cell width `width // cols`; the remainder goes to the last column. */
    function ZoneW(): (w: nat)
      requires Valid()
      ensures 1 <= w && w * cols <= width
    {
      DivLower(width, cols, 1);
      DivFloor(width, cols);
      width / cols
    }
  }

  function Min(a: int, b: int): int {
    if a < b then a else b
  }

  /** The strip of `size`-wide cells, numbered from 0 to `count - 1`, that owns
      coordinate `y`: strip `r` owns `[r * size, (r + 1) * size)`, and the last
      strip also owns everything past its end. */
  predicate StripOwns(r: int, size: int, count: int, y: int) {
    0 <= r < count && r * size <= y && (y < (r + 1) * size || r == count - 1)
  }

  /** The cell (row, column) of a detection: its centre divided by the cell
      size, each index clamped to the last row or column. */
  function CellOf(g: Grid, d: Detection): (cell: (nat, nat))
    requires g.Valid() && d.OnScreen()
    ensures cell.0 < g.rows && cell.1 < g.cols
  {
    var y, h := d.CentreY(), g.ZoneH();
    var x, w := d.CentreX(), g.ZoneW();
    DivLower(y, h, 0);
    DivLower(x, w, 0);
    (Min(y / h, g.rows - 1), Min(x / w, g.cols - 1))
  }

  // ---------------------------------------------------------------------
  // Arithmetic facts about floor division and row-major numbering

  lemma MulMonotone(a: int, b: int, s: int)
    requires a <= b && 0 <= s
    ensures a * s <= b * s
  {
    assert b * s - a * s == (b - a) * s;
  }

  lemma DivFloor(y: int, size: int)
    requires 1 <= size
    ensures (y / size) * size <= y < (y / size + 1) * size
  {
  }

  /** A multiple of `size` at most `y` is at most `y / size` of them. */
  lemma DivLower(y: int, size: int, r: int)
    requires 1 <= size && r * size <= y
    ensures r <= y / size
  {
    DivFloor(y, size);
    if r > y / size {
      MulMonotone(y / size + 1, r, size);
    }
  }

  /** If `y` lies below `(r + 1) * size`, then `y / size` is at most `r`. */
  lemma DivUpper(y: int, size: int, r: int)
    requires 1 <= size && y < (r + 1) * size
    ensures y / size <= r
  {
    DivFloor(y, size);
    if y / size > r {
      MulMonotone(r + 1, y / size, size);
    }
  }

  /** Clamped floor division picks exactly the strip that owns `y`. */
  lemma {:induction false} StripOfOwner(y: int, size: int, count: int, r: int)
    requires 0 <= y && 1 <= size && 1 <= count
    ensures Min(y / size, count - 1) == r <==> StripOwns(r, size, count, y)
  {
    var q := y / size;
    DivFloor(y, size);
    if Min(q, count - 1) == r {
      if q > count - 1 {
        MulMonotone(count - 1, q, size);
      }
      assert StripOwns(r, size, count, y);
    }
    if StripOwns(r, size, count, y) {
      DivLower(y, size, r);
      if r != count - 1 {
        DivUpper(y, size, r);
      }
    }
  }

  /** Position `r * cols + c` of a row-major numbering is row `r`, column `c`. */
  lemma RowMajor(r: int, c: int, cols: int)
    requires 0 <= r && 0 <= c < cols
    ensures (r * cols + c) / cols == r && (r * cols + c) % cols == c
  {
    var k := r * cols + c;
    assert r * cols <= k && k < (r + 1) * cols;
    DivLower(k, cols, r);
    DivUpper(k, cols, r);
  }

  /** Row-major positions of a `rows` by `cols` grid are below `rows * cols`. */
  lemma FlatBound(r: int, c: int, rows: int, cols: int)
    requires 0 <= r < rows && 0 <= c < cols
    ensures 0 <= r * cols + c < rows * cols
  {
    MulMonotone(r + 1, rows, cols);
  }

  /** Every position below `rows * cols` is some row and column of the grid. */
  lemma FlatCell(k: int, rows: int, cols: int)
    requires 0 <= k < rows * cols && 1 <= cols
    ensures 0 <= k / cols < rows && 0 <= k % cols < cols
    ensures k == (k / cols) * cols + k % cols
  {
    DivFloor(k, cols);
    if k / cols >= rows {
      MulMonotone(rows, k / cols, cols);
    }
  }

  // ---------------------------------------------------------------------
  // Where a detection's centre lands

  /** The row of a detection is the strip of cell height that owns its centre
      (the last row also owning the remainder), and no other; likewise the
      column. */
  lemma {:induction false} CellOfOwns(g: Grid, d: Detection, r: int, c: int)
    requires g.Valid() && d.OnScreen()
    ensures CellOf(g, d).0 == r <==> StripOwns(r, g.ZoneH(), g.rows, d.CentreY())
    ensures CellOf(g, d).1 == c <==> StripOwns(c, g.ZoneW(), g.cols, d.CentreX())
  {
    StripOfOwner(d.CentreY(), g.ZoneH(), g.rows, r);
    StripOfOwner(d.CentreX(), g.ZoneW(), g.cols, c);
  }

  /** A centre lying exactly on the boundary `k * ZoneH()` between rows `k - 1`
      and `k` is in row `k`, the one that starts there; likewise columns. */
  lemma {:induction false} BoundaryCell(g: Grid, d: Detection, k: int, j: int)
    requires g.Valid() && d.OnScreen()
    requires 0 <= k < g.rows && 0 <= j < g.cols
    ensures d.CentreY() == k * g.ZoneH() ==> CellOf(g, d).0 == k
    ensures d.CentreX() == j * g.ZoneW() ==> CellOf(g, d).1 == j
  {
    CellOfOwns(g, d, k, j);
  }

  // ---------------------------------------------------------------------
  // Density levels

  datatype Level = Low | Medium | High | Critical {
    /** Severity order of the levels. */
    function Rank(): nat {
      match this
      case Low => 0
      case Medium => 1
      case High => 2
      case Critical => 3
    }
  }

  /** The three ordered thresholds `low`, `medium`, `high`. */
  datatype Thresholds = Thresholds(low: int, medium: int, high: int) {
    predicate Ordered() {
      low <= medium <= high
    }
  }

  /** A count at most `low` is Low, at most `medium` Medium, at most `high`
      High and anything above Critical. */
  function Classify(count: int, t: Thresholds): Level {
    if count <= t.low then Low
    else if count <= t.medium then Medium
    else if count <= t.high then High
    else Critical
  }

  /** How many of the three thresholds a count is above. */
  function Exceeded(count: int, t: Thresholds): nat {
    (if count > t.low then 1 else 0) + (if count > t.medium then 1 else 0) + (if count > t.high then 1 else 0)
  }

  /** With ordered thresholds, the level's rank is the number of thresholds
      the count exceeds. */
  lemma ClassifyRank(count: int, t: Thresholds)
    requires t.Ordered()
    ensures Classify(count, t).Rank() == Exceeded(count, t)
  {
  }

  /** With ordered thresholds, raising a count never lowers its level. */
  lemma ClassifyMonotone(a: int, b: int, t: Thresholds)
    requires t.Ordered() && a <= b
    ensures Classify(a, t).Rank() <= Classify(b, t).Rank()
  {
    ClassifyRank(a, t);
    ClassifyRank(b, t);
  }

  /** Whatever the thresholds, a count is Critical exactly when it is above
      all three. */
  lemma CriticalIff(count: int, t: Thresholds)
    ensures Classify(count, t) == Critical <==> count > t.low && count > t.medium && count > t.high
  {
  }

  // ---------------------------------------------------------------------
  // Zones

  /** Zone identifier `Z{n}`. */
  function ZoneId(n: nat): string {
    "Z" + Decimal.Render(n)
  }

  lemma ZoneIdInjective(a: nat, b: nat)
    ensures ZoneId(a) == ZoneId(b) <==> a == b
  {
    if ZoneId(a) == ZoneId(b) {
      assert ZoneId(a)[1..] == Decimal.Render(a);
      assert ZoneId(b)[1..] == Decimal.Render(b);
      Decimal.RenderInjective(a, b);
    }
  }

  datatype Zone = Zone(id: string, count: nat, level: Level)

  /** The zone at row-major position `k` (0-based) with the given count. */
  function MakeZone(k: nat, count: nat, t: Thresholds): Zone {
    Zone(ZoneId(k + 1), count, Classify(count, t))
  }

  predicate DistinctIds(zones: seq<Zone>) {
    forall i, j | 0 <= i < j < |zones| :: zones[i].id != zones[j].id
  }

  function Ids(zones: seq<Zone>): set<string> {
    set z | z in zones :: z.id
  }

  function CriticalIds(zones: seq<Zone>): set<string> {
    set z | z in zones && z.level == Critical :: z.id
  }

  /** Identifiers of the `n` zones of a grid: `Z1` to `Z{n}`. */
  function GridIds(n: nat): set<string> {
    set k: nat | 1 <= k <= n :: ZoneId(k)
  }

  /** Sum of the zone counts. */
  function TotalOf(zones: seq<Zone>): nat {
    if zones == [] then 0 else TotalOf(zones[..|zones| - 1]) + zones[|zones| - 1].count
  }

  // ---------------------------------------------------------------------
  // Counting a frame's detections

  /** The detection is a person whose centre lies in cell (r, c). */
  predicate InCell(g: Grid, d: Detection, r: int, c: int)
    requires g.Valid() && d.OnScreen()
  {
    d.IsPerson() && CellOf(g, d) == (r, c)
  }

  /** Number of person detections. */
  function Persons(dets: seq<Detection>): nat {
    if dets == [] then 0
    else Persons(dets[..|dets| - 1]) + (if dets[|dets| - 1].IsPerson() then 1 else 0)
  }

  /** Number of person detections whose centre lies in cell (r, c). */
  function CellCount(g: Grid, dets: seq<Detection>, r: int, c: int): nat
    requires g.Valid() && AllOnScreen(dets)
  {
    if dets == [] then 0
    else
      CellCount(g, dets[..|dets| - 1], r, c) + (if InCell(g, dets[|dets| - 1], r, c) then 1 else 0)
  }

  /** The zones of a frame in row-major order, each with its cell's count and
      level. */
  function FrameZones(g: Grid, t: Thresholds, dets: seq<Detection>): (zones: seq<Zone>)
    requires g.Valid() && AllOnScreen(dets)
    ensures |zones| == g.rows * g.cols
  {
    seq(g.rows * g.cols, k requires 0 <= k < g.rows * g.cols =>
      MakeZone(k, CellCount(g, dets, k / g.cols, k % g.cols), t))
  }

  /** The aggregation result of one frame: people in total and the zones. */
  datatype Snapshot = Snapshot(total: nat, zones: seq<Zone>)

  function Aggregate(g: Grid, t: Thresholds, dets: seq<Detection>): Snapshot
    requires g.Valid() && AllOnScreen(dets)
  {
    Snapshot(Persons(dets), FrameZones(g, t, dets))
  }

  // ---------------------------------------------------------------------
  // Properties of the aggregation

  /** Zone `Z{r * cols + c + 1}`, at position `r * cols + c`, carries the count
      of cell (r, c) and its level. */
  lemma {:induction false} FrameZoneAt(g: Grid, t: Thresholds, dets: seq<Detection>, r: int, c: int)
    requires g.Valid() && AllOnScreen(dets)
    requires 0 <= r < g.rows && 0 <= c < g.cols
    ensures 0 <= r * g.cols + c < |FrameZones(g, t, dets)|
    ensures FrameZones(g, t, dets)[r * g.cols + c]
         == Zone(ZoneId(r * g.cols + c + 1), CellCount(g, dets, r, c), Classify(CellCount(g, dets, r, c), t))
  {
    FlatBound(r, c, g.rows, g.cols);
    RowMajor(r, c, g.cols);
  }

  /** A detection that is not a person changes no cell count. */
  lemma NonPersonIgnored(g: Grid, dets: seq<Detection>, d: Detection, r: int, c: int)
    requires g.Valid() && AllOnScreen(dets) && d.OnScreen() && !d.IsPerson()
    ensures AllOnScreen(dets + [d])
    ensures CellCount(g, dets + [d], r, c) == CellCount(g, dets, r, c)
    ensures Persons(dets + [d]) == Persons(dets)
  {
    assert (dets + [d])[..|dets|] == dets;
  }

  /** A person detection adds one to its own cell's count and to no other. */
  lemma PersonCounted(g: Grid, dets: seq<Detection>, d: Detection, r: int, c: int)
    requires g.Valid() && AllOnScreen(dets) && d.OnScreen() && d.IsPerson()
    ensures AllOnScreen(dets + [d])
    ensures CellCount(g, dets + [d], r, c)
         == CellCount(g, dets, r, c) + (if CellOf(g, d) == (r, c) then 1 else 0)
    ensures Persons(dets + [d]) == Persons(dets) + 1
  {
    assert (dets + [d])[..|dets|] == dets;
  }

  lemma {:induction false} TotalOfZero(zones: seq<Zone>)
    requires forall i | 0 <= i < |zones| :: zones[i].count == 0
    ensures TotalOf(zones) == 0
  {
    if zones != [] {
      TotalOfZero(zones[..|zones| - 1]);
    }
  }

  /** Zone lists whose counts agree except at position `k`, where `a` has
      `delta` more, have totals `delta` apart. */
  lemma {:induction false} TotalOfBump(a: seq<Zone>, b: seq<Zone>, k: int, delta: nat)
    requires |a| == |b|
    requires forall i | 0 <= i < |a| && i != k :: a[i].count == b[i].count
    requires 0 <= k < |a| ==> a[k].count == b[k].count + delta
    requires !(0 <= k < |a|) ==> delta == 0
    ensures TotalOf(a) == TotalOf(b) + delta
  {
    if a != [] {
      var n := |a| - 1;
      if k == n {
        TotalOfBump(a[..n], b[..n], -1, 0);
      } else {
        TotalOfBump(a[..n], b[..n], k, delta);
      }
    }
  }

  /** The frame total equals the sum of the zone counts: every person
      detection is counted in exactly one cell. */
  lemma {:induction false} FrameTotal(g: Grid, t: Thresholds, dets: seq<Detection>)
    requires g.Valid() && AllOnScreen(dets)
    ensures TotalOf(FrameZones(g, t, dets)) == Persons(dets)
  {
    if dets == [] {
      TotalOfZero(FrameZones(g, t, dets));
    } else {
      var n := |dets| - 1;
      var rest, d := dets[..n], dets[n];
      assert dets == rest + [d];
      FrameTotal(g, t, rest);
      var a, b := FrameZones(g, t, dets), FrameZones(g, t, rest);
      var (r, c) := CellOf(g, d);
      var k := r * g.cols + c;
      FlatBound(r, c, g.rows, g.cols);
      RowMajor(r, c, g.cols);
      forall i | 0 <= i < |a| && i != k
        ensures a[i].count == b[i].count
      {
        FlatCell(i, g.rows, g.cols);
        assert (i / g.cols, i % g.cols) != (r, c);
      }
      TotalOfBump(a, b, k, if d.IsPerson() then 1 else 0);
    }
  }

  /** With no detections every zone is empty and, when `low` is not negative,
      Low. */
  lemma EmptyFrame(g: Grid, t: Thresholds, k: int)
    requires g.Valid() && 0 <= t.low
    requires 0 <= k < g.rows * g.cols
    ensures FrameZones(g, t, [])[k] == Zone(ZoneId(k + 1), 0, Low)
    ensures Persons([]) == 0 && TotalOf(FrameZones(g, t, [])) == 0
  {
    FrameTotal(g, t, []);
  }

  /** The zones of a frame are `Z1` to `Z{rows * cols}`, each exactly once. */
  lemma {:induction false} FrameZoneIds(g: Grid, t: Thresholds, dets: seq<Detection>)
    requires g.Valid() && AllOnScreen(dets)
    ensures DistinctIds(FrameZones(g, t, dets))
    ensures Ids(FrameZones(g, t, dets)) == GridIds(g.rows * g.cols)
  {
    var zones := FrameZones(g, t, dets);
    forall i, j | 0 <= i < j < |zones|
      ensures zones[i].id != zones[j].id
    {
      ZoneIdInjective(i + 1, j + 1);
    }
    forall id | id in Ids(zones)
      ensures id in GridIds(g.rows * g.cols)
    {
      var i :| 0 <= i < |zones| && zones[i].id == id;
      assert id == ZoneId(i + 1);
    }
    forall id | id in GridIds(g.rows * g.cols)
      ensures id in Ids(zones)
    {
      var k: nat :| 1 <= k <= g.rows * g.cols && id == ZoneId(k);
      assert zones[k - 1].id == id;
    }
  }
}
