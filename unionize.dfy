/**
 * Unionized measurement tables of the Allen connectivity atlas, the
 * injection-hemisphere rule and the trimmed per-experiment record that the
 * ipsilateral / contralateral separation builds.
 */
module Unionize {
  import opened Collections

  type StructureId = int
  type ExperimentId = int

  /** The named projection metrics of a unionize row, any of which the
      configuration may choose as `projection_metric` or as
      `metric_for_projection_thresholding`. */
  datatype Metric =
    | ProjectionDensity
    | ProjectionEnergy
    | ProjectionIntensity
    | ProjectionVolume
    | NormalizedProjectionVolume

  datatype Metrics = Metrics(
    projectionDensity: real,
    projectionEnergy: real,
    projectionIntensity: real,
    projectionVolume: real,
    normalizedProjectionVolume: real)

  /** The column `m` of a row (`row[metric_name]`). */
  function MetricValue(ms: Metrics, m: Metric): real
  {
    match m
    case ProjectionDensity => ms.projectionDensity
    case ProjectionEnergy => ms.projectionEnergy
    case ProjectionIntensity => ms.projectionIntensity
    case ProjectionVolume => ms.projectionVolume
    case NormalizedProjectionVolume => ms.normalizedProjectionVolume
  }

  /** One row of a unionized table: one structure in one hemisphere. */
  datatype Row = Row(
    structureId: StructureId,
    hemisphereId: int,
    volume: real,
    maxVoxelX: int,
    maxVoxelY: int,
    maxVoxelZ: int,
    metrics: Metrics)

  type Table = seq<Row>

  /** A hemisphere the configuration can select: 1 (left) or 2 (right). */
  type Side = h: int | h == 1 || h == 2 witness 1

  /** `[2, 1][h - 1]`: the hemisphere opposite to a selected one. */
  function Opposite(h: Side): (o: Side)
    ensures o != h
    ensures o == 1 || o == 2
  {
    [2, 1][h - 1]
  }

  lemma OppositeInvolution(h: Side)
    ensures Opposite(Opposite(h)) == h
  {
  }

  // ---------------------------------------------------------------------
  // Row selections (`df[df['structure_id'] == s]` and friends)

  function AtStructure(s: StructureId): Row -> bool
  {
    (r: Row) => r.structureId == s
  }

  function InHemisphere(h: int): Row -> bool
  {
    (r: Row) => r.hemisphereId == h
  }

  /** `(df['hemisphere_id'] == h) & (df['structure_id'] == s)`. */
  function AtStructureIn(s: StructureId, h: int): Row -> bool
  {
    And(AtStructure(s), InHemisphere(h))
  }

  // ---------------------------------------------------------------------
  // Injection hemisphere (`get_hemisphere_from_z_coordinate`)

  /** The z coordinate (in atlas units) that separates hemisphere 1 from 2. */
  const HemisphereBoundaryZ: int := 5700

  /** pandas `idxmax` on the volume column: the first row of largest volume. */
  function ArgMaxVolume(rows: Table): (k: nat)
    requires rows != []
    ensures k < |rows|
    ensures forall j :: 0 <= j < |rows| ==> rows[j].volume <= rows[k].volume
    ensures forall j :: 0 <= j < k ==> rows[j].volume < rows[k].volume
    decreases |rows|
  {
    if |rows| == 1 then 0
    else
      var k := ArgMaxVolume(rows[..|rows| - 1]);
      if rows[|rows| - 1].volume > rows[k].volume then |rows| - 1 else k
  }

  /** `max_voxel_z.unique()` has exactly one value. */
  predicate SingleZ(rows: Table)
    requires rows != []
  {
    forall i :: 0 <= i < |rows| ==> rows[i].maxVoxelZ == rows[0].maxVoxelZ
  }

  /** The z coordinate the rule looks at: the only distinct one, or else the
      z of the row with the largest volume. */
  function ChosenZ(rows: Table): int
    requires rows != []
  {
    if SingleZ(rows) then rows[0].maxVoxelZ else rows[ArgMaxVolume(rows)].maxVoxelZ
  }

  /** 0 when there are no rows (a frame that keeps its columns), else 1
      when the chosen z is below the boundary and 2 when it is at or beyond
      it. */
  function HemisphereFromZ(rows: Table): (h: int)
    ensures 0 <= h <= 2
    ensures h == 0 <==> rows == []
  {
    if rows == [] then 0
    else if ChosenZ(rows) < HemisphereBoundaryZ then 1
    else 2
  }

  /** The rule in one line: the hemisphere is decided by the z coordinate of
      the first row of maximal volume, whether or not the z values differ. */
  lemma HemisphereRule(rows: Table)
    requires rows != []
    ensures ChosenZ(rows) == rows[ArgMaxVolume(rows)].maxVoxelZ
    ensures HemisphereFromZ(rows) == if rows[ArgMaxVolume(rows)].maxVoxelZ < HemisphereBoundaryZ then 1 else 2
    ensures SingleZ(rows) ==> HemisphereFromZ(rows) == if rows[0].maxVoxelZ < HemisphereBoundaryZ then 1 else 2
  {
    var k := ArgMaxVolume(rows);
    if SingleZ(rows) {
      assert rows[k].maxVoxelZ == rows[0].maxVoxelZ;
    }
  }

  /** The boundary itself belongs to hemisphere 2. */
  lemma HemisphereBoundary(rows: Table)
    requires rows != [] && ChosenZ(rows) == HemisphereBoundaryZ
    ensures HemisphereFromZ(rows) == 2
  {
  }

  /** `check_hemisphere`: the rule applied to the injection-only rows of an
      experiment at one structure, as the remote query returns them.  An
      empty answer becomes a frame without columns, on which the rule fails
      to find `max_voxel_z`; that failure is None. */
  function CheckHemisphere(query: (ExperimentId, StructureId) -> Table, e: ExperimentId, s: StructureId): (h: Option<int>)
    ensures h.None? <==> query(e, s) == []
    ensures h.Some? ==> h.value == 1 || h.value == 2
    ensures h.Some? ==> (h.value == 1 <==> ChosenZ(query(e, s)) < HemisphereBoundaryZ)
  {
    if query(e, s) == [] then None else Some(HemisphereFromZ(query(e, s)))
  }

  /** `get_vol_from_downloaded_unionized_data`: the volume of the single row
      whose hemisphere is the derived injection hemisphere; None when there
      is no such row or more than one. */
  function InjectionVolume(rows: Table): (v: Option<real>)
    ensures rows == [] ==> v.None?
    ensures v.Some? <==> |Filter(InHemisphere(HemisphereFromZ(rows)), rows)| == 1
    ensures v.Some? ==> exists i :: 0 <= i < |rows| && rows[i].hemisphereId == HemisphereFromZ(rows) && rows[i].volume == v.value
  {
    var h := HemisphereFromZ(rows);
    match Item(Filter(InHemisphere(h), rows))
    case Some(r) => Some(r.volume)
    case None => None
  }

  /** The metric `m` of the single row at structure `s` in hemisphere `h`
      (`df[(hemisphere_id == h) & (structure_id == s)][m].item()`). */
  function ValueAt(t: Table, s: StructureId, h: int, m: Metric): (v: Option<real>)
    ensures v.Some? <==> |Filter(AtStructureIn(s, h), t)| == 1
    ensures v.Some? ==> exists i :: 0 <= i < |t| && t[i].structureId == s && t[i].hemisphereId == h && MetricValue(t[i].metrics, m) == v.value
  {
    match Item(Filter(AtStructureIn(s, h), t))
    case Some(r) => Some(MetricValue(r.metrics, m))
    case None => None
  }

  // ---------------------------------------------------------------------
  // The trimmed record: the area's coordinate rows joined with the target
  // structure's rows on hemisphere_id

  /** One row of the trimmed record: the injection area's peak-voxel
      coordinates in one hemisphere with the target structure's metrics in
      the same hemisphere. */
  datatype MergedRow = MergedRow(
    hemisphereId: int,
    maxVoxelX: int,
    maxVoxelY: int,
    maxVoxelZ: int,
    target: Metrics)

  type Record = seq<MergedRow>

  function MergedIn(h: int): MergedRow -> bool
  {
    (m: MergedRow) => m.hemisphereId == h
  }

  function JoinRow(l: Row, matches: Table): (r: Record)
    ensures |r| == |matches|
    ensures forall k :: 0 <= k < |r| ==> r[k].hemisphereId == l.hemisphereId
  {
    seq(|matches|, k requires 0 <= k < |matches| =>
      MergedRow(l.hemisphereId, l.maxVoxelX, l.maxVoxelY, l.maxVoxelZ, matches[k].metrics))
  }

  /** An inner `merge(on='hemisphere_id')`: for each left row in order, one
      output row per right row of the same hemisphere. */
  function Merge(left: Table, right: Table): Record
    decreases |left|
  {
    if left == [] then []
    else
      var l := left[|left| - 1];
      Merge(left[..|left| - 1], right) + JoinRow(l, Filter(InHemisphere(l.hemisphereId), right))
  }

  /** The rows of a merge in hemisphere `h` are the merge of the two sides'
      rows in hemisphere `h`. */
  lemma {:induction false} MergeInHemisphere(h: int, left: Table, right: Table)
    ensures Filter(MergedIn(h), Merge(left, right))
         == Merge(Filter(InHemisphere(h), left), Filter(InHemisphere(h), right))
    decreases |left|
  {
    if left != [] {
      var left', l := left[..|left| - 1], left[|left| - 1];
      assert left == left' + [l];
      var matches := Filter(InHemisphere(l.hemisphereId), right);
      MergeInHemisphere(h, left', right);
      FilterConcat(MergedIn(h), Merge(left', right), JoinRow(l, matches));
      var fl := Filter(InHemisphere(h), left);
      var fr := Filter(InHemisphere(h), right);
      if l.hemisphereId == h {
        FilterAll(MergedIn(h), JoinRow(l, matches));
        assert fl == Filter(InHemisphere(h), left') + [l];
        assert fl[..|fl| - 1] == Filter(InHemisphere(h), left');
        FilterAll(InHemisphere(h), fr);
      } else {
        FilterNone(MergedIn(h), JoinRow(l, matches));
        assert fl == Filter(InHemisphere(h), left');
      }
    }
  }

  /** The trimmed record of one experiment: coordinates of the rows at the
      injection area, metrics of the rows at the target structure. */
  function Trimmed(t: Table, area: StructureId, target: StructureId): Record
  {
    Merge(Filter(AtStructure(area), t), Filter(AtStructure(target), t))
  }

  /** When the table holds one row for the area and one row for the target in
      hemisphere `h`, the trimmed record holds exactly one row in `h`, and it
      carries the area's coordinates and the target's metrics. */
  lemma TrimmedInHemisphere(t: Table, area: StructureId, target: StructureId, h: int, l: Row, r: Row)
    requires Filter(AtStructureIn(area, h), t) == [l]
    requires Filter(AtStructureIn(target, h), t) == [r]
    ensures Filter(MergedIn(h), Trimmed(t, area, target))
         == [MergedRow(h, l.maxVoxelX, l.maxVoxelY, l.maxVoxelZ, r.metrics)]
  {
    var left, right := Filter(AtStructure(area), t), Filter(AtStructure(target), t);
    MergeInHemisphere(h, left, right);
    FilterFilter(AtStructure(area), InHemisphere(h), t);
    FilterFilter(AtStructure(target), InHemisphere(h), t);
    assert [l][..0] == [];
    assert Filter(InHemisphere(h), [r]) == [r] by {
      FilterAll(InHemisphere(h), [r]);
    }
  }

  /** The single row of a record in hemisphere `h` (a `.item()` on
      `rec[rec['hemisphere_id'] == h]`). */
  function RecordRow(rec: Record, h: int): (m: Option<MergedRow>)
    ensures m.Some? <==> |Filter(MergedIn(h), rec)| == 1
    ensures m.Some? ==> m.value in rec && m.value.hemisphereId == h
  {
    Item(Filter(MergedIn(h), rec))
  }
}
