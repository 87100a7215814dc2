/**
 * `AllenConnectivity`: the curation pipeline as an object whose stage
 * methods rebuild its dictionaries.  Configuration values, the metadata
 * table, the structure set and the two data sources (the remote
 * injection-only query and the stored unionized tables) are fixed at
 * construction; the dictionaries are fields that the stages reassign.
 *
 * Every stage method is proved against the specification functions of the
 * ExperimentLists and Curation modules; a stage whose `.item()` lookup or
 * division fails reports `ok == false`.
 */
module Connectivity {
  import opened Collections
  import opened Unionize
  import opened ExperimentLists
  import opened Centroids
  import opened Curation

  class AllenConnectivity {
    // Configuration (`parse_config`) and data sources.
    const targetStructureId: StructureId
    const projectionMetric: Metric
    const hemisphereIdToSelect: Side
    const injectionVolumeThreshold: real
    const projectionVolumeThreshold: real
    const metricForProjectionThresholding: Metric
    const experimentMetadata: Metadata
    const structureSet: seq<StructureId>
    /** Injection-only unionized rows of an experiment at one structure. */
    const injectionQuery: (ExperimentId, StructureId) -> Table
    /** The unionized table stored for an area's experiment. */
    const downloadedTables: (StructureId, ExperimentId) -> Table

    var experimentList: Registry
    var unionizedData: Store
    var ipsilateralUnionizedData: Fork
    var contralateralUnionizedData: Fork
    var ipsilateralCentroids: CentroidTable
    var contralateralCentroids: CentroidTable

    /** Every dictionary the stages read has unique keys at every level. */
    ghost predicate Valid()
      reads this
    {
      UniqueKeys(experimentList) && NestedUnique(unionizedData) &&
      NestedUnique(ipsilateralUnionizedData) && NestedUnique(contralateralUnionizedData)
    }

    /** `__init__`: the registry is built from the metadata and the structure set. */
    constructor(target: StructureId, pm: Metric, sel: Side, injThreshold: real, projThreshold: real,
                thresholdMetric: Metric, meta: Metadata, areas: seq<StructureId>,
                query: (ExperimentId, StructureId) -> Table, tables: (StructureId, ExperimentId) -> Table)
      ensures Valid()
      ensures targetStructureId == target && projectionMetric == pm && hemisphereIdToSelect == sel
      ensures injectionVolumeThreshold == injThreshold && projectionVolumeThreshold == projThreshold
      ensures metricForProjectionThresholding == thresholdMetric
      ensures experimentMetadata == meta && structureSet == areas
      ensures injectionQuery == query && downloadedTables == tables
      ensures experimentList == BuildRegistry(meta, areas)
      ensures unionizedData == [] && ipsilateralUnionizedData == [] && contralateralUnionizedData == []
      ensures ipsilateralCentroids == [] && contralateralCentroids == []
    {
      targetStructureId, projectionMetric, hemisphereIdToSelect := target, pm, sel;
      injectionVolumeThreshold, projectionVolumeThreshold := injThreshold, projThreshold;
      metricForProjectionThresholding := thresholdMetric;
      experimentMetadata, structureSet := meta, areas;
      injectionQuery, downloadedTables := query, tables;
      experimentList := BuildRegistry(meta, areas);
      unionizedData, ipsilateralUnionizedData, contralateralUnionizedData := [], [], [];
      ipsilateralCentroids, contralateralCentroids := [], [];
      RegistryShape(meta, areas);
    }

    // -------------------------------------------------------------------
    // Stage 1

    /** The inner loop of `remove_injection_target_overlap_areas` for one
        area; fails when an experiment has no single metadata row. */
    method RetainedExperiments(exps: seq<ExperimentId>) returns (ok: bool, kept: seq<ExperimentId>)
      ensures ok <==> Registered(experimentMetadata, exps)
      ensures ok ==> kept == Filter(NoOverlap(experimentMetadata, targetStructureId), exps)
    {
      var keep := NoOverlap(experimentMetadata, targetStructureId);
      kept := [];
      var j := 0;
      while j < |exps|
        invariant 0 <= j <= |exps|
        invariant Registered(experimentMetadata, exps[..j])
        invariant kept == Filter(keep, exps[..j])
      {
        var inj := InjectionStructures(experimentMetadata, exps[j]);
        if inj.None? {
          return false, kept;
        }
        RegisteredStep(experimentMetadata, exps, j);
        NoOverlapMeaning(experimentMetadata, targetStructureId, exps[j]);
        FilterPrefixStep(keep, exps, j);
        if targetStructureId !in inj.value {
          kept := kept + [exps[j]];
        }
        j := j + 1;
      }
      assert exps[..j] == exps;
      return true, kept;
    }

    /** Stage 1 over a whole registry. */
    method RemoveOverlap(reg: Registry) returns (ok: bool, result: Registry)
      requires UniqueKeys(reg)
      ensures ok <==> InjectionsKnown(experimentMetadata, reg)
      ensures ok ==> result == OverlapRemoved(experimentMetadata, targetStructureId, reg) && UniqueKeys(result)
    {
      result := [];
      var i := 0;
      while i < |reg|
        invariant 0 <= i <= |reg|
        invariant result == MapValues(reg[..i], RetainEntry(experimentMetadata, targetStructureId))
        invariant forall a, j :: 0 <= a < i && 0 <= j < |reg[a].1| ==> InjectionStructures(experimentMetadata, reg[a].1[j]).Some?
      {
        var found, kept := RetainedExperiments(reg[i].1);
        if !found {
          return false, result;
        }
        MapValuesStep(reg, RetainEntry(experimentMetadata, targetStructureId), i);
        result := Put(result, reg[i].0, kept);
        i := i + 1;
      }
      assert reg[..i] == reg;
      UniqueKeysByKeys(reg, result);
      return true, result;
    }

    /** `remove_injection_target_overlap_areas`. */
    method RemoveInjectionTargetOverlapAreas() returns (ok: bool)
      requires Valid()
      modifies this`experimentList
      ensures Valid()
      ensures ok <==> InjectionsKnown(experimentMetadata, old(experimentList))
      ensures experimentList == if ok then OverlapRemoved(experimentMetadata, targetStructureId, old(experimentList))
                                else old(experimentList)
    {
      var result;
      ok, result := RemoveOverlap(experimentList);
      if ok {
        experimentList := result;
      }
    }

    // -------------------------------------------------------------------
    // Stage 2

    /** The inner loop of `select_by_hemisphere` for one area, popping from
        the list it iterates over; it fails at the first experiment read
        whose injection query comes back empty. */
    method SweepArea(area: StructureId, exps: seq<ExperimentId>)
      returns (ok: bool, kept: seq<ExperimentId>, removed: seq<ExperimentId>)
      ensures ok <==> HemispheresKnown(injectionQuery, area, hemisphereIdToSelect, exps)
      ensures ok ==> Swept(kept, removed) == Sweep(InjectedIn(injectionQuery, area, hemisphereIdToSelect), exps)
    {
      var keep := InjectedIn(injectionQuery, area, hemisphereIdToSelect);
      var lst := exps;
      var i := 0;
      removed := [];
      while i < |lst|
        invariant SweepFrom(keep, lst, i, removed) == Sweep(keep, exps)
        invariant HemispheresKnownFrom(injectionQuery, area, keep, lst, i) == HemispheresKnown(injectionQuery, area, hemisphereIdToSelect, exps)
        decreases |lst| + 1 - i
      {
        var e := lst[i];
        var ind := IndexOf(lst, e);
        var hem := CheckHemisphere(injectionQuery, e, area);
        if hem.None? {
          return false, lst, removed;
        }
        i := i + 1;
        if hem != Some(hemisphereIdToSelect) {
          removed := removed + [lst[ind]];
          lst := lst[..ind] + lst[ind + 1..];
        }
      }
      return true, lst, removed;
    }

    /** Stage 2 over a whole registry. */
    method SelectHemisphere(reg: Registry) returns (ok: bool, result: Registry)
      requires UniqueKeys(reg)
      ensures ok <==> SelectionKnown(injectionQuery, hemisphereIdToSelect, reg)
      ensures ok ==> result == HemisphereSelected(injectionQuery, hemisphereIdToSelect, reg) && UniqueKeys(result)
    {
      result := [];
      var i := 0;
      while i < |reg|
        invariant 0 <= i <= |reg|
        invariant result == MapValues(reg[..i], SelectEntry(injectionQuery, hemisphereIdToSelect))
        invariant forall a :: 0 <= a < i ==> HemispheresKnown(injectionQuery, reg[a].0, hemisphereIdToSelect, reg[a].1)
      {
        var known, kept, removed := SweepArea(reg[i].0, reg[i].1);
        if !known {
          return false, result;
        }
        MapValuesStep(reg, SelectEntry(injectionQuery, hemisphereIdToSelect), i);
        result := Put(result, reg[i].0, kept);
        i := i + 1;
      }
      assert reg[..i] == reg;
      UniqueKeysByKeys(reg, result);
      return true, result;
    }

    /** `select_by_hemisphere` (the branch that computes the selection).  The
        selection is built on a copy, so a failure leaves the registry as it
        was. */
    method SelectByHemisphere() returns (ok: bool)
      requires Valid()
      modifies this`experimentList
      ensures Valid()
      ensures ok <==> SelectionKnown(injectionQuery, hemisphereIdToSelect, old(experimentList))
      ensures experimentList == if ok then HemisphereSelected(injectionQuery, hemisphereIdToSelect, old(experimentList))
                                else old(experimentList)
    {
      var result;
      ok, result := SelectHemisphere(experimentList);
      if ok {
        experimentList := result;
      }
    }

    // -------------------------------------------------------------------
    // The switch to unionized tables

    /** The inner loop of `load_unionized_data` for one area. */
    method LoadArea(area: StructureId, exps: seq<ExperimentId>) returns (inner: Dict<ExperimentId, Table>)
      ensures inner == FromKeys(exps, TablesOf(downloadedTables, area))
    {
      inner := [];
      var j := 0;
      while j < |exps|
        invariant 0 <= j <= |exps|
        invariant inner == FromKeys(exps[..j], TablesOf(downloadedTables, area))
      {
        FromKeysStep(exps, TablesOf(downloadedTables, area), j);
        inner := Put(inner, exps[j], downloadedTables(area, exps[j]));
        j := j + 1;
      }
      assert exps[..j] == exps;
    }

    /** `load_unionized_data` over a whole registry. */
    method Load(reg: Registry) returns (store: Store)
      requires UniqueKeys(reg)
      ensures store == LoadedStore(downloadedTables, reg) && NestedUnique(store)
    {
      store := [];
      var i := 0;
      while i < |reg|
        invariant 0 <= i <= |reg|
        invariant store == MapValues(reg[..i], LoadEntry(downloadedTables))
      {
        var inner := LoadArea(reg[i].0, reg[i].1);
        MapValuesStep(reg, LoadEntry(downloadedTables), i);
        store := Put(store, reg[i].0, inner);
        i := i + 1;
      }
      assert reg[..i] == reg;
      LoadedShape(downloadedTables, reg);
    }

    /** `load_unionized_data`. */
    method LoadUnionizedData()
      requires Valid()
      modifies this`unionizedData
      ensures Valid()
      ensures unionizedData == LoadedStore(downloadedTables, experimentList)
    {
      unionizedData := Load(experimentList);
    }

    // -------------------------------------------------------------------
    // Stages 3 and 4

    /** The inner loop of `zero_projection_QC` for one area; it fails at the
        first table without rows. */
    method QCArea(area: StructureId, inner: Dict<ExperimentId, Table>) returns (ok: bool, kept: Dict<ExperimentId, Table>)
      requires UniqueKeys(inner)
      ensures ok <==> forall j :: 0 <= j < |inner| ==> inner[j].1 != []
      ensures ok ==> kept == Filter(PassesQC(targetStructureId, projectionMetric)(area), inner)
    {
      var keep := PassesQC(targetStructureId, projectionMetric)(area);
      kept := [];
      var j := 0;
      while j < |inner|
        invariant 0 <= j <= |inner|
        invariant forall j' :: 0 <= j' < j ==> inner[j'].1 != []
        invariant kept == Filter(keep, inner[..j])
      {
        if inner[j].1 == [] {
          return false, kept;
        }
        FilterStep(keep, inner, j);
        if !HasZeroAtTarget(inner[j].1, targetStructureId, projectionMetric) {
          kept := Put(kept, inner[j].0, inner[j].1);
        }
        j := j + 1;
      }
      assert inner[..j] == inner;
      return true, kept;
    }

    /** Stage 3 over a whole store. */
    method QC(s: Store) returns (ok: bool, result: Store)
      requires NestedUnique(s)
      ensures ok <==> TablesPresent(s)
      ensures ok ==> result == ZeroQC(targetStructureId, projectionMetric, s) && NestedUnique(result)
    {
      result := [];
      var i := 0;
      while i < |s|
        invariant 0 <= i <= |s|
        invariant result == FilterEach(s[..i], PassesQC(targetStructureId, projectionMetric))
        invariant forall a, j :: 0 <= a < i && 0 <= j < |s[a].1| ==> s[a].1[j].1 != []
      {
        var present, kept := QCArea(s[i].0, s[i].1);
        if !present {
          return false, result;
        }
        FilterEachStep(s, PassesQC(targetStructureId, projectionMetric), i);
        result := Put(result, s[i].0, kept);
        i := i + 1;
      }
      assert s[..i] == s;
      ZeroQCShape(targetStructureId, projectionMetric, s);
      return true, result;
    }

    /** `zero_projection_QC`: loads the tables, then drops experiments with a
        zero projection metric at the target.  The loaded tables are already
        in place when the test raises on a table without rows. */
    method ZeroProjectionQC() returns (ok: bool)
      requires Valid()
      modifies this`unionizedData
      ensures Valid()
      ensures ok <==> TablesPresent(LoadedStore(downloadedTables, experimentList))
      ensures unionizedData == if ok then ZeroQC(targetStructureId, projectionMetric, LoadedStore(downloadedTables, experimentList))
                               else LoadedStore(downloadedTables, experimentList)
    {
      LoadUnionizedData();
      var result;
      ok, result := QC(unionizedData);
      if ok {
        unionizedData := result;
      }
    }

    /** The inner loop of `injection_volume_thresholding` for one area. */
    method VolumeArea(area: StructureId, inner: Dict<ExperimentId, Table>) returns (ok: bool, kept: Dict<ExperimentId, Table>)
      requires UniqueKeys(inner)
      ensures ok <==> forall j :: 0 <= j < |inner| ==> InjectionVolume(injectionQuery(inner[j].0, area)).Some?
      ensures ok ==> kept == Filter(VolumeAtLeast(injectionQuery, injectionVolumeThreshold)(area), inner)
    {
      var keep := VolumeAtLeast(injectionQuery, injectionVolumeThreshold)(area);
      kept := [];
      var j := 0;
      while j < |inner|
        invariant 0 <= j <= |inner|
        invariant forall j' :: 0 <= j' < j ==> InjectionVolume(injectionQuery(inner[j'].0, area)).Some?
        invariant kept == Filter(keep, inner[..j])
      {
        var vol := InjectionVolume(injectionQuery(inner[j].0, area));
        if vol.None? {
          return false, kept;
        }
        FilterStep(keep, inner, j);
        if vol.value >= injectionVolumeThreshold {
          kept := Put(kept, inner[j].0, inner[j].1);
        }
        j := j + 1;
      }
      assert inner[..j] == inner;
      return true, kept;
    }

    /** Stage 4 over a whole store. */
    method VolumeThreshold(s: Store) returns (ok: bool, result: Store)
      requires NestedUnique(s)
      ensures ok <==> VolumesKnown(injectionQuery, s)
      ensures ok ==> result == VolumeThresholded(injectionQuery, injectionVolumeThreshold, s) && NestedUnique(result)
    {
      result := [];
      var i := 0;
      while i < |s|
        invariant 0 <= i <= |s|
        invariant result == FilterEach(s[..i], VolumeAtLeast(injectionQuery, injectionVolumeThreshold))
        invariant forall a, j :: 0 <= a < i && 0 <= j < |s[a].1| ==> InjectionVolume(injectionQuery(s[a].1[j].0, s[a].0)).Some?
      {
        var found, kept := VolumeArea(s[i].0, s[i].1);
        if !found {
          return false, result;
        }
        FilterEachStep(s, VolumeAtLeast(injectionQuery, injectionVolumeThreshold), i);
        result := Put(result, s[i].0, kept);
        i := i + 1;
      }
      assert s[..i] == s;
      VolumeThresholdShape(injectionQuery, injectionVolumeThreshold, s);
      return true, result;
    }

    /** `injection_volume_thresholding`. */
    method InjectionVolumeThresholding() returns (ok: bool)
      requires Valid()
      modifies this`unionizedData
      ensures Valid()
      ensures ok <==> VolumesKnown(injectionQuery, old(unionizedData))
      ensures unionizedData == if ok then VolumeThresholded(injectionQuery, injectionVolumeThreshold, old(unionizedData))
                               else old(unionizedData)
    {
      var result;
      ok, result := VolumeThreshold(unionizedData);
      if ok {
        unionizedData := result;
      }
    }

    // -------------------------------------------------------------------
    // Stage 5

    /** The inner loop of `separate_by_projection_hemisphere` for one area. */
    method SeparateArea(area: StructureId, inner: Dict<ExperimentId, Table>)
      returns (ok: bool, ipsi: Dict<ExperimentId, Record>, contra: Dict<ExperimentId, Record>)
      requires UniqueKeys(inner)
      ensures ok <==> forall j :: 0 <= j < |inner| ==>
        ValueAt(inner[j].1, targetStructureId, hemisphereIdToSelect, projectionMetric).Some? &&
        ValueAt(inner[j].1, targetStructureId, Opposite(hemisphereIdToSelect), projectionMetric).Some?
      ensures ok ==> ipsi == MapValues(Filter(Ipsilateral(targetStructureId, hemisphereIdToSelect, projectionMetric), inner),
                                       TrimFor(area, targetStructureId))
      ensures ok ==> contra == MapValues(Filter(Not(Ipsilateral(targetStructureId, hemisphereIdToSelect, projectionMetric)), inner),
                                         TrimFor(area, targetStructureId))
    {
      var p := Ipsilateral(targetStructureId, hemisphereIdToSelect, projectionMetric);
      var trim := TrimFor(area, targetStructureId);
      ipsi, contra := [], [];
      var j := 0;
      while j < |inner|
        invariant 0 <= j <= |inner|
        invariant forall j' :: 0 <= j' < j ==>
          ValueAt(inner[j'].1, targetStructureId, hemisphereIdToSelect, projectionMetric).Some? &&
          ValueAt(inner[j'].1, targetStructureId, Opposite(hemisphereIdToSelect), projectionMetric).Some?
        invariant ipsi == MapValues(Filter(p, inner[..j]), trim)
        invariant contra == MapValues(Filter(Not(p), inner[..j]), trim)
      {
        var (e, t) := inner[j];
        var here := ValueAt(t, targetStructureId, hemisphereIdToSelect, projectionMetric);
        var there := ValueAt(t, targetStructureId, Opposite(hemisphereIdToSelect), projectionMetric);
        if here.None? || there.None? {
          return false, ipsi, contra;
        }
        FilterMapStep(p, trim, inner, j);
        FilterMapStep(Not(p), trim, inner, j);
        if here.value > there.value {
          ipsi := Put(ipsi, e, Trimmed(t, area, targetStructureId));
        } else {
          contra := Put(contra, e, Trimmed(t, area, targetStructureId));
        }
        j := j + 1;
      }
      assert inner[..j] == inner;
      return true, ipsi, contra;
    }

    /** Stage 5 over a whole store.  On failure the forks hold the areas
        before the failing one. */
    method Separate(s: Store) returns (ok: bool, ipsi: Fork, contra: Fork, done: nat)
      requires NestedUnique(s)
      ensures done <= |s| && (ok ==> done == |s|)
      ensures ok <==> ComparisonsKnown(targetStructureId, hemisphereIdToSelect, projectionMetric, s)
      ensures ipsi == IpsiFork(targetStructureId, hemisphereIdToSelect, projectionMetric, s[..done])
      ensures contra == ContraFork(targetStructureId, hemisphereIdToSelect, projectionMetric, s[..done])
      ensures NestedUnique(ipsi) && NestedUnique(contra)
      ensures ComparisonsKnown(targetStructureId, hemisphereIdToSelect, projectionMetric, s[..done])
      ensures !ok ==> done < |s| && !AreaComparisonsKnown(targetStructureId, hemisphereIdToSelect, projectionMetric, s[done].1)
    {
      var p := Ipsilateral(targetStructureId, hemisphereIdToSelect, projectionMetric);
      ipsi, contra := [], [];
      done := 0;
      while done < |s|
        invariant 0 <= done <= |s|
        invariant ipsi == MapValues(s[..done], ForkEntry(targetStructureId, p))
        invariant contra == MapValues(s[..done], ForkEntry(targetStructureId, Not(p)))
        invariant ComparisonsKnown(targetStructureId, hemisphereIdToSelect, projectionMetric, s[..done])
      {
        var found, here, there := SeparateArea(s[done].0, s[done].1);
        assert found <==> AreaComparisonsKnown(targetStructureId, hemisphereIdToSelect, projectionMetric, s[done].1);
        if !found {
          ComparisonsUnknownAt(targetStructureId, hemisphereIdToSelect, projectionMetric, s, done);
          SeparationUnique(targetStructureId, hemisphereIdToSelect, projectionMetric, s, done);
          return false, ipsi, contra, done;
        }
        ComparisonsKnownStep(targetStructureId, hemisphereIdToSelect, projectionMetric, s, done);
        ForkStep(targetStructureId, p, s, done);
        ForkStep(targetStructureId, Not(p), s, done);
        ipsi := Put(ipsi, s[done].0, here);
        contra := Put(contra, s[done].0, there);
        done := done + 1;
      }
      assert s[..done] == s;
      SeparationUnique(targetStructureId, hemisphereIdToSelect, projectionMetric, s, done);
      return true, ipsi, contra, done;
    }

    /** `separate_by_projection_hemisphere`: the forks are emptied and then
        filled area by area. */
    method SeparateByProjectionHemisphere() returns (ok: bool)
      requires Valid()
      modifies this`ipsilateralUnionizedData, this`contralateralUnionizedData
      ensures Valid()
      ensures ok <==> ComparisonsKnown(targetStructureId, hemisphereIdToSelect, projectionMetric, unionizedData)
      ensures ok ==> ipsilateralUnionizedData == IpsiFork(targetStructureId, hemisphereIdToSelect, projectionMetric, unionizedData)
      ensures ok ==> contralateralUnionizedData == ContraFork(targetStructureId, hemisphereIdToSelect, projectionMetric, unionizedData)
    {
      var done;
      ok, ipsilateralUnionizedData, contralateralUnionizedData, done := Separate(unionizedData);
      assert ok ==> unionizedData[..done] == unionizedData;
    }

    // -------------------------------------------------------------------
    // Stage 6

    /** The inner loop of `projection_volume_thresholding` for one area of a
        fork read in hemisphere `h`. */
    method ThresholdArea(h: Side, area: StructureId, inner: Dict<ExperimentId, Record>) returns (ok: bool, kept: Dict<ExperimentId, Record>)
      requires UniqueKeys(inner)
      ensures ok <==> forall j :: 0 <= j < |inner| ==> RecordRow(inner[j].1, h).Some?
      ensures ok ==> kept == Filter(ProjectionAtLeast(h, metricForProjectionThresholding, projectionVolumeThreshold)(area), inner)
    {
      var keep := ProjectionAtLeast(h, metricForProjectionThresholding, projectionVolumeThreshold)(area);
      kept := [];
      var j := 0;
      while j < |inner|
        invariant 0 <= j <= |inner|
        invariant forall j' :: 0 <= j' < j ==> RecordRow(inner[j'].1, h).Some?
        invariant kept == Filter(keep, inner[..j])
      {
        var row := RecordRow(inner[j].1, h);
        if row.None? {
          return false, kept;
        }
        FilterStep(keep, inner, j);
        if MetricValue(row.value.target, metricForProjectionThresholding) >= projectionVolumeThreshold {
          kept := Put(kept, inner[j].0, inner[j].1);
        }
        j := j + 1;
      }
      assert inner[..j] == inner;
      return true, kept;
    }

    /** Stage 6 over one fork. */
    method ThresholdFork(h: Side, f: Fork) returns (ok: bool, result: Fork)
      requires NestedUnique(f)
      ensures ok <==> RowsKnown(h, f)
      ensures ok ==> result == ProjectionThresholded(h, metricForProjectionThresholding, projectionVolumeThreshold, f)
      ensures ok ==> NestedUnique(result)
    {
      var keep := ProjectionAtLeast(h, metricForProjectionThresholding, projectionVolumeThreshold);
      result := [];
      var i := 0;
      while i < |f|
        invariant 0 <= i <= |f|
        invariant result == FilterEach(f[..i], keep)
        invariant forall a, j :: 0 <= a < i && 0 <= j < |f[a].1| ==> RecordRow(f[a].1[j].1, h).Some?
      {
        var found, kept := ThresholdArea(h, f[i].0, f[i].1);
        if !found {
          return false, result;
        }
        FilterEachStep(f, keep, i);
        result := Put(result, f[i].0, kept);
        i := i + 1;
      }
      assert f[..i] == f;
      ProjectionThresholdShape(h, metricForProjectionThresholding, projectionVolumeThreshold, f);
      return true, result;
    }

    /** `projection_volume_thresholding`: the ipsilateral fork is read in the
        selected hemisphere, the contralateral fork in the opposite one. */
    method ProjectionVolumeThresholding() returns (ok: bool)
      requires Valid()
      modifies this`ipsilateralUnionizedData, this`contralateralUnionizedData
      ensures Valid()
      ensures ok <==> RowsKnown(hemisphereIdToSelect, old(ipsilateralUnionizedData)) &&
                      RowsKnown(Opposite(hemisphereIdToSelect), old(contralateralUnionizedData))
      ensures ipsilateralUnionizedData == if ok
        then ProjectionThresholded(hemisphereIdToSelect, metricForProjectionThresholding, projectionVolumeThreshold,
                                   old(ipsilateralUnionizedData))
        else old(ipsilateralUnionizedData)
      ensures contralateralUnionizedData == if ok
        then ProjectionThresholded(Opposite(hemisphereIdToSelect), metricForProjectionThresholding, projectionVolumeThreshold,
                                   old(contralateralUnionizedData))
        else old(contralateralUnionizedData)
    {
      var ipsiOk, ipsi := ThresholdFork(hemisphereIdToSelect, ipsilateralUnionizedData);
      if !ipsiOk {
        return false;
      }
      var contraOk, contra := ThresholdFork(Opposite(hemisphereIdToSelect), contralateralUnionizedData);
      if !contraOk {
        return false;
      }
      ipsilateralUnionizedData, contralateralUnionizedData := ipsi, contra;
      return true;
    }

    // -------------------------------------------------------------------
    // Weighted centroids

    /** The body of the area loop of `compute_weighted_centroids`: no
        centroid for an area without experiments, otherwise the weighted
        centroid of its samples; fails when a sample is unknown or the
        weights sum to zero. */
    method AreaCentroid(h: Side, inner: Dict<ExperimentId, Record>) returns (ok: bool, centroid: Option<Centroid>)
      ensures ok <==> CentroidDefined(inner, h, projectionMetric)
      ensures ok ==> centroid.None? == (inner == [])
      ensures ok && inner != [] ==> centroid == Some(WeightedCentroid(SamplesOf(inner, h, projectionMetric).value))
    {
      var coordinates := SamplesOf(inner, h, projectionMetric);
      if coordinates.None? {
        return false, None;
      }
      if coordinates.value == [] {
        return true, None;
      }
      if SumW(coordinates.value) == 0.0 {
        return false, None;
      }
      return true, Some(WeightedCentroid(coordinates.value));
    }

    /** The area loop of `compute_weighted_centroids` for one fork read in
        hemisphere `h`.  On failure the table holds the areas before the
        failing one. */
    method ForkCentroids(h: Side, f: Fork) returns (ok: bool, c: CentroidTable, done: nat)
      ensures done <= |f| && (ok ==> done == |f|)
      ensures ok ==> AreaCentroids(f, h, projectionMetric) == Some(c)
      ensures !ok ==> AreaCentroids(f, h, projectionMetric).None?
      ensures AreaCentroids(f[..done], h, projectionMetric) == Some(c)
      ensures !ok ==> done < |f| && !CentroidDefined(f[done].1, h, projectionMetric)
    {
      c := [];
      done := 0;
      while done < |f|
        invariant 0 <= done <= |f|
        invariant AreaCentroids(f[..done], h, projectionMetric) == Some(c)
      {
        var found, centroid := AreaCentroid(h, f[done].1);
        AreaCentroidsAdvance(f, h, projectionMetric, done, c, centroid);
        if !found {
          return false, c, done;
        }
        if centroid.Some? {
          c := Put(c, f[done].0, centroid.value);
        }
        done := done + 1;
      }
      assert f[..done] == f;
      return true, c, done;
    }

    /** `compute_weighted_centroids`: both tables are emptied, then filled
        from the ipsilateral fork in the selected hemisphere and from the
        contralateral fork in the opposite one. */
    method ComputeWeightedCentroids() returns (ok: bool)
      requires Valid()
      modifies this`ipsilateralCentroids, this`contralateralCentroids
      ensures Valid()
      ensures ok <==> AreaCentroids(ipsilateralUnionizedData, hemisphereIdToSelect, projectionMetric).Some? &&
                      AreaCentroids(contralateralUnionizedData, Opposite(hemisphereIdToSelect), projectionMetric).Some?
      ensures ok ==> ipsilateralCentroids == AreaCentroids(ipsilateralUnionizedData, hemisphereIdToSelect, projectionMetric).value
      ensures ok ==> contralateralCentroids == AreaCentroids(contralateralUnionizedData, Opposite(hemisphereIdToSelect), projectionMetric).value
    {
      ipsilateralCentroids, contralateralCentroids := [], [];
      var ipsiOk, ipsi, ipsiDone := ForkCentroids(hemisphereIdToSelect, ipsilateralUnionizedData);
      ipsilateralCentroids := ipsi;
      if !ipsiOk {
        return false;
      }
      var contraOk, contra, contraDone := ForkCentroids(Opposite(hemisphereIdToSelect), contralateralUnionizedData);
      contralateralCentroids := contra;
      assert ipsilateralUnionizedData[..ipsiDone] == ipsilateralUnionizedData;
      assert contraOk ==> contralateralUnionizedData[..contraDone] == contralateralUnionizedData;
      return contraOk;
    }
  }
}
