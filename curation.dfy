/**
 * The stages of the curation pipeline that work on unionized tables:
 *
 *  - stage 3, zero-valued projection quality control;
 *  - stage 4, injection-volume thresholding;
 *  - stage 5, separation into an ipsilateral and a contralateral fork, each
 *    experiment's table trimmed to a merged record;
 *  - stage 6, projection-volume thresholding of each fork;
 *  - the per-area weighted centroids of each fork.
 */
module Curation {
  import opened Collections
  import opened Unionize
  import opened ExperimentLists
  import opened Centroids

  /** `ipsilateral_unionized_data` / `contralateral_unionized_data`: area id
      to experiment id to trimmed record. */
  type Fork = Dict<StructureId, Dict<ExperimentId, Record>>

  /** A centroids dictionary: area id to centroid. */
  type CentroidTable = Dict<StructureId, Centroid>

  // ---------------------------------------------------------------------
  // Filtering every area's experiments

  /** `{a: {e: v for e, v in d[a].items() if keep(a)((e, v))} for a in d}`. */
  function FilterEach<V>(d: Dict<StructureId, Dict<ExperimentId, V>>, keep: StructureId -> ((ExperimentId, V)) -> bool)
    : Dict<StructureId, Dict<ExperimentId, V>>
  {
    MapValues(d, (a, inner) => Filter(keep(a), inner))
  }

  /** Filtering each area keeps the areas, keeps keys unique, and leaves in
      each area exactly the old entries, unchanged, that pass the test. */
  lemma FilterEachShape<V>(d: Dict<StructureId, Dict<ExperimentId, V>>, keep: StructureId -> ((ExperimentId, V)) -> bool)
    ensures Keys(FilterEach(d, keep)) == Keys(d)
    ensures NestedUnique(d) ==> NestedUnique(FilterEach(d, keep))
    ensures forall i, x :: 0 <= i < |d| ==>
      (x in FilterEach(d, keep)[i].1 <==> x in d[i].1 && keep(d[i].0)(x))
    ensures forall i :: 0 <= i < |d| ==> IsSubseq(FilterEach(d, keep)[i].1, d[i].1)
  {
    var r := FilterEach(d, keep);
    forall i | 0 <= i < |d|
      ensures r[i].1 == Filter(keep(d[i].0), d[i].1)
      ensures IsSubseq(r[i].1, d[i].1)
      ensures forall x :: x in r[i].1 <==> x in d[i].1 && keep(d[i].0)(x)
      ensures UniqueKeys(d[i].1) ==> UniqueKeys(r[i].1)
    {
      FilterSubseq(keep(d[i].0), d[i].1);
      forall x | x in d[i].1 && keep(d[i].0)(x) ensures x in r[i].1 {
        var j :| 0 <= j < |d[i].1| && d[i].1[j] == x;
      }
      if UniqueKeys(d[i].1) {
        FilterUniqueKeys(keep(d[i].0), d[i].1);
      }
    }
    if UniqueKeys(d) {
      UniqueKeysByKeys(d, r);
    }
  }

  /** FilterEachShape's membership fact for one area and one entry. */
  lemma FilterEachMember<V>(d: Dict<StructureId, Dict<ExperimentId, V>>, keep: StructureId -> ((ExperimentId, V)) -> bool,
                            i: nat, x: (ExperimentId, V))
    requires i < |d|
    ensures x in FilterEach(d, keep)[i].1 <==> x in d[i].1 && keep(d[i].0)(x)
  {
    FilterEachShape(d, keep);
  }

  /** One step of the area loop that fills the filtered dictionary. */
  lemma FilterEachStep<V>(d: Dict<StructureId, Dict<ExperimentId, V>>, keep: StructureId -> ((ExperimentId, V)) -> bool, i: nat)
    requires UniqueKeys(d) && i < |d|
    ensures FilterEach(d[..i + 1], keep) == Put(FilterEach(d[..i], keep), d[i].0, Filter(keep(d[i].0), d[i].1))
  {
    MapValuesStep(d, (a, inner) => Filter(keep(a), inner), i);
  }

  // ---------------------------------------------------------------------
  // Stage 3: zero-valued projection QC

  /** Some row at the target structure has the metric exactly zero
      (`(df[df.structure_id == target][m] == 0).any()`). */
  predicate HasZeroAtTarget(t: Table, target: StructureId, m: Metric)
  {
    var rows := Filter(AtStructure(target), t);
    exists i :: 0 <= i < |rows| && MetricValue(rows[i].metrics, m) == 0.0
  }

  /** Both directions of the QC test, stated on the table itself. */
  lemma HasZeroMeaning(t: Table, target: StructureId, m: Metric)
    ensures HasZeroAtTarget(t, target, m) <==>
      exists i :: 0 <= i < |t| && t[i].structureId == target && MetricValue(t[i].metrics, m) == 0.0
  {
    var rows := Filter(AtStructure(target), t);
    if HasZeroAtTarget(t, target, m) {
      var k :| 0 <= k < |rows| && MetricValue(rows[k].metrics, m) == 0.0;
      assert rows[k] in t;
      var i :| 0 <= i < |t| && t[i] == rows[k];
      assert t[i].structureId == target;
    }
    if exists i :: 0 <= i < |t| && t[i].structureId == target && MetricValue(t[i].metrics, m) == 0.0 {
      var i :| 0 <= i < |t| && t[i].structureId == target && MetricValue(t[i].metrics, m) == 0.0;
      assert t[i] in rows;
      var k :| 0 <= k < |rows| && rows[k] == t[i];
    }
  }

  /** An experiment with no row at the target structure passes QC. */
  lemma NoTargetRowsPass(t: Table, target: StructureId, m: Metric)
    requires forall i :: 0 <= i < |t| ==> t[i].structureId != target
    ensures !HasZeroAtTarget(t, target, m)
  {
    FilterNone(AtStructure(target), t);
  }

  function PassesQC(target: StructureId, m: Metric): StructureId -> ((ExperimentId, Table)) -> bool
  {
    a => (e: (ExperimentId, Table)) => !HasZeroAtTarget(e.1, target, m)
  }

  /** `unionized_data` after stage 3. */
  function ZeroQC(target: StructureId, m: Metric, s: Store): Store
  {
    FilterEach(s, PassesQC(target, m))
  }

  /** Stage 3 keeps the areas, and kept tables are unchanged. */
  lemma ZeroQCShape(target: StructureId, m: Metric, s: Store)
    ensures Keys(ZeroQC(target, m, s)) == Keys(s)
    ensures NestedUnique(s) ==> NestedUnique(ZeroQC(target, m, s))
    ensures forall i :: 0 <= i < |s| ==> IsSubseq(ZeroQC(target, m, s)[i].1, s[i].1)
  {
    FilterEachShape(s, PassesQC(target, m));
  }

  /** Stage 3 drops an experiment exactly when some row at the target has
      the metric equal to zero. */
  lemma ZeroQCMember(target: StructureId, m: Metric, s: Store, i: nat, x: (ExperimentId, Table))
    requires i < |s|
    ensures x in ZeroQC(target, m, s)[i].1 <==>
      x in s[i].1 && !exists k :: 0 <= k < |x.1| && x.1[k].structureId == target && MetricValue(x.1[k].metrics, m) == 0.0
  {
    FilterEachMember(s, PassesQC(target, m), i, x);
    HasZeroMeaning(x.1, target, m);
  }

  /** Every stored table has rows.  A download that came back empty was
      written from a frame without columns and reads back without a
      `structure_id` column, so the QC test raises on it. */
  ghost predicate TablesPresent(s: Store)
  {
    forall i, j :: 0 <= i < |s| && 0 <= j < |s[i].1| ==> s[i].1[j].1 != []
  }

  /** The loaded store has all its tables exactly when the download of every
      registered experiment at its area has rows. */
  lemma LoadedTablesPresent(tables: (StructureId, ExperimentId) -> Table, reg: Registry)
    requires UniqueKeys(reg)
    ensures TablesPresent(LoadedStore(tables, reg)) <==>
      forall i, e :: 0 <= i < |reg| && e in reg[i].1 ==> tables(reg[i].0, e) != []
  {
    var store := LoadedStore(tables, reg);
    LoadedShape(tables, reg);
    if TablesPresent(store) {
      forall i, e | 0 <= i < |reg| && e in reg[i].1 ensures tables(reg[i].0, e) != [] {
        var k :| 0 <= k < |reg[i].1| && reg[i].1[k] == e;
        var ks := Keys(store[i].1);
        assert ks == Dedup(reg[i].1);
        assert e in ks;
        var j :| 0 <= j < |ks| && ks[j] == e;
        assert store[i].1[j].0 == e;
      }
    }
    if forall i, e :: 0 <= i < |reg| && e in reg[i].1 ==> tables(reg[i].0, e) != [] {
      forall i, j | 0 <= i < |store| && 0 <= j < |store[i].1| ensures store[i].1[j].1 != [] {
        var ks := Keys(store[i].1);
        assert ks == Dedup(reg[i].1);
        assert ks[j] == store[i].1[j].0;
        assert ks[j] in reg[i].1;
      }
    }
  }

  // ---------------------------------------------------------------------
  // Stage 4: injection-volume thresholding

  function VolumeAtLeast(query: (ExperimentId, StructureId) -> Table, thr: real): StructureId -> ((ExperimentId, Table)) -> bool
  {
    a => (e: (ExperimentId, Table)) =>
      match InjectionVolume(query(e.0, a))
      case Some(v) => v >= thr
      case None => false
  }

  /** Every experiment's injection volume can be read (`.item()` finds one row). */
  ghost predicate VolumesKnown(query: (ExperimentId, StructureId) -> Table, s: Store)
  {
    forall i, j :: 0 <= i < |s| && 0 <= j < |s[i].1| ==> InjectionVolume(query(s[i].1[j].0, s[i].0)).Some?
  }

  /** `unionized_data` after stage 4. */
  function VolumeThresholded(query: (ExperimentId, StructureId) -> Table, thr: real, s: Store): Store
  {
    FilterEach(s, VolumeAtLeast(query, thr))
  }

  /** Stage 4 keeps the areas, and kept tables are unchanged. */
  lemma VolumeThresholdShape(query: (ExperimentId, StructureId) -> Table, thr: real, s: Store)
    ensures Keys(VolumeThresholded(query, thr, s)) == Keys(s)
    ensures NestedUnique(s) ==> NestedUnique(VolumeThresholded(query, thr, s))
    ensures forall i :: 0 <= i < |s| ==> IsSubseq(VolumeThresholded(query, thr, s)[i].1, s[i].1)
  {
    FilterEachShape(s, VolumeAtLeast(query, thr));
  }

  /** Stage 4 keeps an experiment exactly when its injection volume is at
      least the threshold, the threshold itself included. */
  lemma VolumeThresholdMember(query: (ExperimentId, StructureId) -> Table, thr: real, s: Store, i: nat, x: (ExperimentId, Table))
    requires i < |s|
    ensures x in VolumeThresholded(query, thr, s)[i].1 <==>
      x in s[i].1 && InjectionVolume(query(x.0, s[i].0)).Some? && InjectionVolume(query(x.0, s[i].0)).value >= thr
  {
    FilterEachMember(s, VolumeAtLeast(query, thr), i, x);
    match InjectionVolume(query(x.0, s[i].0))
    case Some(v) =>
    case None =>
  }

  // ---------------------------------------------------------------------
  // Stage 5: ipsilateral / contralateral separation

  /** The projection metric at the target is strictly larger in the selected
      hemisphere than in the opposite one. */
  function Ipsilateral(target: StructureId, sel: Side, pm: Metric): ((ExperimentId, Table)) -> bool
  {
    (e: (ExperimentId, Table)) =>
      match (ValueAt(e.1, target, sel, pm), ValueAt(e.1, target, Opposite(sel), pm))
      case (Some(here), Some(there)) => here > there
      case _ => false
  }

  /** Both `.item()` reads of the comparison succeed for every experiment. */
  ghost predicate ComparisonsKnown(target: StructureId, sel: Side, pm: Metric, s: Store)
  {
    forall i, j :: 0 <= i < |s| && 0 <= j < |s[i].1| ==>
      ValueAt(s[i].1[j].1, target, sel, pm).Some? && ValueAt(s[i].1[j].1, target, Opposite(sel), pm).Some?
  }

  /** Both `.item()` reads of the comparison succeed for every experiment of
      one area. */
  ghost predicate AreaComparisonsKnown(target: StructureId, sel: Side, pm: Metric, inner: Dict<ExperimentId, Table>)
  {
    forall j :: 0 <= j < |inner| ==>
      ValueAt(inner[j].1, target, sel, pm).Some? && ValueAt(inner[j].1, target, Opposite(sel), pm).Some?
  }

  /** One area more of a store prefix: its comparisons are known exactly
      when those of the prefix and of the area are. */
  lemma ComparisonsKnownStep(target: StructureId, sel: Side, pm: Metric, s: Store, n: nat)
    requires n < |s|
    ensures ComparisonsKnown(target, sel, pm, s[..n + 1]) <==>
      ComparisonsKnown(target, sel, pm, s[..n]) && AreaComparisonsKnown(target, sel, pm, s[n].1)
  {
    var p, q := s[..n + 1], s[..n];
    assert p[n] == s[n];
    forall i | 0 <= i < n ensures p[i] == q[i] { }
  }

  /** An area with an unknown comparison makes the whole store's unknown. */
  lemma ComparisonsUnknownAt(target: StructureId, sel: Side, pm: Metric, s: Store, n: nat)
    requires n < |s| && !AreaComparisonsKnown(target, sel, pm, s[n].1)
    ensures !ComparisonsKnown(target, sel, pm, s)
  {
    var j :| 0 <= j < |s[n].1| &&
      !(ValueAt(s[n].1[j].1, target, sel, pm).Some? && ValueAt(s[n].1[j].1, target, Opposite(sel), pm).Some?);
  }

  function TrimFor(a: StructureId, target: StructureId): (ExperimentId, Table) -> Record
  {
    (e, t) => Trimmed(t, a, target)
  }

  function ForkEntry(target: StructureId, p: ((ExperimentId, Table)) -> bool): (StructureId, Dict<ExperimentId, Table>) -> Dict<ExperimentId, Record>
  {
    (a, inner) => MapValues(Filter(p, inner), TrimFor(a, target))
  }

  /** The ipsilateral fork after stage 5. */
  function IpsiFork(target: StructureId, sel: Side, pm: Metric, s: Store): Fork
  {
    MapValues(s, ForkEntry(target, Ipsilateral(target, sel, pm)))
  }

  /** The contralateral fork after stage 5. */
  function ContraFork(target: StructureId, sel: Side, pm: Metric, s: Store): Fork
  {
    MapValues(s, ForkEntry(target, Not(Ipsilateral(target, sel, pm))))
  }

  /** Both forks get every area. */
  lemma SeparationKeys(target: StructureId, sel: Side, pm: Metric, s: Store)
    ensures Keys(IpsiFork(target, sel, pm, s)) == Keys(s)
    ensures Keys(ContraFork(target, sel, pm, s)) == Keys(s)
  {
  }

  /** In each area every experiment lands in exactly one fork: the two forks'
      experiment keys together are the area's keys, each once. */
  lemma SeparationPartition(target: StructureId, sel: Side, pm: Metric, s: Store, i: nat)
    requires i < |s|
    ensures multiset(Keys(IpsiFork(target, sel, pm, s)[i].1)) + multiset(Keys(ContraFork(target, sel, pm, s)[i].1))
         == multiset(Keys(s[i].1))
  {
    var p := Ipsilateral(target, sel, pm);
    var inner := s[i].1;
    var f := TrimFor(s[i].0, target);
    FilterSplitKeys(p, Not(p), inner);
    assert IpsiFork(target, sel, pm, s)[i].1 == MapValues(Filter(p, inner), f);
    assert ContraFork(target, sel, pm, s)[i].1 == MapValues(Filter(Not(p), inner), f);
  }

  /** An experiment's trimmed record is in the ipsilateral fork exactly when
      its metric at the target is strictly larger in the selected hemisphere,
      and in the contralateral fork otherwise (ties included). */
  lemma SeparationChoice(target: StructureId, sel: Side, pm: Metric, s: Store, i: nat, x: (ExperimentId, Table))
    requires NestedUnique(s) && i < |s| && x in s[i].1
    ensures (x.0, Trimmed(x.1, s[i].0, target)) in IpsiFork(target, sel, pm, s)[i].1 <==> Ipsilateral(target, sel, pm)(x)
    ensures (x.0, Trimmed(x.1, s[i].0, target)) in ContraFork(target, sel, pm, s)[i].1 <==> !Ipsilateral(target, sel, pm)(x)
  {
    var p := Ipsilateral(target, sel, pm);
    var inner := s[i].1;
    var f := TrimFor(s[i].0, target);
    assert IpsiFork(target, sel, pm, s)[i].1 == MapValues(Filter(p, inner), f);
    assert ContraFork(target, sel, pm, s)[i].1 == MapValues(Filter(Not(p), inner), f);
    assert f(x.0, x.1) == Trimmed(x.1, s[i].0, target);
    forall y | y in inner && y.0 == x.0 ensures y == x {
      var a :| 0 <= a < |inner| && inner[a] == x;
      var b :| 0 <= b < |inner| && inner[b] == y;
      assert inner[a].0 == inner[b].0;
    }
    MappedFilterMember(p, inner, f, x);
    MappedFilterMember(Not(p), inner, f, x);
  }

  /** An entry of a unique-keyed dictionary survives a filter-and-map in its
      mapped form exactly when it passes the filter. */
  lemma MappedFilterMember<K, V, W>(p: ((K, V)) -> bool, d: Dict<K, V>, f: (K, V) -> W, x: (K, V))
    requires x in d
    ensures p(x) ==> (x.0, f(x.0, x.1)) in MapValues(Filter(p, d), f)
    ensures (x.0, f(x.0, x.1)) in MapValues(Filter(p, d), f) && (forall y :: y in d && y.0 == x.0 ==> y == x) ==> p(x)
  {
    var r := Filter(p, d);
    var m := MapValues(r, f);
    if p(x) {
      var j :| 0 <= j < |d| && d[j] == x;
      assert x in r;
      var k :| 0 <= k < |r| && r[k] == x;
      assert m[k] == (x.0, f(x.0, x.1));
    }
    if (x.0, f(x.0, x.1)) in m && (forall y :: y in d && y.0 == x.0 ==> y == x) {
      var k :| 0 <= k < |m| && m[k] == (x.0, f(x.0, x.1));
      assert m[k] == (r[k].0, f(r[k].0, r[k].1));
      assert r[k] in d && p(r[k]);
      assert r[k] == x;
    }
  }

  /** Equal values in both hemispheres send the experiment to the
      contralateral fork. */
  lemma TieGoesContralateral(target: StructureId, sel: Side, pm: Metric, x: (ExperimentId, Table))
    requires ValueAt(x.1, target, sel, pm).Some?
    requires ValueAt(x.1, target, sel, pm) == ValueAt(x.1, target, Opposite(sel), pm)
    ensures !Ipsilateral(target, sel, pm)(x)
  {
  }

  /** The forks built from any prefix of a store keep unique keys at both
      levels. */
  lemma SeparationUnique(target: StructureId, sel: Side, pm: Metric, s: Store, n: nat)
    requires NestedUnique(s) && n <= |s|
    ensures NestedUnique(IpsiFork(target, sel, pm, s[..n]))
    ensures NestedUnique(ContraFork(target, sel, pm, s[..n]))
  {
    var p := Ipsilateral(target, sel, pm);
    var s' := s[..n];
    assert UniqueKeys(s') by {
      forall a, b | 0 <= a < b < |s'| ensures s'[a].0 != s'[b].0 {
        assert s'[a] == s[a] && s'[b] == s[b];
      }
    }
    var ipsi, contra := IpsiFork(target, sel, pm, s'), ContraFork(target, sel, pm, s');
    UniqueKeysByKeys(s', ipsi);
    UniqueKeysByKeys(s', contra);
    forall i | 0 <= i < |s'|
      ensures UniqueKeys(ipsi[i].1) && UniqueKeys(contra[i].1)
    {
      var f := TrimFor(s'[i].0, target);
      assert s'[i] == s[i];
      assert ipsi[i].1 == MapValues(Filter(p, s'[i].1), f);
      assert contra[i].1 == MapValues(Filter(Not(p), s'[i].1), f);
      FilterUniqueKeys(p, s'[i].1);
      FilterUniqueKeys(Not(p), s'[i].1);
      UniqueKeysByKeys(Filter(p, s'[i].1), ipsi[i].1);
      UniqueKeysByKeys(Filter(Not(p), s'[i].1), contra[i].1);
    }
  }

  /** One step of the area loop of stage 5. */
  lemma ForkStep(target: StructureId, p: ((ExperimentId, Table)) -> bool, s: Store, i: nat)
    requires UniqueKeys(s) && i < |s|
    ensures MapValues(s[..i + 1], ForkEntry(target, p))
         == Put(MapValues(s[..i], ForkEntry(target, p)), s[i].0, MapValues(Filter(p, s[i].1), TrimFor(s[i].0, target)))
  {
    MapValuesStep(s, ForkEntry(target, p), i);
  }

  // ---------------------------------------------------------------------
  // Stage 6: projection-volume thresholding of a fork

  /** The thresholding metric of the merged row in hemisphere `h` reaches the
      threshold. */
  function ProjectionAtLeast(h: Side, m: Metric, thr: real): StructureId -> ((ExperimentId, Record)) -> bool
  {
    a => (e: (ExperimentId, Record)) =>
      match RecordRow(e.1, h)
      case Some(row) => MetricValue(row.target, m) >= thr
      case None => false
  }

  /** Every record of the fork has exactly one merged row in hemisphere `h`. */
  ghost predicate RowsKnown(h: Side, f: Fork)
  {
    forall i, j :: 0 <= i < |f| && 0 <= j < |f[i].1| ==> RecordRow(f[i].1[j].1, h).Some?
  }

  /** A fork after stage 6, thresholded in hemisphere `h`. */
  function ProjectionThresholded(h: Side, m: Metric, thr: real, f: Fork): Fork
  {
    FilterEach(f, ProjectionAtLeast(h, m, thr))
  }

  /** Stage 6 keeps the areas, and kept records are unchanged. */
  lemma ProjectionThresholdShape(h: Side, m: Metric, thr: real, f: Fork)
    ensures Keys(ProjectionThresholded(h, m, thr, f)) == Keys(f)
    ensures NestedUnique(f) ==> NestedUnique(ProjectionThresholded(h, m, thr, f))
    ensures forall i :: 0 <= i < |f| ==> IsSubseq(ProjectionThresholded(h, m, thr, f)[i].1, f[i].1)
  {
    FilterEachShape(f, ProjectionAtLeast(h, m, thr));
  }

  /** Stage 6 keeps an experiment exactly when the thresholding metric of its
      row in hemisphere `h` is at least the threshold. */
  lemma ProjectionThresholdMember(h: Side, m: Metric, thr: real, f: Fork, i: nat, x: (ExperimentId, Record))
    requires i < |f|
    ensures x in ProjectionThresholded(h, m, thr, f)[i].1 <==>
      x in f[i].1 && RecordRow(x.1, h).Some? && MetricValue(RecordRow(x.1, h).value.target, m) >= thr
  {
    FilterEachMember(f, ProjectionAtLeast(h, m, thr), i, x);
    match RecordRow(x.1, h)
    case Some(row) =>
    case None =>
  }

  /** Through the trimmed record, stage 6 reads the target structure's row of
      the unionized table in hemisphere `h`: with one area row and one target
      row in `h`, the record passes exactly when that target row's metric is
      at least the threshold. */
  lemma ThresholdReadsTargetRow(t: Table, area: StructureId, target: StructureId, h: Side, m: Metric, thr: real, e: ExperimentId)
    requires |Filter(AtStructureIn(area, h), t)| == 1
    requires |Filter(AtStructureIn(target, h), t)| == 1
    ensures ValueAt(t, target, h, m).Some?
    ensures ProjectionAtLeast(h, m, thr)(area)((e, Trimmed(t, area, target))) <==> ValueAt(t, target, h, m).value >= thr
  {
    var r := TargetRowOfTrimmed(t, area, target, h);
    assert ValueAt(t, target, h, m) == Some(MetricValue(r.metrics, m));
    assert RecordRow(Trimmed(t, area, target), h).value.target == r.metrics;
  }

  /** The merged row in `h` of a trimmed record carries the metrics of the
      table's single target row in `h`. */
  lemma TargetRowOfTrimmed(t: Table, area: StructureId, target: StructureId, h: Side) returns (r: Row)
    requires |Filter(AtStructureIn(area, h), t)| == 1
    requires |Filter(AtStructureIn(target, h), t)| == 1
    ensures Filter(AtStructureIn(target, h), t) == [r]
    ensures RecordRow(Trimmed(t, area, target), h).Some?
    ensures RecordRow(Trimmed(t, area, target), h).value.target == r.metrics
  {
    var l := Filter(AtStructureIn(area, h), t)[0];
    r := Filter(AtStructureIn(target, h), t)[0];
    assert Filter(AtStructureIn(area, h), t) == [l];
    assert Filter(AtStructureIn(target, h), t) == [r];
    TrimmedInHemisphere(t, area, target, h, l, r);
  }

  // ---------------------------------------------------------------------
  // Weighted centroids of a fork

  /** `[x, y, z, metric]` of the record's merged row in hemisphere `h`. */
  function SampleOf(rec: Record, h: Side, pm: Metric): (s: Option<Sample>)
    ensures s.Some? <==> |Filter(MergedIn(h), rec)| == 1
    ensures s.Some? ==>
      exists k :: 0 <= k < |rec| && rec[k].hemisphereId == h &&
        s.value == Sample(rec[k].maxVoxelX, rec[k].maxVoxelY, rec[k].maxVoxelZ, MetricValue(rec[k].target, pm))
  {
    match RecordRow(rec, h)
    case Some(row) => Some(Sample(row.maxVoxelX, row.maxVoxelY, row.maxVoxelZ, MetricValue(row.target, pm)))
    case None => None
  }

  /** The `coordinates` list of one area, in the order of its experiments;
      None when some record has no single row in `h`. */
  function SamplesOf(inner: Dict<ExperimentId, Record>, h: Side, pm: Metric): (r: Option<seq<Sample>>)
    ensures r.Some? <==> forall j :: 0 <= j < |inner| ==> SampleOf(inner[j].1, h, pm).Some?
    ensures r.Some? ==> |r.value| == |inner| && forall j :: 0 <= j < |inner| ==> r.value[j] == SampleOf(inner[j].1, h, pm).value
    decreases |inner|
  {
    if inner == [] then Some([])
    else
      var rest := SamplesOf(inner[..|inner| - 1], h, pm);
      var last := SampleOf(inner[|inner| - 1].1, h, pm);
      if rest.Some? && last.Some? then Some(rest.value + [last.value]) else None
  }

  /** The centroid of one area can be computed: every record has its single
      row in `h`, and a non-empty area's weights do not sum to zero. */
  predicate CentroidDefined(inner: Dict<ExperimentId, Record>, h: Side, pm: Metric)
  {
    SamplesOf(inner, h, pm).Some? &&
    (SamplesOf(inner, h, pm).value == [] || SumW(SamplesOf(inner, h, pm).value) != 0.0)
  }

  /** The centroids of a fork's areas in hemisphere `h`: areas without
      experiments get no entry; None when a record has no single row in `h`
      or an area's weights sum to zero. */
  function AreaCentroids(f: Fork, h: Side, pm: Metric): Option<CentroidTable>
    decreases |f|
  {
    if f == [] then Some([])
    else
      match AreaCentroids(f[..|f| - 1], h, pm)
      case None => None
      case Some(c) =>
        match SamplesOf(f[|f| - 1].1, h, pm)
        case None => None
        case Some(s) =>
          if s == [] then Some(c)
          else if SumW(s) == 0.0 then None
          else Some(Put(c, f[|f| - 1].0, WeightedCentroid(s)))
  }

  function HasExperiments<V>(): ((StructureId, Dict<ExperimentId, V>)) -> bool
  {
    (e: (StructureId, Dict<ExperimentId, V>)) => |e.1| > 0
  }

  /** Exactly the areas with experiments get a centroid, in fork order. */
  lemma {:induction false} AreaCentroidsKeys(f: Fork, h: Side, pm: Metric)
    requires UniqueKeys(f) && AreaCentroids(f, h, pm).Some?
    ensures Keys(AreaCentroids(f, h, pm).value) == Keys(Filter(HasExperiments(), f))
    decreases |f|
  {
    if f != [] {
      var f', last := f[..|f| - 1], f[|f| - 1];
      assert f == f' + [last];
      UniqueKeysPrefix(f, |f| - 1);
      AreaCentroidsKeys(f', h, pm);
      var c := AreaCentroids(f', h, pm).value;
      FilterSnoc(HasExperiments(), f', last);
      if |last.1| > 0 {
        var s := SamplesOf(last.1, h, pm).value;
        FreshKey(f, |f| - 1);
        assert last.0 !in Keys(c) by {
          if last.0 in Keys(c) {
            FilterKeys(HasExperiments(), f', last.0);
          }
        }
        PutNew(c, last.0, WeightedCentroid(s));
        KeysSnoc(Filter(HasExperiments(), f'), last);
        KeysSnoc(c, (last.0, WeightedCentroid(s)));
      }
    }
  }

  /** The last area of a fork has no entry yet in the table of the areas
      before it. */
  lemma CentroidKeyFresh(f: Fork, h: Side, pm: Metric)
    requires UniqueKeys(f) && f != [] && AreaCentroids(f[..|f| - 1], h, pm).Some?
    ensures f[|f| - 1].0 !in Keys(AreaCentroids(f[..|f| - 1], h, pm).value)
  {
    var f' := f[..|f| - 1];
    UniqueKeysPrefix(f, |f| - 1);
    AreaCentroidsKeys(f', h, pm);
    FreshKey(f, |f| - 1);
    if f[|f| - 1].0 in Keys(AreaCentroids(f', h, pm).value) {
      FilterKeys(HasExperiments(), f', f[|f| - 1].0);
    }
  }

  /** Every area with experiments gets the weighted centroid of its samples. */
  lemma {:induction false} AreaCentroidsEntries(f: Fork, h: Side, pm: Metric)
    requires UniqueKeys(f) && AreaCentroids(f, h, pm).Some?
    ensures forall i :: 0 <= i < |f| && |f[i].1| > 0 ==>
      SamplesOf(f[i].1, h, pm).Some? && SumW(SamplesOf(f[i].1, h, pm).value) != 0.0 &&
      (f[i].0, WeightedCentroid(SamplesOf(f[i].1, h, pm).value)) in AreaCentroids(f, h, pm).value
    decreases |f|
  {
    if f != [] {
      var f', last := f[..|f| - 1], f[|f| - 1];
      UniqueKeysPrefix(f, |f| - 1);
      AreaCentroidsEntries(f', h, pm);
      var c := AreaCentroids(f', h, pm).value;
      var r := AreaCentroids(f, h, pm).value;
      if |last.1| > 0 {
        CentroidKeyFresh(f, h, pm);
        PutNew(c, last.0, WeightedCentroid(SamplesOf(last.1, h, pm).value));
      }
      assert forall e :: e in c ==> e in r;
      forall i | 0 <= i < |f| - 1 ensures f'[i] == f[i] {
      }
    }
  }

  /** A failure in some area is a failure of the whole computation. */
  lemma {:induction false} AreaCentroidsFailure(f: Fork, h: Side, pm: Metric, i: nat)
    requires i <= |f| && AreaCentroids(f[..i], h, pm).None?
    ensures AreaCentroids(f, h, pm).None?
    decreases |f|
  {
    if i < |f| {
      assert f[..|f| - 1][..i] == f[..i];
      AreaCentroidsFailure(f[..|f| - 1], h, pm, i);
    } else {
      assert f[..i] == f;
    }
  }

  /** One step of the area loop of `compute_weighted_centroids`. */
  lemma AreaCentroidsStep(f: Fork, h: Side, pm: Metric, i: nat)
    requires i < |f|
    ensures AreaCentroids(f[..i + 1], h, pm) ==
      match AreaCentroids(f[..i], h, pm)
      case None => None
      case Some(c) =>
        match SamplesOf(f[i].1, h, pm)
        case None => None
        case Some(s) =>
          if s == [] then Some(c)
          else if SumW(s) == 0.0 then None
          else Some(Put(c, f[i].0, WeightedCentroid(s)))
  {
    assert f[..i + 1][..i] == f[..i];
  }

  /** An area whose samples are all known and whose weights do not sum to
      zero extends the centroid table of the areas before it. */
  lemma AreaCentroidsNext(f: Fork, h: Side, pm: Metric, i: nat, c: CentroidTable)
    requires i < |f| && AreaCentroids(f[..i], h, pm) == Some(c)
    requires SamplesOf(f[i].1, h, pm).Some?
    requires SamplesOf(f[i].1, h, pm).value == [] || SumW(SamplesOf(f[i].1, h, pm).value) != 0.0
    ensures AreaCentroids(f[..i + 1], h, pm) == Some(
      if SamplesOf(f[i].1, h, pm).value == [] then c
      else Put(c, f[i].0, WeightedCentroid(SamplesOf(f[i].1, h, pm).value)))
  {
    AreaCentroidsStep(f, h, pm, i);
  }

  /** An area with an unknown sample, or with samples whose weights sum to
      zero, makes the whole computation fail. */
  lemma AreaCentroidsStop(f: Fork, h: Side, pm: Metric, i: nat)
    requires i < |f| && AreaCentroids(f[..i], h, pm).Some?
    requires SamplesOf(f[i].1, h, pm).None? ||
      (SamplesOf(f[i].1, h, pm).value != [] && SumW(SamplesOf(f[i].1, h, pm).value) == 0.0)
    ensures AreaCentroids(f, h, pm).None?
  {
    AreaCentroidsStep(f, h, pm, i);
    AreaCentroidsFailure(f, h, pm, i + 1);
  }

  /** One turn of the loop over a fork: when the area's centroid is defined,
      the table of the areas so far gains it (or stays as it is for an empty
      area); otherwise the whole fork fails. */
  lemma AreaCentroidsAdvance(f: Fork, h: Side, pm: Metric, i: nat, c: CentroidTable, centroid: Option<Centroid>)
    requires i < |f| && AreaCentroids(f[..i], h, pm) == Some(c)
    requires CentroidDefined(f[i].1, h, pm) ==> centroid.None? == (f[i].1 == [])
    requires CentroidDefined(f[i].1, h, pm) && f[i].1 != [] ==> centroid == Some(WeightedCentroid(SamplesOf(f[i].1, h, pm).value))
    ensures CentroidDefined(f[i].1, h, pm) ==>
      AreaCentroids(f[..i + 1], h, pm) == Some(if centroid.Some? then Put(c, f[i].0, centroid.value) else c)
    ensures !CentroidDefined(f[i].1, h, pm) ==> AreaCentroids(f, h, pm).None?
  {
    if CentroidDefined(f[i].1, h, pm) {
      AreaCentroidsNext(f, h, pm, i, c);
    } else {
      AreaCentroidsStop(f, h, pm, i);
    }
  }

  /** With positive weights and coordinates bounded on an axis, every centroid
      of the fork lies within the same bounds on that axis. */
  lemma CentroidsWithinBounds(f: Fork, h: Side, pm: Metric, i: nat, a: Axis, lo: int, hi: int)
    requires i < |f| && |f[i].1| > 0 && SamplesOf(f[i].1, h, pm).Some?
    requires forall j :: 0 <= j < |f[i].1| ==>
      SampleOf(f[i].1[j].1, h, pm).value.w > 0.0 && lo <= Coord(SampleOf(f[i].1[j].1, h, pm).value, a) <= hi
    ensures SumW(SamplesOf(f[i].1, h, pm).value) > 0.0
    ensures lo <= CentroidCoord(WeightedCentroid(SamplesOf(f[i].1, h, pm).value), a) <= hi
  {
    var s := SamplesOf(f[i].1, h, pm).value;
    CentroidWithinBounds(s, a, lo, hi);
  }
}
