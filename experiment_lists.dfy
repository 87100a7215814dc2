/**
 * The early stages of the curation pipeline, which work on
 * `experiment_list`: a dictionary from brain-area id to the ids of the
 * experiments injected in that area.
 *
 *  - the registry built from the experiment metadata table;
 *  - stage 1, removal of experiments whose injection structures include the
 *    target structure;
 *  - stage 2, selection by injection hemisphere, with the list mutated while
 *    it is being iterated;
 *  - the switch to unionized tables (`load_unionized_data`).
 */
module ExperimentLists {
  import opened Collections
  import opened Unionize

  /** One row of the experiment metadata table: `id`, `structure-id` and the
      ids listed in `injection-structures`. */
  datatype MetadataRow = MetadataRow(
    id: ExperimentId,
    structureId: StructureId,
    injectionStructures: seq<StructureId>)

  type Metadata = seq<MetadataRow>

  /** `experiment_list`: area id to experiment ids. */
  type Registry = Dict<StructureId, seq<ExperimentId>>

  /** `unionized_data`: area id to experiment id to unionized table. */
  type Store = Dict<StructureId, Dict<ExperimentId, Table>>

  // ---------------------------------------------------------------------
  // The registry

  function InArea(a: StructureId): MetadataRow -> bool
  {
    (m: MetadataRow) => m.structureId == a
  }

  /** The id column (`df['id']`), in row order; its ensures only unfold the
      body, for the solver's benefit. */
  function Ids(rows: Metadata): (ids: seq<ExperimentId>)
    ensures |ids| == |rows|
    ensures forall i :: 0 <= i < |rows| ==> ids[i] == rows[i].id
  {
    seq(|rows|, i requires 0 <= i < |rows| => rows[i].id)
  }

  /** `list(metadata[metadata['structure-id'] == a]['id'])`. */
  function AreaIds(meta: Metadata, a: StructureId): seq<ExperimentId>
  {
    Ids(Filter(InArea(a), meta))
  }

  /** The comprehension over the structure set's ids. */
  function BuildRegistry(meta: Metadata, areas: seq<StructureId>): Registry
  {
    FromKeys(areas, a => AreaIds(meta, a))
  }

  /** One key per area of the structure set, in the order of first
      appearance, and each area's list is its metadata ids. */
  lemma RegistryShape(meta: Metadata, areas: seq<StructureId>)
    ensures Keys(BuildRegistry(meta, areas)) == Dedup(areas)
    ensures UniqueKeys(BuildRegistry(meta, areas))
    ensures forall a :: a in areas <==> a in Keys(BuildRegistry(meta, areas))
    ensures forall i :: 0 <= i < |BuildRegistry(meta, areas)| ==>
      BuildRegistry(meta, areas)[i].1 == AreaIds(meta, BuildRegistry(meta, areas)[i].0)
  {
    var r := BuildRegistry(meta, areas);
    forall a | a in Keys(r) ensures a in areas {
      var i :| 0 <= i < |Dedup(areas)| && Dedup(areas)[i] == a;
    }
    forall a | a in areas ensures a in Keys(r) {
      var i :| 0 <= i < |areas| && areas[i] == a;
    }
  }

  /** An id is in an area's list exactly when some metadata row has that id
      and that structure id. */
  lemma AreaIdsMember(meta: Metadata, a: StructureId, e: ExperimentId)
    ensures e in AreaIds(meta, a) <==> exists i :: 0 <= i < |meta| && meta[i].id == e && meta[i].structureId == a
  {
    var f := Filter(InArea(a), meta);
    if e in AreaIds(meta, a) {
      var k :| 0 <= k < |f| && AreaIds(meta, a)[k] == e;
      assert f[k] in meta;
      var i :| 0 <= i < |meta| && meta[i] == f[k];
      assert meta[i].id == e && meta[i].structureId == a;
    }
    if exists i :: 0 <= i < |meta| && meta[i].id == e && meta[i].structureId == a {
      var i :| 0 <= i < |meta| && meta[i].id == e && meta[i].structureId == a;
      assert meta[i] in f;
      var k :| 0 <= k < |f| && f[k] == meta[i];
      assert AreaIds(meta, a)[k] == e;
    }
  }

  /** The list keeps the metadata's row order: it is a subsequence of all ids. */
  lemma AreaIdsInOrder(meta: Metadata, a: StructureId)
    ensures IsSubseq(AreaIds(meta, a), Ids(meta))
  {
    FilterSubseq(InArea(a), meta);
    IdsSubseq(Filter(InArea(a), meta), meta);
  }

  lemma {:induction false} IdsSubseq(rows: Metadata, all: Metadata)
    requires IsSubseq(rows, all)
    ensures IsSubseq(Ids(rows), Ids(all))
    decreases |all|
  {
    if rows != [] {
      var all' := all[..|all| - 1];
      assert Ids(all)[..|all| - 1] == Ids(all');
      if rows[|rows| - 1] == all[|all| - 1] {
        assert Ids(rows)[..|rows| - 1] == Ids(rows[..|rows| - 1]);
        IdsSubseq(rows[..|rows| - 1], all');
      } else {
        IdsSubseq(rows, all');
        assert Ids(all) == Ids(all') + [all[|all| - 1].id];
        SubseqExtend(Ids(rows), Ids(all'), all[|all| - 1].id);
      }
    }
  }

  /** An area no metadata row names keeps an empty list. */
  lemma AreaWithoutExperiments(meta: Metadata, a: StructureId)
    requires forall i :: 0 <= i < |meta| ==> meta[i].structureId != a
    ensures AreaIds(meta, a) == []
  {
    FilterNone(InArea(a), meta);
  }

  // ---------------------------------------------------------------------
  // Stage 1: removal of experiments whose injection covers the target

  function HasId(e: ExperimentId): MetadataRow -> bool
  {
    (m: MetadataRow) => m.id == e
  }

  /** The injection structures of the single metadata row with id `e`, or
      None when there is no such row or more than one. */
  function InjectionStructures(meta: Metadata, e: ExperimentId): (r: Option<seq<StructureId>>)
    ensures r.Some? <==> |Filter(HasId(e), meta)| == 1
    ensures r.Some? ==> exists i :: 0 <= i < |meta| && meta[i].id == e && meta[i].injectionStructures == r.value
  {
    match Item(Filter(HasId(e), meta))
    case Some(m) => Some(m.injectionStructures)
    case None => None
  }

  /** Whether an experiment is retained: its injection structures do not
      include the target.  (Only asked of experiments whose metadata row is
      found.) */
  function NoOverlap(meta: Metadata, target: StructureId): ExperimentId -> bool
  {
    e => match InjectionStructures(meta, e)
         case Some(inj) => target !in inj
         case None => true
  }

  /** For an experiment with one metadata row, it is retained exactly when
      the target is not among its injection structures: the `Some` branch of
      `NoOverlap`, unfolded as a proof step for `OverlapPartition`. */
  lemma NoOverlapMeaning(meta: Metadata, target: StructureId, e: ExperimentId)
    requires InjectionStructures(meta, e).Some?
    ensures NoOverlap(meta, target)(e) <==> target !in InjectionStructures(meta, e).value
  {
  }

  /** Every experiment of the list has exactly one metadata row. */
  ghost predicate Registered(meta: Metadata, exps: seq<ExperimentId>)
  {
    forall j :: 0 <= j < |exps| ==> InjectionStructures(meta, exps[j]).Some?
  }

  lemma RegisteredStep(meta: Metadata, exps: seq<ExperimentId>, j: nat)
    requires j < |exps| && Registered(meta, exps[..j]) && InjectionStructures(meta, exps[j]).Some?
    ensures Registered(meta, exps[..j + 1])
  {
    var pre := exps[..j + 1];
    forall k | 0 <= k < |pre| ensures InjectionStructures(meta, pre[k]).Some? {
      if k < j {
        assert pre[k] == exps[..j][k];
      }
    }
  }

  /** Every experiment of the registry has exactly one metadata row. */
  ghost predicate InjectionsKnown(meta: Metadata, reg: Registry)
  {
    forall i, j :: 0 <= i < |reg| && 0 <= j < |reg[i].1| ==> InjectionStructures(meta, reg[i].1[j]).Some?
  }

  function RetainEntry(meta: Metadata, target: StructureId): (StructureId, seq<ExperimentId>) -> seq<ExperimentId>
  {
    (a, exps) => Filter(NoOverlap(meta, target), exps)
  }

  /** The registry after stage 1. */
  function OverlapRemoved(meta: Metadata, target: StructureId, reg: Registry): Registry
  {
    MapValues(reg, RetainEntry(meta, target))
  }

  /** Stage 1 keeps the area keys, and each list splits into the retained
      experiments (in their order) and the removed ones: together exactly the
      old list, the removed ones being exactly those that overlap.  When
      every experiment has its metadata row (the case in which stage 1 runs
      to its end), an experiment stays exactly when the target is not among
      its injection structures. */
  lemma OverlapPartition(meta: Metadata, target: StructureId, reg: Registry, i: nat)
    requires i < |reg|
    ensures Keys(OverlapRemoved(meta, target, reg)) == Keys(reg)
    ensures IsSubseq(OverlapRemoved(meta, target, reg)[i].1, reg[i].1)
    ensures multiset(OverlapRemoved(meta, target, reg)[i].1) + multiset(Filter(Not(NoOverlap(meta, target)), reg[i].1))
         == multiset(reg[i].1)
    ensures forall e :: e in reg[i].1 ==>
      (e in OverlapRemoved(meta, target, reg)[i].1 <==> NoOverlap(meta, target)(e))
    ensures InjectionsKnown(meta, reg) ==> forall e :: e in reg[i].1 ==>
      (e in OverlapRemoved(meta, target, reg)[i].1 <==> target !in InjectionStructures(meta, e).value)
  {
    var keep := NoOverlap(meta, target);
    var exps := reg[i].1;
    FilterSubseq(keep, exps);
    FilterSplit(keep, Not(keep), exps);
    forall e | e in exps ensures e in Filter(keep, exps) <==> keep(e) {
      var j :| 0 <= j < |exps| && exps[j] == e;
    }
    if InjectionsKnown(meta, reg) {
      forall e | e in exps ensures keep(e) <==> target !in InjectionStructures(meta, e).value {
        var j :| 0 <= j < |exps| && exps[j] == e;
        assert InjectionStructures(meta, reg[i].1[j]).Some?;
        NoOverlapMeaning(meta, target, e);
      }
    }
  }

  /** The example of one area 100 holding experiments 1, 2 and 3, where only
      experiment 2's injection reaches the target 385. */
  lemma OverlapExample()
    ensures OverlapRemoved(
      [MetadataRow(1, 100, [100]), MetadataRow(2, 100, [100, 385]), MetadataRow(3, 100, [100, 200])],
      385, [(100, [1, 2, 3])]) == [(100, [1, 3])]
  {
    var meta := [MetadataRow(1, 100, [100]), MetadataRow(2, 100, [100, 385]), MetadataRow(3, 100, [100, 200])];
    var keep := NoOverlap(meta, 385);
    ExampleLookups(meta);
    FilterOfThree(keep, 1, 2, 3);
    assert Filter(keep, [1, 2, 3]) == [1, 3];
    var out := OverlapRemoved(meta, 385, [(100, [1, 2, 3])]);
    assert |out| == 1 && out[0] == (100, Filter(keep, [1, 2, 3]));
    assert out == [(100, [1, 3])];
  }

  lemma ExampleLookups(meta: Metadata)
    requires meta == [MetadataRow(1, 100, [100]), MetadataRow(2, 100, [100, 385]), MetadataRow(3, 100, [100, 200])]
    ensures InjectionStructures(meta, 1) == Some([100])
    ensures InjectionStructures(meta, 2) == Some([100, 385])
    ensures InjectionStructures(meta, 3) == Some([100, 200])
    ensures NoOverlap(meta, 385)(1) && !NoOverlap(meta, 385)(2) && NoOverlap(meta, 385)(3)
  {
    FilterOfThree(HasId(1), meta[0], meta[1], meta[2]);
    FilterOfThree(HasId(2), meta[0], meta[1], meta[2]);
    FilterOfThree(HasId(3), meta[0], meta[1], meta[2]);
  }

  lemma FilterOfThree<T>(p: T -> bool, a: T, b: T, c: T)
    ensures Filter(p, [a, b, c]) == (if p(a) then [a] else []) + (if p(b) then [b] else []) + (if p(c) then [c] else [])
  {
    assert [] + [a] == [a] && [a] + [b] == [a, b] && [a, b] + [c] == [a, b, c];
    FilterSnoc(p, [], a);
    FilterSnoc(p, [a], b);
    FilterSnoc(p, [a, b], c);
  }

  // ---------------------------------------------------------------------
  // Stage 2: selection by injection hemisphere

  /** Whether the injection of `e` at area `a` was derived to lie in the
      selected hemisphere. */
  function InjectedIn(query: (ExperimentId, StructureId) -> Table, a: StructureId, sel: Side): ExperimentId -> bool
  {
    e => CheckHemisphere(query, e, a) == Some(sel)
  }

  /** The list left behind and the popped experiments. */
  datatype Swept = Swept(kept: seq<ExperimentId>, removed: seq<ExperimentId>)

  /** The area loop of `select_by_hemisphere`, from the list iterator's
      position `i` on: the iterator reads `lst[i]` and advances; an
      experiment that fails the test is popped at the position of its first
      occurrence (`exps.index(e)`), so the list shrinks under the iterator
      and the element that moves into position `i` is never read. */
  function SweepFrom(keep: ExperimentId -> bool, lst: seq<ExperimentId>, i: nat, removed: seq<ExperimentId>): Swept
    decreases |lst| + 1 - i
  {
    if i >= |lst| then Swept(lst, removed)
    else if keep(lst[i]) then SweepFrom(keep, lst, i + 1, removed)
    else
      var k := IndexOf(lst, lst[i]);
      SweepFrom(keep, lst[..k] + lst[k + 1..], i + 1, removed + [lst[k]])
  }

  function Sweep(keep: ExperimentId -> bool, lst: seq<ExperimentId>): Swept
  {
    SweepFrom(keep, lst, 0, [])
  }

  /** The list left behind is a subsequence of the list swept over. */
  lemma {:induction false} SweepFromSubseq(keep: ExperimentId -> bool, lst: seq<ExperimentId>, i: nat, removed: seq<ExperimentId>)
    ensures IsSubseq(SweepFrom(keep, lst, i, removed).kept, lst)
    decreases |lst| + 1 - i
  {
    if i >= |lst| {
      SubseqRefl(lst);
    } else if keep(lst[i]) {
      SweepFromSubseq(keep, lst, i + 1, removed);
    } else {
      var k := IndexOf(lst, lst[i]);
      var lst' := lst[..k] + lst[k + 1..];
      SweepFromSubseq(keep, lst', i + 1, removed + [lst[k]]);
      SubseqDelete(lst, k);
      SubseqTrans(SweepFrom(keep, lst', i + 1, removed + [lst[k]]).kept, lst', lst);
    }
  }

  /** Nothing is lost or invented: what is left plus what was popped is the
      list swept over plus what had been popped before. */
  lemma {:induction false} SweepFromConserves(keep: ExperimentId -> bool, lst: seq<ExperimentId>, i: nat, removed: seq<ExperimentId>)
    ensures multiset(SweepFrom(keep, lst, i, removed).kept) + multiset(SweepFrom(keep, lst, i, removed).removed)
         == multiset(lst) + multiset(removed)
    decreases |lst| + 1 - i
  {
    if i < |lst| {
      if keep(lst[i]) {
        SweepFromConserves(keep, lst, i + 1, removed);
      } else {
        var k := IndexOf(lst, lst[i]);
        var lst' := lst[..k] + lst[k + 1..];
        SweepFromConserves(keep, lst', i + 1, removed + [lst[k]]);
        DeleteConserves(lst, k, removed);
      }
    }
  }

  /** Popping position `k` onto `removed` moves one element between the two. */
  lemma DeleteConserves(lst: seq<ExperimentId>, k: nat, removed: seq<ExperimentId>)
    requires k < |lst|
    ensures multiset(lst[..k] + lst[k + 1..]) + multiset(removed + [lst[k]]) == multiset(lst) + multiset(removed)
  {
    assert lst == lst[..k] + [lst[k]] + lst[k + 1..];
  }

  /** Every popped experiment failed the hemisphere test. */
  lemma {:induction false} SweepFromRemovedFail(keep: ExperimentId -> bool, lst: seq<ExperimentId>, i: nat, removed: seq<ExperimentId>)
    requires forall j :: 0 <= j < |removed| ==> !keep(removed[j])
    ensures forall j :: 0 <= j < |SweepFrom(keep, lst, i, removed).removed| ==> !keep(SweepFrom(keep, lst, i, removed).removed[j])
    decreases |lst| + 1 - i
  {
    if i < |lst| {
      if keep(lst[i]) {
        SweepFromRemovedFail(keep, lst, i + 1, removed);
      } else {
        var k := IndexOf(lst, lst[i]);
        SweepFromRemovedFail(keep, lst[..k] + lst[k + 1..], i + 1, removed + [lst[k]]);
      }
    }
  }

  /** Stage 2 on one list: the result is a subsequence, and the list splits
      into what is left and what was popped, every popped experiment having
      failed the test. */
  lemma SweepProperties(keep: ExperimentId -> bool, lst: seq<ExperimentId>)
    ensures IsSubseq(Sweep(keep, lst).kept, lst)
    ensures multiset(Sweep(keep, lst).kept) + multiset(Sweep(keep, lst).removed) == multiset(lst)
    ensures forall j :: 0 <= j < |Sweep(keep, lst).removed| ==> !keep(Sweep(keep, lst).removed[j])
    ensures forall e :: e in lst && e !in Sweep(keep, lst).kept ==> !keep(e)
  {
    var r := Sweep(keep, lst);
    SweepFromSubseq(keep, lst, 0, []);
    SweepFromConserves(keep, lst, 0, []);
    SweepFromRemovedFail(keep, lst, 0, []);
    forall e | e in lst && e !in r.kept ensures !keep(e) {
      assert multiset(lst)[e] > 0;
      assert multiset(r.kept)[e] == 0;
      var total := multiset(r.kept) + multiset(r.removed);
      assert total == multiset(lst);
      assert total[e] == multiset(r.kept)[e] + multiset(r.removed)[e];
      assert e in multiset(r.removed);
      var j :| 0 <= j < |r.removed| && r.removed[j] == e;
    }
  }

  /** When no popped element is met, nothing changes. */
  lemma {:induction false} SweepFromKeepsAll(keep: ExperimentId -> bool, lst: seq<ExperimentId>, i: nat, removed: seq<ExperimentId>)
    requires forall j :: i <= j < |lst| ==> keep(lst[j])
    ensures SweepFrom(keep, lst, i, removed) == Swept(lst, removed)
    decreases |lst| + 1 - i
  {
    if i < |lst| {
      SweepFromKeepsAll(keep, lst, i + 1, removed);
    }
  }

  /** A failing experiment hides its successor from the test: in `[a, b]`
      with `a` failing, `b` stays whether or not it passes.  So survivors of
      stage 2 need not lie in the selected hemisphere. */
  lemma SweepSkipsSuccessor(keep: ExperimentId -> bool, a: ExperimentId, b: ExperimentId)
    requires !keep(a)
    ensures Sweep(keep, [a, b]) == Swept([b], [a])
  {
    assert IndexOf([a, b], a) == 0;
    assert [a, b][..0] + [a, b][1..] == [b];
    assert [] + [[a, b][0]] == [a];
    assert Sweep(keep, [a, b]) == SweepFrom(keep, [b], 1, [a]);
  }

  /** Whether the sweep from position `i` on gets a hemisphere for every
      experiment it reads: the experiment at the iterator is queried before
      the test, and the walk goes on as `SweepFrom` does. */
  predicate HemispheresKnownFrom(query: (ExperimentId, StructureId) -> Table, a: StructureId,
                                 keep: ExperimentId -> bool, lst: seq<ExperimentId>, i: nat)
    decreases |lst| + 1 - i
  {
    if i >= |lst| then true
    else if CheckHemisphere(query, lst[i], a).None? then false
    else if keep(lst[i]) then HemispheresKnownFrom(query, a, keep, lst, i + 1)
    else
      var k := IndexOf(lst, lst[i]);
      HemispheresKnownFrom(query, a, keep, lst[..k] + lst[k + 1..], i + 1)
  }

  /** The sweep of area `a` runs to its end. */
  predicate HemispheresKnown(query: (ExperimentId, StructureId) -> Table, a: StructureId, sel: Side, exps: seq<ExperimentId>)
  {
    HemispheresKnownFrom(query, a, InjectedIn(query, a, sel), exps, 0)
  }

  /** Stage 2 runs to its end on every area. */
  ghost predicate SelectionKnown(query: (ExperimentId, StructureId) -> Table, sel: Side, reg: Registry)
  {
    forall i :: 0 <= i < |reg| ==> HemispheresKnown(query, reg[i].0, sel, reg[i].1)
  }

  /** The sweep runs to its end when every listed experiment has injection
      rows at the area. */
  lemma {:induction false} HemispheresKnownAll(query: (ExperimentId, StructureId) -> Table, a: StructureId,
                                               keep: ExperimentId -> bool, lst: seq<ExperimentId>, i: nat)
    requires forall e :: e in lst ==> query(e, a) != []
    ensures HemispheresKnownFrom(query, a, keep, lst, i)
    decreases |lst| + 1 - i
  {
    if i < |lst| {
      assert lst[i] in lst;
      if keep(lst[i]) {
        HemispheresKnownAll(query, a, keep, lst, i + 1);
      } else {
        var k := IndexOf(lst, lst[i]);
        var lst' := lst[..k] + lst[k + 1..];
        forall e | e in lst' ensures e in lst {
          var j :| 0 <= j < |lst'| && lst'[j] == e;
          if j < k { assert lst'[j] == lst[j]; } else { assert lst'[j] == lst[j + 1]; }
        }
        HemispheresKnownAll(query, a, keep, lst', i + 1);
      }
    }
  }

  /** The sweep fails at the first experiment without injection rows that it
      reaches with nothing popped before it. */
  lemma {:induction false} HemispheresUnknownAt(query: (ExperimentId, StructureId) -> Table, a: StructureId,
                                                keep: ExperimentId -> bool, lst: seq<ExperimentId>, i: nat, k: nat)
    requires i <= k < |lst|
    requires forall j :: i <= j < k ==> keep(lst[j])
    requires query(lst[k], a) == []
    ensures !HemispheresKnownFrom(query, a, keep, lst, i)
    decreases k - i
  {
    if i < k {
      HemispheresUnknownAt(query, a, keep, lst, i + 1, k);
    }
  }

  /** An experiment that moves under the iterator is never queried: in
      `[x, y]` with `x` popped, the sweep ends whatever `y`'s rows are. */
  lemma HemispheresKnownSkipsSuccessor(query: (ExperimentId, StructureId) -> Table, a: StructureId,
                                       keep: ExperimentId -> bool, x: ExperimentId, y: ExperimentId)
    requires query(x, a) != [] && !keep(x)
    ensures HemispheresKnownFrom(query, a, keep, [x, y], 0)
  {
    assert IndexOf([x, y], x) == 0;
    assert [x, y][..0] + [x, y][1..] == [y];
    assert HemispheresKnownFrom(query, a, keep, [x, y], 0) == HemispheresKnownFrom(query, a, keep, [y], 1);
  }

  function SelectEntry(query: (ExperimentId, StructureId) -> Table, sel: Side): (StructureId, seq<ExperimentId>) -> seq<ExperimentId>
  {
    (a, exps) => Sweep(InjectedIn(query, a, sel), exps).kept
  }

  /** The registry after stage 2. */
  function HemisphereSelected(query: (ExperimentId, StructureId) -> Table, sel: Side, reg: Registry): Registry
  {
    MapValues(reg, SelectEntry(query, sel))
  }

  /** Stage 2 keeps the area keys; each list becomes a subsequence of itself
      and loses only experiments derived to lie outside the selected
      hemisphere. */
  lemma SelectionShape(query: (ExperimentId, StructureId) -> Table, sel: Side, reg: Registry, i: nat)
    requires i < |reg|
    ensures Keys(HemisphereSelected(query, sel, reg)) == Keys(reg)
    ensures IsSubseq(HemisphereSelected(query, sel, reg)[i].1, reg[i].1)
    ensures forall e :: e in reg[i].1 && e !in HemisphereSelected(query, sel, reg)[i].1 ==>
      CheckHemisphere(query, e, reg[i].0) != Some(sel)
  {
    SweepProperties(InjectedIn(query, reg[i].0, sel), reg[i].1);
  }

  // ---------------------------------------------------------------------
  // The switch to unionized tables

  function LoadEntry(tables: (StructureId, ExperimentId) -> Table): (StructureId, seq<ExperimentId>) -> Dict<ExperimentId, Table>
  {
    (a, exps) => FromKeys(exps, TablesOf(tables, a))
  }

  /** The stored tables of one area, by experiment. */
  function TablesOf(tables: (StructureId, ExperimentId) -> Table, a: StructureId): ExperimentId -> Table
  {
    e => tables(a, e)
  }

  /** `load_unionized_data`: for each area, each of its experiments mapped to
      the table stored for it. */
  function LoadedStore(tables: (StructureId, ExperimentId) -> Table, reg: Registry): Store
  {
    MapValues(reg, LoadEntry(tables))
  }

  /** The store has the registry's areas, each area's experiments once each
      in list order, and each experiment's own table. */
  lemma LoadedShape(tables: (StructureId, ExperimentId) -> Table, reg: Registry)
    requires UniqueKeys(reg)
    ensures Keys(LoadedStore(tables, reg)) == Keys(reg)
    ensures NestedUnique(LoadedStore(tables, reg))
    ensures forall i :: 0 <= i < |reg| ==> Keys(LoadedStore(tables, reg)[i].1) == Dedup(reg[i].1)
    ensures forall i, j :: 0 <= i < |reg| && 0 <= j < |LoadedStore(tables, reg)[i].1| ==>
      LoadedStore(tables, reg)[i].1[j].1 == tables(reg[i].0, LoadedStore(tables, reg)[i].1[j].0)
  {
    var store := LoadedStore(tables, reg);
    UniqueKeysByKeys(reg, store);
    forall i | 0 <= i < |reg|
      ensures UniqueKeys(store[i].1) && Keys(store[i].1) == Dedup(reg[i].1)
      ensures forall j :: 0 <= j < |store[i].1| ==> store[i].1[j].1 == tables(reg[i].0, store[i].1[j].0)
    {
      assert store[i].1 == FromKeys(reg[i].1, e => tables(reg[i].0, e));
    }
  }
}
