# Allen connectivity experiment curation: a Dafny model

This project models the experiment-curation pipeline of the class
`AllenConnectivity` (`connectivity/AllenDataClasses.py`). The pipeline picks
anterograde tracing experiments for one target brain structure, in fixed
stages:

1. It builds a registry that maps each area of the structure set to the ids
   of the metadata experiments injected in that area.
2. It drops experiments whose injection structures include the target.
3. It keeps the experiments injected in the configured hemisphere, with the
   hemisphere read off the injection's peak-voxel z coordinate.
4. It loads each experiment's unionized table.
5. It drops experiments with a zero projection value at the target.
6. It drops experiments whose injection volume is below a threshold.
7. It splits the experiments into an ipsilateral and a contralateral fork.
   Each experiment gets a trimmed record: the area's coordinates joined
   with the target's metrics by hemisphere.
8. It thresholds each fork on a projection metric.
9. It computes, per area and fork, a projection-weighted centroid of the
   injection coordinates.

Modules:

- `Collections` (`collections.dfy`): Python dictionaries as ordered
  association lists `seq<(K, V)>`.
  - Dictionary comprehension is `FromKeys`; a later duplicate key keeps the
    first position.
  - `d[k] = v` is `Put`.
  - pandas `.item()` is `Item`: a value only when exactly one element exists.
  - Also list filtering and subsequences.
- `Unionize` (`unionize.dfy`): unionized rows and tables. It also holds:
  - the hemisphere rule;
  - the injection volume;
  - the `.item()` lookups of one metric;
  - the trimmed record built by `merge(on='hemisphere_id')`.
- `ExperimentLists` (`experiment_lists.dfy`): the registry, overlap
  removal, hemisphere selection (including the pop-while-iterating
  loop exactly as written) and the loading of tables.
- `Curation` (`curation.dfy`): the remaining stages as functions on nested
  dictionaries. Covers zero QC, injection-volume thresholding, the
  ipsilateral/contralateral split, projection-volume thresholding, and the
  per-area centroid tables.
- `Centroids` (`centroid.dfy`): `xyz_weighted_centroid`. It truncates the
  weighted means toward zero, as Python's `int()` does.
- `Connectivity` (`allen_connectivity.dfy`): the class `AllenConnectivity`.
  - Its fields are the dictionaries that the stage methods reassign.
  - Each stage method's loops are proved against the specification functions
    above.
  - A stage whose `.item()` lookup or division would raise returns
    `ok == false`. So do two stages whose remote query came back empty,
    because pandas then builds a frame without columns:
    - hemisphere selection, where reading `max_voxel_z` of an empty
      injection query raises;
    - zero QC, where reading `structure_id` of an empty stored table raises.
      The table was written without columns and read back that way.

The remote injection-only query (`RMAUnionizedData`) and the stored
unionized tables are constructor parameters of function type. The
configuration values, the metadata table and the structure set are
constructor parameters as well.

## Model

| member | source | states |
|---|---|---|
| Unionize.Opposite | connectivity/AllenDataClasses.py:250 | `[2,1][h-1]` maps a selectable hemisphere to the other one, never to itself |
| Unionize.OppositeInvolution | connectivity/AllenDataClasses.py:250 | taking the opposite hemisphere twice gives back the hemisphere |
| Unionize.ArgMaxVolume | connectivity/AllenDataClasses.py:154 | `idxmax` on volume: a row of largest volume, and the first such row |
| Unionize.HemisphereFromZ | connectivity/AllenDataClasses.py:141-158 | the hemisphere is 0, 1 or 2, and it is 0 exactly when there are no rows (a frame that keeps its columns) |
| Unionize.HemisphereRule | connectivity/AllenDataClasses.py:151-158 | with rows, the z of the first maximal-volume row decides: below 5700 gives 1, otherwise 2; a single distinct z decides directly |
| Unionize.HemisphereBoundary | connectivity/AllenDataClasses.py:157-158 | z exactly 5700 gives hemisphere 2 |
| Unionize.CheckHemisphere | connectivity/AllenDataClasses.py:160-173 | fails exactly when the injection query returns no rows (the frame then has no `max_voxel_z` column); otherwise 1 or 2, and 1 exactly when the chosen z is below the boundary |
| Unionize.InjectionVolume | connectivity/AllenDataClasses.py:222-226 | a volume exactly when one row lies in the derived hemisphere; it is that row's volume; no rows give failure |
| Unionize.ValueAt | connectivity/AllenDataClasses.py:257 | a value exactly when one row matches both structure and hemisphere; it is that row's metric |
| Unionize.JoinRow | connectivity/AllenDataClasses.py:259-265 | one merged row per matching right row, each in the left row's hemisphere |
| Unionize.MergeInHemisphere | connectivity/AllenDataClasses.py:259-265 | the merged rows of hemisphere h are the merge of the two sides' rows of hemisphere h |
| Unionize.TrimmedInHemisphere | connectivity/AllenDataClasses.py:259-265 | one area row and one target row in h give exactly one trimmed row in h, with the area's coordinates and the target's metrics |
| Unionize.RecordRow | connectivity/AllenDataClasses.py:284 | a row exactly when the record has one row in the hemisphere; that row is in the record |
| ExperimentLists.RegistryShape | connectivity/AllenDataClasses.py:41 | one key per structure-set area, in first-occurrence order; each list is exactly that area's metadata ids |
| ExperimentLists.AreaIdsMember | connectivity/AllenDataClasses.py:41 | an id is in an area's list iff a metadata row with that id has that structure-id |
| ExperimentLists.AreaIdsInOrder | connectivity/AllenDataClasses.py:41 | each area's list is a subsequence of the metadata ids in row order |
| ExperimentLists.IdsSubseq | connectivity/AllenDataClasses.py:41 | the ids of a filtered metadata table are a subsequence of all ids |
| ExperimentLists.AreaWithoutExperiments | connectivity/AllenDataClasses.py:41 | an area with no metadata rows keeps an empty list |
| ExperimentLists.InjectionStructures | connectivity/AllenDataClasses.py:86-88 | a structure list exactly when one metadata row has the id; it is that row's injection structures |
| ExperimentLists.OverlapPartition | connectivity/AllenDataClasses.py:81-96 | area keys unchanged; each new list is an ordered sublist; kept plus removed is the old list as a multiset; kept iff no overlap; when every experiment has its metadata row, kept iff the target is not among its injection structures |
| ExperimentLists.OverlapExample | connectivity/AllenDataClasses.py:81-96 | of experiments 1, 2, 3 in area 100, only 2 injects target 385, so `[1, 3]` remain |
| ExperimentLists.SweepFromSubseq | connectivity/AllenDataClasses.py:188-192 | the list left by the popping loop is a subsequence of the list it started from |
| ExperimentLists.SweepFromConserves | connectivity/AllenDataClasses.py:188-192 | the popping loop loses nothing: kept plus removed equals the start plus the earlier removals, as a multiset |
| ExperimentLists.SweepFromRemovedFail | connectivity/AllenDataClasses.py:191-192 | every popped experiment's hemisphere differs from the selected one |
| ExperimentLists.SweepProperties | connectivity/AllenDataClasses.py:186-192 | per area: kept is a subsequence of the input, kept and removed partition it, every removed experiment failed the test |
| ExperimentLists.SweepFromKeepsAll | connectivity/AllenDataClasses.py:188-192 | when every remaining experiment passes, the loop removes nothing |
| ExperimentLists.SweepSkipsSuccessor | connectivity/AllenDataClasses.py:189-192 | in `[a, b]` with a failing `a`, `b` is never examined and survives whatever its hemisphere |
| ExperimentLists.HemispheresKnownAll | connectivity/AllenDataClasses.py:188-192 | the sweep of an area runs to its end when every listed experiment has injection rows there |
| ExperimentLists.HemispheresUnknownAt | connectivity/AllenDataClasses.py:189-191 | the sweep fails when it reaches, with nothing popped before, an experiment whose injection query is empty |
| ExperimentLists.HemispheresKnownSkipsSuccessor | connectivity/AllenDataClasses.py:189-192 | in `[x, y]` with `x` popped, `y` is never queried, so an empty answer for `y` does not stop the sweep |
| ExperimentLists.SelectionShape | connectivity/AllenDataClasses.py:186-199 | area keys unchanged; each new list is a subsequence of the old one; every dropped experiment's derived hemisphere differs from the selected one |
| ExperimentLists.LoadedShape | connectivity/AllenDataClasses.py:102-114 | the store has the registry's areas; each area has its experiments once each, in list order, with each experiment's own table |
| Curation.HasZeroMeaning | connectivity/AllenDataClasses.py:212 | the QC test fails iff some row at the target has the primary metric exactly 0 |
| Curation.NoTargetRowsPass | connectivity/AllenDataClasses.py:212 | a table with no rows at the target is not flagged by the zero test |
| Curation.ZeroQCShape | connectivity/AllenDataClasses.py:202-220 | area keys unchanged, unique keys kept, and each area's dict an ordered sub-dict of the input |
| Curation.ZeroQCMember | connectivity/AllenDataClasses.py:209-216 | an input entry, table unchanged, survives QC iff it has no zero at the target |
| Curation.LoadedTablesPresent | connectivity/AllenDataClasses.py:102-114 | the loaded store has all its tables exactly when every registered experiment's download at its area has rows |
| Curation.VolumeThresholdShape | connectivity/AllenDataClasses.py:228-242 | area keys unchanged, unique keys kept, and each area's dict an ordered sub-dict of the input |
| Curation.VolumeThresholdMember | connectivity/AllenDataClasses.py:233-240 | an entry survives iff its injection volume is at least the threshold (inclusive) |
| Curation.SeparationKeys | connectivity/AllenDataClasses.py:252-254 | both forks get every area key, in order |
| Curation.SeparationPartition | connectivity/AllenDataClasses.py:255-265 | within an area, the two forks' experiment keys together are the input's keys, each once |
| Curation.SeparationChoice | connectivity/AllenDataClasses.py:257-265 | an experiment's trimmed record is ipsilateral iff the target metric is strictly larger in the selected hemisphere, and contralateral otherwise |
| Curation.TieGoesContralateral | connectivity/AllenDataClasses.py:257 | equal values in both hemispheres send the experiment to the contralateral fork |
| Curation.ComparisonsUnknownAt | connectivity/AllenDataClasses.py:252-257 | one area holding an experiment whose comparison cannot be read makes the whole separation fail |
| Curation.SeparationUnique | connectivity/AllenDataClasses.py:252-265 | forks built from any prefix of the store keep unique keys at both levels |
| Curation.ProjectionThresholdShape | connectivity/AllenDataClasses.py:276-298 | area keys unchanged, unique keys kept, and each area's dict an ordered sub-dict of the input fork |
| Curation.ProjectionThresholdMember | connectivity/AllenDataClasses.py:281-293 | an entry survives iff its row in the fork's hemisphere has the thresholding metric at least the threshold |
| Curation.ThresholdReadsTargetRow | connectivity/AllenDataClasses.py:284-285 | with one area row and one target row in h, the threshold test reads the target row's metric in h |
| Curation.TargetRowOfTrimmed | connectivity/AllenDataClasses.py:259-265 | with one area row and one target row in h, the record's row in h carries the target row's metrics |
| Curation.SampleOf | connectivity/AllenDataClasses.py:331 | a sample exactly when the record has one row in h; it is that row's x, y, z and projection metric |
| Curation.SamplesOf | connectivity/AllenDataClasses.py:331 | the coordinates list of an area: one sample per experiment in order, or failure when any sample fails |
| Curation.AreaCentroidsKeys | connectivity/AllenDataClasses.py:330-341 | exactly the areas with experiments get a centroid, in fork order |
| Curation.AreaCentroidsEntries | connectivity/AllenDataClasses.py:330-341 | every area with experiments gets the weighted centroid of its own samples |
| Curation.AreaCentroidsFailure | connectivity/AllenDataClasses.py:330-341 | a failure in any area fails the whole computation |
| Curation.AreaCentroidsAdvance | connectivity/AllenDataClasses.py:330-341 | one loop turn: an area whose centroid is defined extends the table of the areas before it (unchanged for an empty area); an area whose centroid is undefined fails the whole fork |
| Curation.CentroidsWithinBounds | connectivity/AllenDataClasses.py:319-334 | with positive weights, each area centroid coordinate lies within the bounds of its samples' coordinates |
| Centroids.Trunc | connectivity/AllenDataClasses.py:320 | `int()` truncates toward zero: floor for non-negative values, ceiling for negative ones |
| Centroids.TruncTowardZero | connectivity/AllenDataClasses.py:320 | `int(7.5) == 7`, `int(-2.5) == -2`, `int(-3.0) == -3` |
| Centroids.SumWPositive | connectivity/AllenDataClasses.py:319 | positive weights give a positive denominator |
| Centroids.SumCWLower | connectivity/AllenDataClasses.py:320 | with positive weights, the weighted coordinate sum is at least the lower bound times the weight sum |
| Centroids.SumCWUpper | connectivity/AllenDataClasses.py:320 | with positive weights, the weighted coordinate sum is at most the upper bound times the weight sum |
| Centroids.CentroidWithinBounds | connectivity/AllenDataClasses.py:303-322 | with positive weights, each centroid coordinate lies between the smallest and largest sample coordinate bounds |
| Centroids.MeanCoordWithin | connectivity/AllenDataClasses.py:320 | the truncated weighted mean of bounded coordinates stays within the bounds |
| Centroids.OneAxis | connectivity/AllenDataClasses.py:320 | one sample's weighted mean on an axis is its own coordinate |
| Centroids.SumWBounds | connectivity/AllenDataClasses.py:319 | weights within bounds give a weight sum within n times those bounds |
| Centroids.AverageWeightWithinBounds | connectivity/AllenDataClasses.py:320 | the average projection `denom / len` lies within the bounds of the weights |
| Centroids.CentroidOfOne | connectivity/AllenDataClasses.py:303-322 | a single sample gives back its own coordinates and weight |
| Centroids.CentroidExample | connectivity/AllenDataClasses.py:319-320 | samples (0,0,0) with weight 1 and (10,0,0) with weight 3 give `[7, 0, 0, 2.0]` |
| Connectivity.AllenConnectivity.constructor | connectivity/AllenDataClasses.py:12-45 | stores the configuration and data sources; the registry is built from the metadata and structure set; other dictionaries start empty |
| Connectivity.AllenConnectivity.RetainedExperiments | connectivity/AllenDataClasses.py:83-90 | succeeds iff every experiment has one metadata row; then the kept list is the ordered non-overlapping experiments |
| Connectivity.AllenConnectivity.RemoveOverlap | connectivity/AllenDataClasses.py:78-91 | succeeds iff every experiment of the registry is known; then the result is the overlap-removed registry |
| Connectivity.AllenConnectivity.RemoveInjectionTargetOverlapAreas | connectivity/AllenDataClasses.py:74-96 | on success the registry is the overlap-removed one; on failure it is unchanged |
| Connectivity.AllenConnectivity.SweepArea | connectivity/AllenDataClasses.py:188-192 | the popping loop over one area succeeds exactly when every experiment it reads has injection rows, and then yields exactly the kept and removed lists of the sweep specification |
| Connectivity.AllenConnectivity.SelectHemisphere | connectivity/AllenDataClasses.py:186-192 | succeeds exactly when every area's sweep runs to its end; the result is then the hemisphere-selected registry, with unique keys |
| Connectivity.AllenConnectivity.SelectByHemisphere | connectivity/AllenDataClasses.py:175-200 | succeeds exactly when every area's sweep runs to its end; the registry then becomes the hemisphere-selected registry, and on failure it is unchanged |
| Connectivity.AllenConnectivity.LoadArea | connectivity/AllenDataClasses.py:109-113 | the area's dict maps each experiment, once, to its own stored table |
| Connectivity.AllenConnectivity.Load | connectivity/AllenDataClasses.py:106-113 | the store is the loaded store of the registry, unique at both levels |
| Connectivity.AllenConnectivity.LoadUnionizedData | connectivity/AllenDataClasses.py:102-114 | the unionized data becomes the loaded store of the registry |
| Connectivity.AllenConnectivity.QCArea | connectivity/AllenDataClasses.py:210-216 | succeeds exactly when every table of the area has rows; then the area's dict is reduced to the experiments passing QC, in order |
| Connectivity.AllenConnectivity.QC | connectivity/AllenDataClasses.py:208-218 | succeeds exactly when every stored table has rows; the result is then the zero-QC store, unique at both levels |
| Connectivity.AllenConnectivity.ZeroProjectionQC | connectivity/AllenDataClasses.py:202-220 | succeeds exactly when every table of the freshly loaded store has rows; the unionized data then becomes the zero-QC of that store, and on failure it is the loaded store |
| Connectivity.AllenConnectivity.VolumeArea | connectivity/AllenDataClasses.py:234-238 | succeeds iff every volume lookup succeeds; then keeps the experiments at or above the threshold |
| Connectivity.AllenConnectivity.VolumeThreshold | connectivity/AllenDataClasses.py:231-240 | succeeds iff all volumes are known; then the result is the thresholded store |
| Connectivity.AllenConnectivity.InjectionVolumeThresholding | connectivity/AllenDataClasses.py:228-242 | on success the unionized data is the thresholded store; on failure it is unchanged |
| Connectivity.AllenConnectivity.SeparateArea | connectivity/AllenDataClasses.py:255-265 | succeeds iff both comparison lookups succeed for every experiment; then the two dicts are the trimmed records split by the strict comparison |
| Connectivity.AllenConnectivity.Separate | connectivity/AllenDataClasses.py:247-265 | succeeds iff all comparisons are known; the forks are those of the areas processed, which is all of them on success; on failure the next area is the first one holding an experiment with an unknown comparison |
| Connectivity.AllenConnectivity.SeparateByProjectionHemisphere | connectivity/AllenDataClasses.py:244-268 | on success the two fork fields are the ipsilateral and contralateral forks of the unionized data |
| Connectivity.AllenConnectivity.ThresholdArea | connectivity/AllenDataClasses.py:282-286 | succeeds iff every record has one row in h; then keeps the experiments whose thresholding metric reaches the threshold |
| Connectivity.AllenConnectivity.ThresholdFork | connectivity/AllenDataClasses.py:281-293 | succeeds iff every record has one row in h; then the result is the thresholded fork |
| Connectivity.AllenConnectivity.ProjectionVolumeThresholding | connectivity/AllenDataClasses.py:270-301 | the ipsilateral fork is read in the selected hemisphere and the contralateral fork in the opposite one; both are replaced on success, neither on failure |
| Connectivity.AllenConnectivity.AreaCentroid | connectivity/AllenDataClasses.py:331-333 | no centroid for an empty area, otherwise the weighted centroid; fails on an unknown sample or a zero weight sum |
| Connectivity.AllenConnectivity.ForkCentroids | connectivity/AllenDataClasses.py:330-341 | on success the table is the fork's centroid table; on failure the computation fails, the table is that of the areas processed, and the next area is the one on which it fails |
| Connectivity.AllenConnectivity.ComputeWeightedCentroids | connectivity/AllenDataClasses.py:324-342 | succeeds iff both forks' centroid tables exist; then both fields hold them |

## Left out

- Remote queries (`RMAUnionizedData`, `RMAStructure`, `RMAStructureSet`): modelled as function parameters. The target id, the metadata table and the structure set are constructor arguments.
- Configuration and file I/O: modelled as constructor arguments. This covers `parse_config` (JSON), reading the metadata CSV, reading the unionized CSVs in `load_unionized_data` (a function parameter), `download_unionized_data` and `mkdir`.
- Pickles: the `read_experiment_list` branch of `select_by_hemisphere` and the pickle it writes are left out. The model always computes the selection.
- `save_centroids` writes files only, so it is left out.
- `areas_experiments_cross_check`, the prints and the progress bars are output only, so they are left out.
- Injection structures are stored as JSON text in the metadata; the model holds them as a list of ids.
- Floating point: volumes, metrics, thresholds and centroid means are exact reals. No IEEE rounding is modelled.
- Column names: metric columns form an enumeration, so a missing metric column (a Python `KeyError`) cannot occur. A remote query that comes back empty gives a frame without columns. That case is modelled as a failure: for the injection query in hemisphere selection (`CheckHemisphere`) and in injection-volume thresholding (`InjectionVolume`), and for a downloaded table, which is stored and read back without a `structure_id` column, in zero QC (`QC`). A table with columns but no rows is not distinguished from one without columns; the remote service gives either rows or nothing.
- `hemisphere_id_to_select` is restricted to 1 and 2. The source would index `[2,1]` with any other value.
- `get_hemisphere_from_z_coordinate` and `xyz_weighted_centroid` are defined without `self` but called through `self`. They are modelled as free functions (`HemisphereFromZ`, `WeightedCentroid`), as intended.
- `projection_volume_thresholding` iterates `self..._unionized_data.keys` without calling it. The model iterates the keys, as intended.
- Projection-volume thresholding filters the trimmed record on `structure_id` and on the thresholding metric. The trimmed record has no `structure_id` column, and it carries only the projection metric. The model's trimmed record carries all of the target row's metrics, and the model selects the record's row by hemisphere alone, as intended.
- Connectivity.AllenConnectivity.SeparateByProjectionHemisphere: on failure the source has already put the failing area's partly filled dicts into the forks. The model promises nothing about the fork fields after a failure. `Separate` says they hold the areas before the failing one.
- Connectivity.AllenConnectivity.ComputeWeightedCentroids: on failure the source leaves partly filled centroid dicts. The model promises nothing about them after a failure. `ForkCentroids` says they hold the areas before the failing one.
- The printed lists of removed experiments are output only. Their content is stated by ExperimentLists.OverlapPartition and ExperimentLists.SweepProperties.
- Plotting, viewers, the gene-expression and 10x scripts, and the other SDK scripts are not part of this model.
