# FeatureAnalysis feature tracking, modelled in Dafny

FeatureAnalysis follows solar fibrils through a time series of images. An
external tracer turns each frame into a list of features, each a list of
`(x, y)` coordinates. This project models, as pure Dafny functions over
immutable records, the repository's own logic that runs after the tracer:

- **Lifetime tracking** (`lifetime.py`). `match_frame_features` matches
  every coordinate of one frame greedily to the nearest coordinate of the
  other frame. A box pre-filter comes first, and the candidate pool
  shrinks as it goes. Each feature then votes for the feature its
  coordinates matched most often. A pair is accepted only when the two
  features vote for each other. An active/completed state machine extends,
  opens and retires tracks frame by frame.
- **Per-feature geometry** (`analysis/analysis.py`).
  - `analyze_cust` samples custom images under every coordinate.
  - `get_breadth` walks a rounded perpendicular ray across an edge mask.
  - `get_length` computes cumulative arc length.
- **The sequence matcher** (`timeseries/timeseries.py`). It converts tracer
  output into feature dictionaries, then matches every coordinate of frame
  `i` to the nearest unclaimed coordinate of frame `i - 1`, if one is
  closer than 20 pixels.
- **Tracing comparison** (`optimization/functions.py`). It groups CSV rows
  into features. It then matches manual against automatic features, either
  by centre of mass or by mean pixel distance over a shortlist of ten.
- **Lifetime statistics** (`lifetime_analysis.py`). These are the active
  lifetimes, plus the merging of completed tracks that lie close in space.
  Of two merge candidates that overlap in time and differ in distance,
  start and stop, the more distant one is dropped.
- **The analysis tab's pure parts** (`analysis/widgets.py`):
  - the list of enabled measurements;
  - the CSV loader and the saved row layout;
  - the per-key averages.

Some Python behaviour is modelled explicitly:

| Python behaviour | Modelled as |
|---|---|
| `round` rounds half to even | `Geometry.RoundHalfEven` |
| `int(float(s))` truncates toward zero | `Geometry.Trunc` |
| Subscripts wrap negative indices and raise `IndexError` outside `[-n, n)` | `Seqs.PyIndex`, `Seqs.PyGet` |
| `np.argmin` takes the first least element | `Seqs.ArgMin` |
| `max(s, key=s.count)` takes the earliest most frequent element | `Seqs.ModeIndex` |
| Dictionaries keep insertion order | sequences of entries with distinct keys |

Distances appear in two forms:
- The matchers take the distance as a parameter `dist`, because they only
  compare its values.
- Length and breadth need a real square root. They take `root` with
  `Geometry.IsSqrt(root)`.

Uncaught exceptions are `Base.Result` failures. `Base.Option` stands for
`None`.

The modules follow the source:

| Module | Source |
|---|---|
| `Base` | shared wrappers |
| `Seqs`, `Geometry` | Python and numpy primitives |
| `Features` | the feature dictionary |
| `FrameMatch`, `Tracker` | `lifetime.py` |
| `Analysis` | `analysis/analysis.py` |
| `Timeseries` | `timeseries/timeseries.py` |
| `Optimization` | `optimization/functions.py` |
| `LifetimeStats` | `lifetime_analysis.py` |
| `Widgets` | `analysis/widgets.py` |

All files are verified together, from this directory:

    dafny verify --resource-limit 2000000 --verification-time-limit 0 --warn-contradictory-assumptions *.dfy

Proofs that need many facts at once are split into small step lemmas, so
that each one fits that resource limit with or without the last flag.

## Model

| member | source | states |
|---|---|---|
| Seqs.PyIndex | lifetime.py:166-168 | A Python subscript of a length-n axis succeeds exactly for -n <= i < n, and lands on the position congruent to i modulo n. |
| Seqs.PyGet | lifetime.py:167 | `s[i]` raises exactly outside [-n, n): a non-negative index reads `s[i]`, a negative one reads from the back. |
| Seqs.FirstIndex | lifetime.py:177 | `list.index` returns a position holding the value, and no earlier position holds it. |
| Seqs.Kept | lifetime_analysis.py:23 | The positions that pass a test, in strictly increasing order: every listed position passes, and every passing position is listed. |
| Seqs.Filter | lifetime_analysis.py:23 | The result is the input read at `Kept`'s positions, so it keeps the input's order and every copy. Hence the kept elements are exactly those that pass the test. |
| Seqs.FilterCount | lifetime_analysis.py:23 | Filtering keeps every copy of a passing value and no copy of a failing one. |
| Seqs.Remove | lifetime.py:129 | `np.delete(s, np.where(s == x))` removes every copy of `x` and nothing else. The other entries keep their order: the result is the input read at the increasing positions not holding `x`. |
| Seqs.ArgMin | lifetime.py:113 | `np.argmin` returns a least element, and the first of the least elements. |
| Seqs.ModeIndex | lifetime.py:145 | `max(s, key=s.count)` returns an element no other element outnumbers, and the earliest such element. |
| Seqs.Dedup | lifetime.py:40 | `unique()` lists every value of the input once and nothing else. |
| Seqs.DedupFirstAppearance | lifetime.py:143 | `unique()` lists values in the order of their first appearance. |
| Seqs.Sort | lifetime_analysis.py:24 | `sort()` returns an ascending permutation of its input. |
| Seqs.SortedUnique | lifetime_analysis.py:24 | Two ascending sequences with the same multiset are equal, so the sort's result is determined. |
| Seqs.MeanBounds | optimization/functions.py:164 | `np.mean` of a non-empty list lies within any bounds on its values. |
| Geometry.EuclidMetric | optimization/functions.py:97 | The Euclidean distance is non-negative and symmetric, and it is zero from a point to itself. |
| Geometry.RoundHalfEven | analysis/analysis.py:84-85 | Python's `round` returns an integer at most one half away, and an even one at exactly one half. |
| Geometry.RoundHalfEvenUnique | analysis/analysis.py:143-144 | Exactly one integer meets `RoundHalfEven`'s contract, so that contract defines Python's `round` completely. |
| Geometry.Trunc | analysis/widgets.py:233 | `int()` of a float truncates toward zero: the result is the integer within distance 1 on the side of zero. |
| Geometry.TruncOfInt | analysis/widgets.py:242 | `int(float(k))` of an integral value is `k`, so a saved id reads back unchanged. |
| Features.FromTracings | timeseries/timeseries.py:59-66 | Converting tracer output stores feature k under id k, and each coordinate as a bare `{'coord': (x, y)}`. |
| Features.FromTracingsInverse | timeseries/timeseries.py:59-66 | The tracings can be read back from the converted dictionary. Its ids are exactly 0..n-1. No coordinate dictionary holds anything besides `'coord'`. |
| Features.Put | analysis/widgets.py:245 | `d[id] = v` replaces an existing key's value in place, and appends a new key at the end. |
| Features.Lookup | analysis/widgets.py:235 | `d.get(id)` finds a value exactly when the key is present. |
| Features.LookupAt | analysis/widgets.py:235 | With distinct keys, looking up an entry's own key finds that entry's value. |
| Features.PutLookup | analysis/widgets.py:245 | After `d[id] = v` the keys stay distinct and `id` holds `v`. Every other key's value is unchanged. |
| FrameMatch.Candidates | lifetime.py:104-107 | The box pre-filter keeps exactly the pool coordinates whose x and y differ from the source point by strictly less than the limit, in pool order and with their copies, so `argmin` breaks ties by pool order. |
| FrameMatch.Closest | lifetime.py:110-113 | The chosen candidate is at the least distance from the source point, and it is the first candidate at that distance. |
| FrameMatch.Assign | lifetime.py:125-126 | Every row at the source coordinate, and only those rows, receives the match id and distance. |
| FrameMatch.Visit | lifetime.py:102-129 | A source point without candidates changes nothing. Otherwise it matches the closest candidate, and the pool loses the coordinates equal to the source point. |
| FrameMatch.VisitPersistent | lifetime.py:102-129 | Every visited row is matched at least as closely as any box-close coordinate of the other frame that equals no source coordinate. |
| FrameMatch.VisitKeeps | lifetime.py:102-129 | One iteration preserves the loop invariant: the pool only shrinks, rows stay sound and uniform, and the visited rows stay persistent. |
| FrameMatch.Reset | lifetime.py:95-96 | Before the loop, every row is unmatched at distance 0.0, with its feature and position unchanged. |
| FrameMatch.MatchFrameSpec | lifetime.py:76-132 | The matcher keeps each row's feature and position, and an unmatched row keeps distance 0.0. A match is a box-close coordinate of the other frame, carrying the first feature there and its true distance. Rows at identical positions get the same match. |
| FrameMatch.MatchFrameSharesTarget | lifetime.py:129 | The matcher is not one-to-one: two features of one frame can both claim the single feature of the other frame. |
| FrameMatch.RowsOf | lifetime.py:144 | `df[df.f_num == f]`: the rows of feature f, one per row, in row order. |
| FrameMatch.RowsOfCount | lifetime.py:144 | The selection has as many rows as feature f has in the frame. |
| FrameMatch.MatchIdsOf | lifetime.py:144 | A feature's match-id list is the match id of each of that feature's rows, in row order, so it holds each id as often as the rows do. |
| FrameMatch.Votes | lifetime.py:140-152 | The vote dictionary has one entry per distinct feature, in `unique()` order, and each entry holds that feature's vote. |
| FrameMatch.VoteIsMode | lifetime.py:145 | A feature's vote is one of its match ids that no other outnumbers, and the earliest such one. `None` can win. |
| FrameMatch.Lookup | lifetime.py:157 | A vote-dictionary lookup succeeds exactly when the key is present, and then returns that key's vote. |
| FrameMatch.Agreed | lifetime.py:154-157 | A pair is accepted exactly when the key voted for the target and the target voted back for the key. A missing entry or a `None` vote rejects the key. |
| FrameMatch.AgreedInjective | lifetime.py:154-157 | No two accepted keys share a target. |
| FrameMatch.AgreedDistinct | lifetime.py:154-157 | Each key is accepted at most once. |
| Tracker.XsOf | lifetime.py:44 | The x coordinates of feature f's rows, one per row, in row order. Line 171 reads them the same way. |
| Tracker.YsOf | lifetime.py:45 | The y coordinates of feature f's rows, one per row, in row order. Line 172 reads them the same way. |
| Tracker.CoordsLockstep | lifetime.py:171-172 | A feature's x and y lists have one entry per row of that feature. |
| Tracker.Seed | lifetime.py:39-53 | Frame 0 opens one not-alive track per distinct feature, in `unique()` order. Each track starts at frame 0 holding that feature's id and that feature's frame-0 x and y lists. |
| Tracker.PrevIds | lifetime.py:159-169 | `cf_fn` holds each track's frame-(i-1) id, read with Python indexing. The first `IndexError` ends the list. |
| Tracker.PrevIdsTotal | lifetime.py:159-169 | On well-formed tracks the lookup never raises. A track opened in the current frame answers with its last id. |
| Tracker.Attach | lifetime.py:171-195 | A pair either keeps the number of tracks or appends a new alive track that begins in frame i. |
| Tracker.AttachSpec | lifetime.py:174-195 | If the key is in `cf_fn`, the first track holding it gains exactly one id, one x list and one y list and becomes alive, and no other track changes. Otherwise a new alive track with one-entry lists is appended. |
| Tracker.LinkAll | lifetime.py:154-200 | Attaching the accepted pairs adds at most one track per pair. |
| Tracker.Survivors | lifetime.py:205-220 | The tracks kept after a frame are exactly the alive ones, in their previous order, which `cf_fn.index` reads in the next frame. |
| Tracker.Retired | lifetime.py:205-215 | The completed rows gained at frame i are one row per not-alive track that began more than two frames before i, in `active` order: the k-th row holds the k-th such track's start and coordinate lists, and ends at i. |
| Tracker.RetiredSound | lifetime.py:205-215 | Every appended completed row comes from a not-alive track that spans more than two frames. |
| Tracker.ClearAlive | lifetime.py:68 | At the start of each frame every track is marked not alive, and nothing else changes. |
| Tracker.FrameStep | lifetime.py:66-220 | After a frame every track is alive. Earlier completed rows are kept, and new ones end at i and span more than two frames. |
| Tracker.Run | lifetime.py:36-220 | With no frames the run fails with `IndexError` (line 39). With an empty frame 0 and a second frame it fails with `KeyError`: the column-less `active` is indexed by `True` at line 205. Otherwise every completed track ends at a frame in 1..n-1 and spans more than two frames. |
| Tracker.RunSpans | lifetime.py:159-195 | After a successful run, every completed track holds at least one coordinate list per frame of its life. |
| Tracker.SameFrameRelink | lifetime.py:159-183 | As written, a pair is appended to a track opened earlier in the same frame, so that track holds 2 ids and the coordinates of both features for 1 frame. |
| Tracker.FrameStepExact | lifetime.py:159-220 | With the corrected lookup, one frame keeps exactly one id per frame on every track. Each track it completes holds exactly one coordinate list per frame of its life. |
| Tracker.RunExact | lifetime.py:36-220 | With the corrected lookup, after a successful run every completed track holds exactly one x list and one y list per frame from its start up to its end. |
| Analysis.Retag | analysis/analysis.py:83-95 | Re-tagging succeeds exactly when every custom image covers the pixel. The result keeps `'coord'`, has exactly the custom names as other keys, and binds each name to the image value at `[round(y), round(x)]`. |
| Analysis.RetagAll | analysis/analysis.py:83-95 | A feature re-tags exactly when all its pixels are covered. Otherwise the failure is `IndexError`. |
| Analysis.AnalyzeCust | analysis/analysis.py:78-95 | `analyze_cust` succeeds exactly when every pixel is covered, and otherwise raises `IndexError`. Each feature keeps its id and is re-tagged coordinate by coordinate. |
| Analysis.AnalyzeCustFields | analysis/analysis.py:82-95 | Afterwards, each coordinate dictionary holds exactly `'coord'` (unchanged) and the custom names, each with the sampled image value. |
| Analysis.AnalyzeCustShape | analysis/analysis.py:78-95 | `analyze_cust` changes no id and no coordinate. |
| Analysis.AnalyzeCustIdempotent | analysis/analysis.py:78-95 | Running `analyze_cust` again on its own output changes nothing. |
| Analysis.Neighbours | analysis/analysis.py:122-129 | Both neighbours are in range. They are the positions just before and just after the first occurrence of the coordinate, clamped at the ends. |
| Analysis.Perp | analysis/analysis.py:131-137 | `dp` is perpendicular to `v` and has the same length. |
| Analysis.TurningNeedsDistinctNeighbours | analysis/analysis.py:131-139 | A non-zero `mag` requires the two neighbours to be at different positions. |
| Analysis.RoundedUnit | analysis/analysis.py:139-144 | Normalising a component by `mag` and rounding half to even equals the root-free `Snap`. |
| Analysis.Direction | analysis/analysis.py:139-144 | The rounded unit perpendicular has each component in {-1, 0, 1}, and the two are not both 0. |
| Analysis.Step | analysis/analysis.py:122-144 | The walking step at a coordinate is a unit step, computed from the rounded perpendicular of the neighbour tangent. |
| Analysis.RunUnique | analysis/analysis.py:152-166 | An edge walk has exactly one outcome: its count and how it stopped are determined. |
| Analysis.Walk | analysis/analysis.py:152-157 | The walk counts consecutive non-edge cells from the start cell. It ends on an edge cell or on an index numpy rejects, with negative indices wrapping. |
| Analysis.BreadthRuns | analysis/analysis.py:149-173 | The breadth is the positive run plus the negative run when the positive walk ended on an edge. If the positive walk ran off the grid, the breadth is the positive run only. |
| Analysis.BreadthOnEdge | analysis/analysis.py:149-166 | A coordinate whose pixel is an edge has breadth 0. |
| Analysis.AddBreadth | analysis/analysis.py:113-173 | `get_breadth` changes no id or coordinate. It gives every coordinate dictionary a `'breadth'` equal to its walk breadth. |
| Analysis.LengthsAreArcLengths | analysis/analysis.py:183-199 | Each coordinate's length is the polyline arc length up to it: 0 for the first, then the previous length plus the Euclidean step. |
| Analysis.LengthsMonotone | analysis/analysis.py:183-199 | Lengths start at 0 and never decrease along a feature. |
| Analysis.RunFields | analysis/analysis.py:36-57 | After a successful `run`, each coordinate dictionary holds its coordinate, the custom names, `'breadth'` and `'length'`, and nothing else. The breadth is the walk count at that coordinate, the length is the arc length up to it, and every other custom name keeps its sampled value. |
| Analysis.AddLength | analysis/analysis.py:177-199 | `get_length` changes no id or coordinate. It gives every coordinate dictionary its `'length'`, restarting for each feature. |
| Analysis.Run | analysis/analysis.py:36-57 | The full analysis fails exactly when some pixel falls outside a custom image, and otherwise changes no id or coordinate. |
| Timeseries.Unmarked | timeseries/timeseries.py:59-66 | A freshly converted frame carries the coordinates, and no match keys. |
| Timeseries.PoolOf | timeseries/timeseries.py:102-116 | One feature's share of the pool: its eligible coordinates in coordinate order, each tagged with the feature id. In frame 0 every coordinate is eligible; otherwise only matched ones are. |
| Timeseries.LaidOutCons | timeseries/timeseries.py:101-116 | Putting one feature's share in front of the rest laid out end to end lays out all the shares. |
| Timeseries.Pool | timeseries/timeseries.py:100-116 | The pool is the features' shares laid end to end, feature by feature and each in its own order, with nothing else. So it holds exactly the eligible coordinates of the previous frame. |
| Timeseries.Close | timeseries/timeseries.py:130-133 | The filter keeps exactly the indices whose distance is below 20, in order. |
| Timeseries.Nearest | timeseries/timeseries.py:133-137 | No candidate exactly when no distance is below 20. Otherwise the result is the first close index of least distance. |
| Timeseries.NearestIsArgMin | timeseries/timeseries.py:133-137 | Filtering and then taking the argmin agrees with the overall first argmin whenever that one is close. |
| Timeseries.Without | timeseries/timeseries.py:148-149 | Popping entry k removes exactly that one entry: the entries before k stay where they are, and the later ones move up by one. |
| Timeseries.MatchMark | timeseries/timeseries.py:124-149 | A coordinate is matched exactly when some pool entry is closer than 20. A match claims the chosen entry, which leaves the pool. Claims plus the remaining pool are exactly the old pool. |
| Timeseries.MatchMarks | timeseries/timeseries.py:123-149 | A feature's coordinates keep their positions. Their claims plus the remaining pool are exactly the starting pool. |
| Timeseries.MatchFeatures | timeseries/timeseries.py:121-149 | A frame's features keep their ids and coordinates. Their claims plus the remaining pool are exactly the starting pool. |
| Timeseries.MatchFrameInjective | timeseries/timeseries.py:99-149 | The claims of a frame form a sub-multiset of the pool, so no previous coordinate is claimed more often than it occurs. Every claim is an eligible previous coordinate. |
| Timeseries.MatchSequence | timeseries/timeseries.py:92-149 | Frame 0 is left untouched, and each later frame is matched against the already matched frame before it. |
| Optimization.Parsed | optimization/functions.py:50-61 | Each row is read as `(int(float(row[0])), float(row[1]), float(row[2]))`. |
| Optimization.ReadOk | optimization/functions.py:48-61 | The reading loop keeps every row read, in order, either in an appended feature or in the current one. Features are maximal runs of equal numbers. |
| Optimization.AllGroups | optimization/functions.py:48-61 | The intended grouping: maximal runs of equal feature numbers whose coordinates, concatenated, are exactly the parsed rows. |
| Optimization.GroupsAsWrittenDropLast | optimization/functions.py:55-61 | As written, the features returned are all runs except the last. |
| Optimization.GroupsAsWrittenLoseOnlyFeature | optimization/functions.py:48-67 | As written, a one-row file yields no feature. |
| Optimization.ToLine | optimization/functions.py:63-66 | A feature's `avgx` and `avgy` are the means of its coordinates, and it starts unmatched. |
| Optimization.TracingData | optimization/functions.py:17-68 | With the last run kept, there is one unmatched line per run of rows, carrying its averages. |
| Optimization.TracingDataAsWritten | optimization/functions.py:17-68 | As written, the result is the intended lines without the last one, and nothing for an empty file. |
| Optimization.Flag | optimization/functions.py:104 | Flagging sets one line's flag and leaves every other line as it was. |
| Optimization.FlagCount | optimization/functions.py:104-105 | Flagging an unmatched line raises the matched count by exactly one. |
| Optimization.FirstMin | optimization/functions.py:99-101 | The closest-so-far loop finds nothing exactly when no value is admissible. Otherwise it returns the first admissible value of least size. |
| Optimization.Pick | optimization/functions.py:93-101 | A manual line claims an unmatched auto within the distance limit that no other unmatched auto within the limit beats, and every earlier admissible auto is strictly farther (the strict `<`). It claims nothing exactly when every unmatched auto is too far. |
| Optimization.CenterStep | optimization/functions.py:89-105 | One manual line records its pick and raises its flag exactly when it picks. The picked auto, and only that auto, is flagged. |
| Optimization.CenterLoopOk | optimization/functions.py:89-105 | Each manual line is paired with at most one auto, and no auto twice. Every paired auto was unmatched before. A line's flag is raised exactly when it is paired. Matched autos grow by the number of pairs. |
| Optimization.CenterLoopPicks | optimization/functions.py:89-105 | Each manual line picks among the autos that the manual lines before it left unmatched. |
| Optimization.CenterMatch | optimization/functions.py:70-114 | After the reset, a manual line is matched exactly when it is paired. Only auto flags are raised, and as many autos as manual lines become matched. |
| Optimization.PairedCount | optimization/functions.py:85-105 | With every flag cleared first, the matched manual lines are exactly the paired ones. |
| Optimization.CenterKeys | optimization/functions.py:142-146 | Each auto's key is its centre distance to the manual line, rounded to 3 decimals. |
| Optimization.LastIndex | optimization/functions.py:146 | A key's dictionary entry is the last auto holding that key, since later autos overwrite earlier ones. |
| Optimization.Uniq | optimization/functions.py:147 | The dictionary's keys, sorted, are the distinct keys in strictly ascending order. |
| Optimization.Smallest | optimization/functions.py:147-150 | The shortlist keys are at most ten actual keys in ascending order. Every key no larger than the last of them is among them, and every key at all when fewer than ten are listed. |
| Optimization.ShortlistSpec | optimization/functions.py:140-150 | The shortlist holds the last auto of each of the smallest keys, in ascending key order, and no smaller key is missing. |
| Optimization.PairDists | optimization/functions.py:157-163 | There are n times m distances, manual coordinates in the outer loop: the distance from manual coordinate i to auto coordinate j sits at position i·m + j, and every entry is such a pair distance. |
| Optimization.PairMeanBounds | optimization/functions.py:164 | The mean pixel distance is defined exactly when both lines have coordinates, and it lies within any bounds on the pairwise distances. |
| Optimization.ShortMeans | optimization/functions.py:154-164 | There is one mean pixel distance per shortlisted auto, in shortlist order. |
| Optimization.LineChoice | optimization/functions.py:152-167 | A chosen auto is shortlisted, or is the first auto equal to a shortlisted one, and lies within the limit. |
| Optimization.LineChoiceNone | optimization/functions.py:152-167 | Nothing is chosen exactly when no shortlisted auto is within the limit. |
| Optimization.LineChoiceLeast | optimization/functions.py:152-167 | The chosen auto is within the limit and no shortlisted auto within the limit has a smaller mean; it is the shortlisted auto at a position whose mean is strictly below every admissible mean before it, so on equal means the earlier shortlisted auto wins, and no earlier auto equals it. |
| Optimization.Raise | optimization/functions.py:168-170 | A pair is flagged only when both lines are still unmatched. Then exactly one manual flag and one auto flag are raised. Otherwise nothing changes. |
| Optimization.LineMatch | optimization/functions.py:138-170 | Over one file pair, only flags change and none is lowered. As many manual flags as auto flags are raised. |
| Optimization.LineMatchFile | optimization/functions.py:137-170 | Over every auto file, flags only rise, and manual and auto flags are raised in equal numbers. |
| Optimization.LineMatchAll | optimization/functions.py:116-195 | Over all files, flags only rise, and every raised manual flag is matched by one raised auto flag. |
| LifetimeStats.Lives | lifetime_analysis.py:20 | Each active lifetime is 120 minus the track's start frame. |
| LifetimeStats.ActiveLives | lifetime_analysis.py:20-24 | The active lifetimes are exactly the positive lifetimes, each as often as it occurs, in ascending order. |
| LifetimeStats.ActiveLivesUnique | lifetime_analysis.py:20-24 | Any ascending list of exactly the positive lifetimes equals the computed one. |
| LifetimeStats.OverlapsShared | lifetime_analysis.py:83-84 | `overlaps` holds exactly when the two ranges share a frame, and so it is symmetric. |
| LifetimeStats.Candidates | lifetime_analysis.py:67-79 | A row's candidates are exactly the completed tracks at distance strictly between 0 and 10, each as often as it occurs. |
| LifetimeStats.NotOwnCandidate | lifetime_analysis.py:76-79 | A track is never its own candidate. |
| LifetimeStats.OverlapDists | lifetime_analysis.py:86-92 | Every overlapping pair of candidates that differ in all fields is recorded once, its distances ordered, and every recorded pair comes from such a pair. |
| LifetimeStats.Prune | lifetime_analysis.py:93-95 | A candidate survives exactly when its distance is not the larger distance of any recorded pair. |
| LifetimeStats.PruneNoOverlap | lifetime_analysis.py:86-95 | After pruning, no two remaining candidates that differ in distance, start and stop overlap. |
| LifetimeStats.PruneKeepsSharedStart | lifetime_analysis.py:81-88 | Two candidates with the same start frame are never compared, so both survive pruning although their frames overlap. |
| LifetimeStats.RowOutcome | lifetime_analysis.py:97-107 | A row is isolated exactly when no candidate survives, and it then contributes its own span. Otherwise it contributes its candidates' summed spans. |
| LifetimeStats.LivesOfSplit | lifetime_analysis.py:97-107 | Every outcome lands in exactly one of the two lists. |
| LifetimeStats.CompletedLives | lifetime_analysis.py:62-112 | Both lists are ascending and together hold one lifetime per completed track. The merged list holds the merged lifetimes and the other list the isolated ones. |
| LifetimeStats.CompletedMember | lifetime_analysis.py:97-107 | Each track's lifetime appears in the list of its kind. |
| Widgets.CurrentState | analysis/widgets.py:333-343 | The enabled keys are `'breadth'` if ticked, then `'length'` if ticked, then the custom names in order. |
| Widgets.CurrentStateMembers | analysis/widgets.py:333-343 | A key is listed exactly when its box is ticked or a custom layer carries its name. |
| Widgets.LoadExternal | analysis/widgets.py:202-213 | Non-empty tracer output is taken, giving ids 0..n-1 with the tracings as bare coordinates. Empty output is not taken. |
| Widgets.Start | analysis/widgets.py:227-230 | The loader starts with feature 0 present and empty, as the current feature. |
| Widgets.LoadStep | analysis/widgets.py:231-245 | A row with the current id extends that feature. Any other row makes its id current, holding a fresh one-coordinate list, and no other feature changes. |
| Widgets.LoadFoldAppend | analysis/widgets.py:231-245 | Loading rows in two parts is loading them in one. |
| Widgets.EntryRows | analysis/widgets.py:360-367 | One row per coordinate: the feature id, x and y, then the values of the enabled keys in order. |
| Widgets.SaveRows | analysis/widgets.py:360-367 | Saving succeeds exactly when every coordinate holds every enabled key, and otherwise raises `KeyError`. There is one row per coordinate. |
| Widgets.RereadRows | analysis/widgets.py:362-367 | Read back by the loader, the saved rows are each feature's points under its id, feature by feature. |
| Widgets.LoadPointRows | analysis/widgets.py:227-245 | Loading a dictionary's rows rebuilds it with coordinates only. |
| Widgets.SaveLoad | analysis/widgets.py:227-245 | Saving the data rows and loading them again gives back every feature under its id, with its coordinates in order. |
| Widgets.Share | analysis/widgets.py:406-407 | The average times the coordinate count is the tally. |
| Widgets.AvgOf | analysis/widgets.py:395-407 | A key's average is its tally over all coordinates, counted once per listing, shared over the coordinate count. |
| Widgets.AvgList | analysis/widgets.py:393-407 | There is exactly one average per distinct enabled key, and each is that key's average. |
| Widgets.Averages | analysis/widgets.py:393-407 | The averages are computed exactly when every coordinate has every key and there is a coordinate to divide by. The failure is `KeyError` for a missing key, and otherwise `ZeroDivisionError`. On success there is one average per distinct key. |
| Widgets.AverageIsMean | analysis/widgets.py:393-407 | A key listed once averages to the mean of its values, so the average lies within any bounds on them. |
| Widgets.MaxKey | analysis/widgets.py:414 | The label value is the largest id. It fails with `ValueError` exactly when there are no features. |
| Widgets.MaxKeyOfTracings | analysis/widgets.py:414 | For tracer output the "Feature count" label shows one less than the number of features. |

## Left out

- File and image I/O, plotting, the Qt widgets and dialogs, and the tracer itself are not modelled. This covers CSV, FITS, matplotlib and `sunkit_image`.
- Edge-map construction (scaling, `unsharp_mask`, Gaussian blur, Canny at analysis/analysis.py:101-110) is not modelled. The edge mask is an input.
- Means, standard deviations and normal pdfs in `lifetime_analysis.py` are not modelled, because they are floating-point statistics. So is the plain sorted list of completed spans at lines 33-34. Line 116 computes the "std" of the unmatched lifetimes with `np.mean`; the model has no std to compare it with.
- The centre of a completed track, its `x_mean`/`y_mean` (lifetime_analysis.py:48-59), is an input field of `LifetimeStats.Completed`.
- The `argsort` by distance at lifetime_analysis.py:73 is not modelled. It changes neither which candidates are pruned nor their sum.
- `interpolate` (optimization/functions.py:197-218) is not modelled, because it wraps scipy's `interp1d`.
- The pandas label-versus-position mismatch after rows are dropped is not modelled. At lifetime.py:223 the result of `reset_index()` is discarded, yet `active.loc[index]` at lines 180-183 is used positionally. The model treats `active` as a positional sequence.
- The equality-based `.index(tracing)` lookups at timeseries/timeseries.py:78 and 94 are taken to mean the position of the frame.
- Any value of the floating-point type is treated as an exact real. Distances are an abstract `dist`, or `root` with `Geometry.IsSqrt`.
- `None` in the optimisation `matched` flag is read as `false`, which is how the code tests it.
- Analysis.AnalyzeCust: returns only the failure when a pixel is uncovered. The source has by then re-tagged the earlier coordinates in place (analysis/analysis.py:82-95), and those partial changes are not modelled.
- A custom layer named `'coord'` would overwrite the coordinate tuple (analysis/analysis.py:88). The model keeps the coordinate apart from the other keys, so it does not model that clash.
- Analysis.AddLength: always adds the Euclidean step after the first coordinate. The source tests `self.f_data[f_num].index(coord_dict) == 0` (analysis/analysis.py:191), which compares dictionaries by equality. With a custom layer named `'length'`, a later dictionary can equal the first one: same coordinate, same breadth and custom values, and a custom `'length'` of 0. The source then skips that step's increment. This case is not modelled.
- Analysis.AddBreadth: requires a non-zero `mag` at every coordinate. With `mag == 0` the source divides 0 by 0 (analysis/analysis.py:139-141), and that NaN path is not modelled.
- Analysis.Run: requires a non-zero `mag` at every coordinate, for the same reason.
- Analysis.BreadthRuns: counts the positive run only when the positive walk raises `IndexError`. `bn` is a local of `get_breadth` assigned only at analysis/analysis.py:159, so the source then adds the final `bn` of the last coordinate, in this feature or an earlier one, whose positive walk finished and reached that line. It raises `NameError` only if no coordinate before it in the whole call did (analysis/analysis.py:113-173). Neither value is modelled.
- The `'breadth'` and `'length'` boxes do not switch off those analyses, because `run` always computes both (analysis/analysis.py:50-54). Both are modelled unconditionally.
- Widgets.SaveLoad: covers the data rows only. `save_results` writes a header row first (analysis/widgets.py:359), and `open_data` does not skip it: `float('f_num')` raises `ValueError` at line 233. The lemma also assumes that floats print and parse back exactly.
- Widgets.Averages: leaves out the rounding to two decimals for display (analysis/widgets.py:417).
- Widgets.KeyValues: counts a missing key as 0. It is only used once `HasKeys` holds.
- Widgets.LoadExternal: an empty list opens a file dialog instead (analysis/widgets.py:216-223), which is not modelled.
- Timeseries.MatchSequence: the `try`/`except` around `if_coords[int(min_dist[1])]` (timeseries/timeseries.py:139-142) never fires, because the index always comes from the pool. It is not modelled as a separate path.

## Findings

| source | as written | input that shows it | evidently intended | confidence | as-written member | corrected member |
|---|---|---|---|---|---|---|
| lifetime.py:159-183 | A track opened earlier in frame i answers the frame-(i-1) lookup `f_nums[-1]` with its frame-i id, so a later key of frame i-1 with the same number is appended to it | frame 5 with one row for each of features 5 and 7, and accepted pairs (3, 5) then (5, 7): pair (3, 5) opens a track with id 5, and pair (5, 7) is appended to it, giving 2 ids and both features' coordinates for 1 frame | a track begun in frame i has no frame-(i-1) id and is never extended in that frame | not executed | Tracker.SameFrameRelink | Tracker.RunExact |
| optimization/functions.py:48-61 | A feature is appended only when a row with another number arrives, so the last feature of every file is lost | the one-row file `1.0,2.0,3.0` yields no feature | every run of rows, including the last, becomes a feature | not executed | Optimization.GroupsAsWrittenLoseOnlyFeature | Optimization.TracingData |
