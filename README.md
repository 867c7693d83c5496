# Track statistics consolidation

This project models the consolidation step of `trackstats_tb` in
`pyflextrkr/depreciated/trackstats_parallel.py`. The step runs after the
per-frame cloud statistics come back from the worker pool and builds the
per-track statistics table. It has four stages:

1. **Accumulation.** The frame results are folded in increasing frame index
   into a dense table allocated with fill values.
   - Each track present in a frame has its length counter raised by exactly
     one. The buffered numpy increment counts a track with several cells in
     one frame once.
   - Each cell is written into the slot the counter points at, but only while
     the counter is within the allocated width (`nmaxclouds`).
2. **Pruning.** Tracks whose length is still zero are dropped. The survivors
   keep their ascending order.
3. **Link renumbering.** An adjustor table maps every pre-pruning track
   number to its compacted number. Every merge and split number is looked up
   in it.
4. **Start and end status.** Each track's start status is the status of its
   first step. Its end status is the status of its last recorded step.

The modules follow the stages:

- `TrackData` holds the cell, detection and table values and the fill value
  `-9999`.
- `Accumulation` holds the fold:
  - specification functions `Bump`, `Place`, `PlaceAll`, `ApplyFrame` and
    `Accumulated`;
  - lemmas that state the fold's outcome per track, chronologically;
  - the class `TrackTable`, whose arrays are updated in place by
    `Accumulate`, `AddFrame`, `RaiseCounters` and `PlaceCells`. Each method is
    proved against the specification functions.
- `Pruning` holds the survivor list and the compacted table.
- `Renumbering` holds the adjustor (a function, and the loop that builds it)
  and the link lookup.
- `Status` holds the start status and the end-status loop.
- `TrackStats` holds the whole step:
  - `Consolidate` runs the stages in order and, on inputs meeting its
    preconditions, fails exactly where the numpy code raises;
  - lemmas state the outcome per compacted track in terms of the frames.

The model follows the code in these places:

- The length counter is not capped at the width. It keeps counting, and
  later cells of a long track are dropped.
- The interruption flag of a track is written only together with the step
  fields. Cells past the width do not update it.
- A frame worker that fails is not isolated. The frame results are a given
  sequence in which `None` means "nothing to contribute".
- The adjustor does not send the number of a pruned track to "no link". A
  pruned number up to `max + 1` is left as it is, so it can equal the
  compacted number of a different track (`PrunedNumberAliases`,
  `MiddleTrackPruned`).
- A track longer than the width is not truncated. The end-status lookup
  indexes past the row, and numpy raises (`Failure.StepOutOfRange`).

## Model

| member | source | states |
|---|---|---|
| `TrackData.Initial` | pyflextrkr/depreciated/trackstats_parallel.py:188-288 | The allocated table has numTracks rows of the full width. Every length is 0, every slot is unset (fill value) and every interruption flag is -9999. |
| `Accumulation.TrackTable.constructor` | pyflextrkr/depreciated/trackstats_parallel.py:188-288 | Allocating the arrays gives exactly the initial table. |
| `Accumulation.TrackTable.Accumulate` | pyflextrkr/depreciated/trackstats_parallel.py:332-470 | The in-place loop over frames leaves the arrays equal to the fold of all frame results, in increasing frame index, over the previous contents. A `None` frame is skipped. |
| `Accumulation.TrackTable.AddFrame` | pyflextrkr/depreciated/trackstats_parallel.py:334-469 | One frame updates the arrays to the specified effect of that frame: counters first, then cells. |
| `Accumulation.TrackTable.RaiseCounters` | pyflextrkr/depreciated/trackstats_parallel.py:335-339 | The buffered fancy-index increment. It gathers the old counters and then scatters, so each counter ends at its old value plus one if the frame names its track, and at its old value otherwise. Duplicate ids count once. |
| `Accumulation.TrackTable.PlaceCells` | pyflextrkr/depreciated/trackstats_parallel.py:340-469 | The per-cell loop writes the cells in list order into slot length-1 of their track, and only while length <= width. The steps and interruption arrays end equal to the specified placement. |
| `Accumulation.Bump` | pyflextrkr/depreciated/trackstats_parallel.py:337-339 | Each counter either keeps its value or rises by one, and it rises exactly when the frame has a cell of that track. Partner: `TrackTable.RaiseCounters` is proved to compute it. |
| `Accumulation.Place` | pyflextrkr/depreciated/trackstats_parallel.py:341-469 | Writing one cell keeps the table's shape and every length, and leaves every row other than the cell's own track unchanged. Partners: `PlaceAllEffect` and `TrackTable.PlaceCells`. |
| `Accumulation.PlaceAll` | pyflextrkr/depreciated/trackstats_parallel.py:340-469 | Writing a frame's cells in list order keeps the table's shape and every length. What it writes is stated by `PlaceAllEffect`. |
| `Accumulation.ApplyFrame` | pyflextrkr/depreciated/trackstats_parallel.py:334-469 | One frame keeps the table's shape and its number of tracks. What it changes is stated by `ApplyFrameEffect`. |
| `Accumulation.Accumulated` | pyflextrkr/depreciated/trackstats_parallel.py:332-470 | The fold over all frames keeps the table's shape and its number of tracks. Its outcome per track is stated by `AccumulatedIsChronological`. |
| `Accumulation.LastIndex` | pyflextrkr/depreciated/trackstats_parallel.py:340-344 | Names the last cell of a track in a frame: it belongs to the track, and no later cell in the frame does. |
| `Accumulation.PlaceAllEffect` | pyflextrkr/depreciated/trackstats_parallel.py:340-469 | After placing a frame's cells, a named track whose counter is within the width holds its last cell of the frame in slot length-1 and that cell's interruption flag. Every other row is unchanged. |
| `Accumulation.ApplyFrameEffect` | pyflextrkr/depreciated/trackstats_parallel.py:333-469 | One frame raises a present track's length by exactly one and writes its last cell there when the new length is within the width. Otherwise the row is unchanged. The rows of absent tracks, and every row for a `None` frame, are unchanged. |
| `Accumulation.Contributing` | pyflextrkr/depreciated/trackstats_parallel.py:332-334 | The frames that have a cell of a track, strictly increasing. Each is a real frame with such a cell, and no such frame is missed. |
| `Accumulation.ObservedAt` | pyflextrkr/depreciated/trackstats_parallel.py:332-344 | A track's j-th observation is its last cell in the j-th contributing frame. There is one observation per contributing frame. |
| `Accumulation.RowRecordsStep` | pyflextrkr/depreciated/trackstats_parallel.py:332-469 | One more frame keeps a row in step with its observations: length, the written steps, the unset tail, and the interruption flag of the last observation still written. |
| `Accumulation.AccumulatedRecords` | pyflextrkr/depreciated/trackstats_parallel.py:332-469 | After the whole fold, each track's row records its observations in frame order. |
| `Accumulation.AccumulatedIsChronological` | pyflextrkr/depreciated/trackstats_parallel.py:332-469 | The length counts every frame with a cell of the track. Step j holds the track's last cell in the (j+1)-th such frame, slots past the count stay unset, and the interruption flag comes from the last frame still written (or is -9999). |
| `Accumulation.AccumulatedLengthPositive` | pyflextrkr/depreciated/trackstats_parallel.py:332-339 | A track's final length is non-zero if and only if some frame has a cell of it. |
| `Pruning.Survivors` | pyflextrkr/depreciated/trackstats_parallel.py:481-482 | The indices with a non-zero length, strictly ascending, each in range, and none missed. |
| `Pruning.Prune` | pyflextrkr/depreciated/trackstats_parallel.py:481-576 | The compacted table keeps the width. Row k of the lengths, steps and interruption flags is old row `present[k]`, unchanged, and every compacted length is positive. |
| `Pruning.SurvivorsOfNonzero` | pyflextrkr/depreciated/trackstats_parallel.py:481 | When no length is zero, every index survives, in order. |
| `Pruning.PruneIdempotent` | pyflextrkr/depreciated/trackstats_parallel.py:481-576 | Pruning a pruned table changes nothing. |
| `Pruning.SurvivorCount` | pyflextrkr/depreciated/trackstats_parallel.py:481-482 | The new track count is the number of tracks with a non-zero length. |
| `Renumbering.Adjustor` | pyflextrkr/depreciated/trackstats_parallel.py:596-599 | The adjustor has max(present)+3 entries, and the last one is -9999. |
| `Renumbering.AssignedSurvivors` | pyflextrkr/depreciated/trackstats_parallel.py:597-598 | After the first n overwrites of the range, each of those survivors' numbers holds its compacted number. Later overwrites do not clobber earlier ones, because the survivors are strictly ascending. |
| `Renumbering.AssignedOthers` | pyflextrkr/depreciated/trackstats_parallel.py:596-598 | After the first n overwrites, every number that is not one of those survivors' numbers still maps to itself. |
| `Renumbering.AdjustorAtSurvivor` | pyflextrkr/depreciated/trackstats_parallel.py:595-598 | The k-th survivor's number is inside the adjustor, below the "no link" slot, and maps to k+1. |
| `Renumbering.AdjustorEntries` | pyflextrkr/depreciated/trackstats_parallel.py:595-599 | The adjustor maps 0 to 0 and the k-th survivor's number to k+1. Each pruned number up to max+1 maps to itself, and the last slot is -9999. |
| `Renumbering.BuildAdjustor` | pyflextrkr/depreciated/trackstats_parallel.py:595-599 | The loop that overwrites the range 0..max+1 and appends -9999 yields exactly the adjustor. |
| `Renumbering.Renumber` | pyflextrkr/depreciated/trackstats_parallel.py:605-610 | A -9999 link reads the adjustor's last slot, and any other link reads the adjustor at its own value. What that gives per kind of link is stated by `RenumberCases`. |
| `Renumbering.RenumberLinks` | pyflextrkr/depreciated/trackstats_parallel.py:602-629 | The rewrite keeps the shape of the link table and looks up every entry, with -9999 first redirected to the last slot. |
| `Renumbering.RenumberCases` | pyflextrkr/depreciated/trackstats_parallel.py:602-629 | A -9999 link stays -9999 and 0 stays 0. A survivor's number becomes its compacted number, a pruned number up to max+1 is returned unchanged, and max+2 becomes -9999. |
| `Renumbering.AdjustorOnSurvivors` | pyflextrkr/depreciated/trackstats_parallel.py:595-598 | On surviving numbers the adjustor is strictly increasing and never raises a number. |
| `Renumbering.PrunedNumberAliases` | pyflextrkr/depreciated/trackstats_parallel.py:596-599 | A pruned number p <= numtracks comes out as p, which is also the compacted number of the p-th survivor, a different track. |
| `Renumbering.RenumberedLinkFindsTrack` | pyflextrkr/depreciated/trackstats_parallel.py:481-629 | A link to a surviving track is renumbered to a compacted row that holds that same track's length, steps and interruption flag. |
| `Renumbering.MiddleTrackPruned` | pyflextrkr/depreciated/trackstats_parallel.py:481-629 | Lengths [1, 0, 1] give survivors [0, 2] and adjustor [0, 1, 2, 2, -9999]. Links 3 and 2 both come out as 2, and -9999 stays -9999. |
| `Status.StartStatus` | pyflextrkr/depreciated/trackstats_parallel.py:637 | One entry per track: the status of its step 0. |
| `Status.EndStatus` | pyflextrkr/depreciated/trackstats_parallel.py:640-647 | The loop yields one entry per track: the status of step length-1 when the length is positive, and -9999 otherwise. |
| `TrackStats.MergeNumbers` | pyflextrkr/depreciated/trackstats_parallel.py:602-604 | The merge-number table has the shape of the step table, and each entry is the merge number of the matching step. |
| `TrackStats.SplitNumbers` | pyflextrkr/depreciated/trackstats_parallel.py:617-619 | The split-number table has the shape of the step table, and each entry is the split number of the matching step. |
| `TrackStats.Consolidate` | pyflextrkr/depreciated/trackstats_parallel.py:332-647 | The step fails with NoSurvivors exactly when no track survived. It fails with LinkOutOfRange exactly when some merge or split number is past the adjustor, and with StepOutOfRange exactly when a compacted length exceeds the width. Otherwise it returns the pruned table, both link tables renumbered through the same adjustor, and the start and end status. |
| `TrackStats.SurvivorsAreSeenTracks` | pyflextrkr/depreciated/trackstats_parallel.py:332-482 | A track survives pruning if and only if some frame has a cell of it. |
| `TrackStats.ConsolidatedTrack` | pyflextrkr/depreciated/trackstats_parallel.py:332-647 | Assume no track is longer than the width. The k-th compacted track's observations are its last cell in each frame that has a cell of it, in frame order. Its length is their number, its steps are the observed cells followed by unset slots, and its interruption flag and end status come from the last observation. Its start status comes from the first. |
| `TrackStats.PrunedRow` | pyflextrkr/depreciated/trackstats_parallel.py:481-576 | A surviving row that records its observations keeps the same length, cells, unset tail and interruption flag in the compacted table. |
| `TrackStats.RowStatus` | pyflextrkr/depreciated/trackstats_parallel.py:637-647 | For a row that holds its observations, the start status is the first observed cell's status. Any end-status column satisfying the end-status definition has the last observed cell's status. |

## Left out

- Reading the tracking matrix and grid, and writing the output netCDF file
  (including deleting an existing file), are I/O.
- The worker-pool dispatch and the per-frame statistics function it calls
  are not part of this model. Their output is the given sequence of frame
  results.
- The many copied per-cell measurements are one opaque payload:
  - floating-point statistics;
  - file names;
  - date-time strings;
  - basetime units.
  The model folds all of their starting values into the `NoData` payload:
  the NaN and -9999 fills of the numeric arrays, the empty strings of the
  date-time lists, and the uninitialised bytes of the never-filled
  file-name character array. `basetime_units` is one value per run, taken
  from the last cell written, and is not represented.
- Logging, garbage collection and the output file name are left out.
- `pyflextrkr/idcells_radar.py` is not part of this model. It is file I/O
  around a renumbering call into code that is not available.
- Counters and ids are unbounded integers. The int32 storage of the source
  is not modelled, because no counter approaches its range.
- The per-frame track count is taken to be the length of the frame's cell
  list.
- `Consolidate` requires every track id in `1..numTracks`. An id above
  `numTracks` makes numpy raise an IndexError at line 337, and id 0 makes it
  index row -1 (wrap-around). Neither is modelled.
- `Consolidate` requires every link, in every cell of every frame, stored or
  not, to be -9999 or non-negative. For a stored link, numpy raises an
  IndexError below `-(max + 3)` and wraps other negative values silently.
  Neither is modelled.
- `Status.EndStatus` requires every length to be within its row.
  `Consolidate` reports the out-of-range case as `StepOutOfRange` before
  calling it.
