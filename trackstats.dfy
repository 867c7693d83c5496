/**
 * The whole consolidation step: fold the per-frame results into the dense
 * table, drop the tracks that received no cell, renumber the merge and split
 * links, and record every track's start and end status.
 */
module TrackStats {
  import opened TrackData
  import opened Accumulation
  import opened Pruning
  import opened Renumbering
  import opened Status

  /** The places where the source stops with a numpy error. */
  datatype Failure =
    | NoSurvivors     // the maximum of an empty survivor list
    | LinkOutOfRange  // a merge or split number past the end of the adjustor
    | StepOutOfRange  // a status column at or past the row width

  /** What the step hands to the writer: the compacted table, its renumbered
      merge and split numbers, and the start and end status per track. */
  datatype Stats = Stats(table: Table, merge: seq<seq<int>>, split: seq<seq<int>>,
                         startStatus: seq<int>, endStatus: seq<int>)

  /** The merge-number field of every step, with the table's shape. */
  function MergeNumbers(steps: seq<seq<Cell>>): (links: seq<seq<int>>)
    ensures |links| == |steps|
    ensures forall i :: 0 <= i < |steps| ==> |links[i]| == |steps[i]|
    ensures forall i, j :: 0 <= i < |steps| && 0 <= j < |steps[i]| ==> links[i][j] == steps[i][j].merge
  {
    seq(|steps|, i requires 0 <= i < |steps| => seq(|steps[i]|, j requires 0 <= j < |steps[i]| => steps[i][j].merge))
  }

  /** The split-number field of every step, with the table's shape. */
  function SplitNumbers(steps: seq<seq<Cell>>): (links: seq<seq<int>>)
    ensures |links| == |steps|
    ensures forall i :: 0 <= i < |steps| ==> |links[i]| == |steps[i]|
    ensures forall i, j :: 0 <= i < |steps| && 0 <= j < |steps[i]| ==> links[i][j] == steps[i][j].split
  {
    seq(|steps|, i requires 0 <= i < |steps| => seq(|steps[i]|, j requires 0 <= j < |steps[i]| => steps[i][j].split))
  }

  /** Every cell of every frame carries well-formed links. */
  predicate LinksWellFormedIn(results: seq<FrameResult>)
  {
    forall f, k :: 0 <= f < |results| && results[f].Some? && 0 <= k < |results[f].value| ==>
      LinksWellFormed(results[f].value[k].cell)
  }

  /** Some track of the compacted table is longer than the row width. */
  predicate Overlong(length: seq<nat>, width: nat)
  {
    exists k :: 0 <= k < |length| && length[k] > width
  }

  /** The consolidation step, stage by stage. On inputs meeting its
      preconditions it fails exactly where the source raises: no track
      survived; a link is past the adjustor's end;
      a track is longer than the row width (this includes a width of 0).
      Otherwise every output is the specification of its stage applied to
      the previous stage's result. */
  method Consolidate(results: seq<FrameResult>, numTracks: nat, width: nat) returns (r: Result<Stats, Failure>)
    requires ResultsInRange(results, numTracks) && LinksWellFormedIn(results)
    ensures var tb := Accumulated(Initial(numTracks, width), results, width);
      var present := Survivors(tb.length);
      && (|present| == 0 <==> r == Err(NoSurvivors))
      && (|present| > 0 ==>
            var pruned := Prune(tb, width);
            var adj := Adjustor(present);
            var links := LinksInRange(adj, MergeNumbers(pruned.steps)) && LinksInRange(adj, SplitNumbers(pruned.steps));
            && (!links <==> r == Err(LinkOutOfRange))
            && (links ==>
                  && (Overlong(pruned.length, width) <==> r == Err(StepOutOfRange))
                  && (!Overlong(pruned.length, width) ==>
                        && r.Ok?
                        && r.value.table == pruned
                        && r.value.merge == RenumberLinks(adj, MergeNumbers(pruned.steps))
                        && r.value.split == RenumberLinks(adj, SplitNumbers(pruned.steps))
                        && r.value.startStatus == StartStatus(pruned.steps)
                        && IsEndStatus(pruned.length, pruned.steps, r.value.endStatus))))
  {
    var table := new TrackTable(numTracks, width);
    table.Accumulate(results);
    var tb := table.Snapshot();
    var present := Survivors(tb.length);
    if |present| == 0 {
      return Err(NoSurvivors);
    }
    var pruned := Prune(tb, width);
    var adj := BuildAdjustor(present);
    var merges := MergeNumbers(pruned.steps);
    var splits := SplitNumbers(pruned.steps);
    if !LinksInRange(adj, merges) || !LinksInRange(adj, splits) {
      return Err(LinkOutOfRange);
    }
    var merge := RenumberLinks(adj, merges);
    var split := RenumberLinks(adj, splits);
    if exists k :: 0 <= k < |pruned.length| && pruned.length[k] > width {
      return Err(StepOutOfRange);
    }
    assert pruned.length[0] > 0;
    var start := StartStatus(pruned.steps);
    var ends := EndStatus(pruned.length, pruned.steps);
    r := Ok(Stats(pruned, merge, split, start, ends));
  }

  /** Some frame has a cell of track `t`. */
  predicate Seen(results: seq<FrameResult>, t: int)
  {
    exists f :: 0 <= f < |results| && results[f].Some? && Mentions(results[f].value, t)
  }

  /** The tracks that survive pruning are exactly those of which some frame
      has a cell. */
  lemma SurvivorsAreSeenTracks(results: seq<FrameResult>, numTracks: nat, width: nat)
    requires ResultsInRange(results, numTracks)
    ensures var present := Survivors(Accumulated(Initial(numTracks, width), results, width).length);
      forall i :: 0 <= i < numTracks ==> (i in present <==> Seen(results, i + 1))
  {
    var tb := Accumulated(Initial(numTracks, width), results, width);
    forall i | 0 <= i < numTracks ensures i in Survivors(tb.length) <==> Seen(results, i + 1) {
      AccumulatedLengthPositive(numTracks, width, results, i + 1);
    }
  }

  /** What the step produces for the k-th compacted track, in terms of the
      frames. Let `obs` be that track's observations: its last cell in each
      frame that has a cell of it, in frame order (`Observed`, characterised
      by `ObservedAt`). When no track is longer than the row width, the
      compacted length is the number of observations, the steps are the
      observed cells followed by unset slots, the interruption flag is that
      of the last observation, the start status is the status of the first
      observed cell and the end status that of the last. */
  lemma {:induction false} ConsolidatedTrack(results: seq<FrameResult>, numTracks: nat, width: nat, k: nat)
    requires ResultsInRange(results, numTracks)
    requires var tb := Accumulated(Initial(numTracks, width), results, width);
      k < |Survivors(tb.length)| && !Overlong(Prune(tb, width).length, width)
    ensures var tb := Accumulated(Initial(numTracks, width), results, width);
      var obs := Observed(results, Survivors(tb.length)[k] + 1);
      PrunedRowIs(Prune(tb, width), width, k, obs)
  {
    var tb := Accumulated(Initial(numTracks, width), results, width);
    var present := Survivors(tb.length);
    var t := present[k] + 1;
    AccumulatedRecords(numTracks, width, results, t);
    assert Prune(tb, width).length[k] <= width;
    PrunedRow(tb, width, k, Observed(results, t));
    RowStatus(Prune(tb, width), width, k, Observed(results, t));
  }

  /** Row k of a compacted table holds the observations `obs`, which fit in
      the width: length, cells, unset tail, interruption flag, start and end
      status. */
  ghost predicate PrunedRowIs(pruned: Table, width: nat, k: nat, obs: seq<Detection>)
    requires Shaped(pruned, width) && !Overlong(pruned.length, width) && k < |pruned.length|
  {
    && RowHolds(pruned, width, k, obs)
    && StartStatus(pruned.steps)[k] == obs[0].cell.status
    && (forall ends :: IsEndStatus(pruned.length, pruned.steps, ends) ==> ends[k] == obs[|obs| - 1].cell.status)
  }

  /** Row k of a table holds the observations `obs`, which fit in the width:
      length, cells, unset tail and interruption flag. */
  ghost predicate RowHolds(tb: Table, width: nat, k: nat, obs: seq<Detection>)
    requires Shaped(tb, width) && k < |tb.length|
  {
    var row := tb.steps[k];
    && 0 < |obs| <= width
    && tb.length[k] == |obs|
    && (forall j :: 0 <= j < |obs| ==> row[j] == obs[j].cell)
    && (forall j :: |obs| <= j < width ==> row[j] == Unset)
    && tb.interruptions[k] == obs[|obs| - 1].interruptions
  }

  /** Pruning carries a surviving row that records its observations over to
      the compacted table. */
  lemma {:induction false} PrunedRow(tb: Table, width: nat, k: nat, obs: seq<Detection>)
    requires Shaped(tb, width) && k < |Survivors(tb.length)|
    requires RowRecords(tb, width, Survivors(tb.length)[k] + 1, obs)
    requires Prune(tb, width).length[k] <= width
    ensures RowHolds(Prune(tb, width), width, k, obs)
  {
    var i := Survivors(tb.length)[k];
    var pruned := Prune(tb, width);
    assert pruned.length[k] == tb.length[i] == |obs|;
    assert pruned.steps[k] == tb.steps[i];
    assert pruned.interruptions[k] == tb.interruptions[i];
  }

  /** A row that holds its observations has the first observed cell's status
      as start status and the last one's as end status. */
  lemma {:induction false} RowStatus(pruned: Table, width: nat, k: nat, obs: seq<Detection>)
    requires Shaped(pruned, width) && !Overlong(pruned.length, width) && k < |pruned.length|
    requires RowHolds(pruned, width, k, obs)
    ensures PrunedRowIs(pruned, width, k, obs)
  {
    assert pruned.steps[k][0] == obs[0].cell;
    forall ends | IsEndStatus(pruned.length, pruned.steps, ends) ensures ends[k] == obs[|obs| - 1].cell.status {
      assert ends[k] == pruned.steps[k][pruned.length[k] - 1].status;
    }
  }
}
