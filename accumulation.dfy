/**
 * The fold that turns the frame-indexed worker results into the dense
 * per-track table: for every frame, in increasing frame index, each track
 * present gets its length counter raised by one and its cells are written
 * into the slot the new counter points at, while that slot exists.
 */
module Accumulation {
  import opened TrackData

  /** Some cell of `frame` belongs to track `t`. */
  predicate Mentions(frame: seq<Detection>, t: int)
  {
    exists k :: 0 <= k < |frame| && frame[k].track == t
  }

  /** Every cell of `frame` names one of the tracks 1..numTracks. */
  predicate IdsInRange(frame: seq<Detection>, numTracks: nat)
  {
    forall k :: 0 <= k < |frame| ==> 1 <= frame[k].track <= numTracks
  }

  predicate ResultsInRange(results: seq<FrameResult>, numTracks: nat)
  {
    forall f :: 0 <= f < |results| && results[f].Some? ==> IdsInRange(results[f].value, numTracks)
  }

  lemma MentionsSnoc(frame: seq<Detection>, t: int)
    requires |frame| > 0
    ensures Mentions(frame, t) <==> Mentions(frame[..|frame| - 1], t) || frame[|frame| - 1].track == t
  {
    var pre := frame[..|frame| - 1];
    if Mentions(frame, t) && frame[|frame| - 1].track != t {
      var k :| 0 <= k < |frame| && frame[k].track == t;
      assert pre[k] == frame[k];
    }
    if Mentions(pre, t) {
      var k :| 0 <= k < |pre| && pre[k].track == t;
      assert frame[k] == pre[k];
    }
  }

  /** Position of the last cell of `frame` that belongs to track `t`. */
  function LastIndex(frame: seq<Detection>, t: int): (k: nat)
    requires Mentions(frame, t)
    ensures k < |frame| && frame[k].track == t
    ensures forall l :: k < l < |frame| ==> frame[l].track != t
    decreases |frame|
  {
    MentionsSnoc(frame, t);
    if frame[|frame| - 1].track == t then |frame| - 1 else LastIndex(frame[..|frame| - 1], t)
  }

  /** The last cell of `frame` that belongs to track `t`: the one whose
      fields survive when a track has several cells in one frame. */
  function LastDetection(frame: seq<Detection>, t: int): Detection
    requires Mentions(frame, t)
  {
    frame[LastIndex(frame, t)]
  }

  /** The buffered increment of the length counters: every track that has a
      cell in the frame goes up by exactly one, however many cells it has. */
  function Bump(length: seq<nat>, frame: seq<Detection>): (r: seq<nat>)
    ensures |r| == |length|
    ensures forall i :: 0 <= i < |length| ==> r[i] == length[i] || r[i] == length[i] + 1
    ensures forall i :: 0 <= i < |length| ==> (r[i] == length[i] + 1 <==> Mentions(frame, i + 1))
  {
    seq(|length|, i requires 0 <= i < |length| => if Mentions(frame, i + 1) then length[i] + 1 else length[i])
  }

  /** Writes one cell into the slot its track's counter points at, unless
      the counter has run past the table width. */
  function Place(tb: Table, d: Detection, width: nat): (r: Table)
    requires Shaped(tb, width)
    requires 1 <= d.track <= |tb.length| && tb.length[d.track - 1] >= 1
    ensures Shaped(r, width) && r.length == tb.length
    ensures forall t :: 0 <= t < |tb.length| && t != d.track - 1 ==>
      r.steps[t] == tb.steps[t] && r.interruptions[t] == tb.interruptions[t]
  {
    var i := d.track - 1;
    if tb.length[i] <= width then
      Table(tb.length, tb.steps[i := tb.steps[i][tb.length[i] - 1 := d.cell]], tb.interruptions[i := d.interruptions])
    else
      tb
  }

  /** The counter of every track named in `frame` is at least one. */
  predicate Opened(tb: Table, frame: seq<Detection>)
    requires IdsInRange(frame, |tb.length|)
  {
    forall k :: 0 <= k < |frame| ==> tb.length[frame[k].track - 1] >= 1
  }

  /** Places the cells of a frame one after the other, in list order. */
  function PlaceAll(tb: Table, frame: seq<Detection>, width: nat): (r: Table)
    requires Shaped(tb, width) && IdsInRange(frame, |tb.length|) && Opened(tb, frame)
    ensures Shaped(r, width) && r.length == tb.length
    decreases |frame|
  {
    if frame == [] then tb
    else
      var n := |frame| - 1;
      Place(PlaceAll(tb, frame[..n], width), frame[n], width)
  }

  /** Folds one frame result into the table; a `None` result leaves it as it is. */
  function ApplyFrame(tb: Table, result: FrameResult, width: nat): (r: Table)
    requires Shaped(tb, width)
    requires result.Some? ==> IdsInRange(result.value, |tb.length|)
    ensures Shaped(r, width) && |r.length| == |tb.length|
  {
    match result
    case None => tb
    case Some(frame) =>
      var bumped := Table(Bump(tb.length, frame), tb.steps, tb.interruptions);
      assert Opened(bumped, frame) by {
        forall k | 0 <= k < |frame| ensures bumped.length[frame[k].track - 1] >= 1 {
          assert Mentions(frame, frame[k].track);
        }
      }
      PlaceAll(bumped, frame, width)
  }

  /** The table after folding `results` into `init` in increasing frame index. */
  function Accumulated(init: Table, results: seq<FrameResult>, width: nat): (r: Table)
    requires Shaped(init, width) && ResultsInRange(results, |init.length|)
    ensures Shaped(r, width) && |r.length| == |init.length|
    decreases |results|
  {
    if results == [] then init
    else
      var n := |results| - 1;
      ApplyFrame(Accumulated(init, results[..n], width), results[n], width)
  }

  /** Indices of the frames that have a cell of track `t`, in increasing order. */
  function Contributing(results: seq<FrameResult>, t: int): (fs: seq<nat>)
    ensures forall k :: 0 <= k < |fs| ==> fs[k] < |results| && results[fs[k]].Some? && Mentions(results[fs[k]].value, t)
    ensures forall k, l :: 0 <= k < l < |fs| ==> fs[k] < fs[l]
    ensures forall f :: 0 <= f < |results| && results[f].Some? && Mentions(results[f].value, t) ==> f in fs
    decreases |results|
  {
    if results == [] then []
    else
      var n := |results| - 1;
      Contributing(results[..n], t) + (if results[n].Some? && Mentions(results[n].value, t) then [n] else [])
  }

  /** Placing the cells of one frame: the row of a track named in the frame
      gets the last of its cells in the slot its counter points at (while the
      counter is within the width) and the interruption flag of that cell;
      every other row, and every length, is left as it was. */
  lemma {:induction false} PlaceAllEffect(tb: Table, frame: seq<Detection>, width: nat, i: nat)
    requires Shaped(tb, width) && IdsInRange(frame, |tb.length|) && Opened(tb, frame)
    requires i < |tb.length|
    ensures var r := PlaceAll(tb, frame, width);
      if Mentions(frame, i + 1) && tb.length[i] <= width then
        && r.steps[i] == tb.steps[i][tb.length[i] - 1 := LastDetection(frame, i + 1).cell]
        && r.interruptions[i] == LastDetection(frame, i + 1).interruptions
      else
        r.steps[i] == tb.steps[i] && r.interruptions[i] == tb.interruptions[i]
    decreases |frame|
  {
    if frame == [] {
    } else {
      var n := |frame| - 1;
      var pre := frame[..n];
      PlaceAllEffect(tb, pre, width, i);
      MentionsSnoc(frame, i + 1);
      if frame[n].track != i + 1 && Mentions(frame, i + 1) {
        assert LastIndex(frame, i + 1) == LastIndex(pre, i + 1);
      }
    }
  }

  /** One frame result, folded in: the counter of each track present goes up
      by exactly one (several cells of the same track count once), that
      track's new slot receives its last cell when the counter is within the
      width, and the rows of tracks absent from the frame are unchanged. */
  lemma ApplyFrameEffect(tb: Table, result: FrameResult, width: nat, i: nat)
    requires Shaped(tb, width)
    requires result.Some? ==> IdsInRange(result.value, |tb.length|)
    requires i < |tb.length|
    ensures var r := ApplyFrame(tb, result, width);
      if result.Some? && Mentions(result.value, i + 1) then
        && r.length[i] == tb.length[i] + 1
        && (if r.length[i] <= width then
              && r.steps[i] == tb.steps[i][tb.length[i] := LastDetection(result.value, i + 1).cell]
              && r.interruptions[i] == LastDetection(result.value, i + 1).interruptions
            else
              r.steps[i] == tb.steps[i] && r.interruptions[i] == tb.interruptions[i])
      else
        r.length[i] == tb.length[i] && r.steps[i] == tb.steps[i] && r.interruptions[i] == tb.interruptions[i]
  {
    if result.Some? {
      var frame := result.value;
      var bumped := Table(Bump(tb.length, frame), tb.steps, tb.interruptions);
      PlaceAllEffect(bumped, frame, width, i);
    }
  }

  /** The cells of track `t` the frames supply, one per frame that has a
      cell of `t` (the last such cell of that frame), in frame order. */
  function Observed(results: seq<FrameResult>, t: int): (obs: seq<Detection>)
    decreases |results|
  {
    if results == [] then []
    else
      var n := |results| - 1;
      Observed(results[..n], t) + (if results[n].Some? && Mentions(results[n].value, t) then [LastDetection(results[n].value, t)] else [])
  }

  /** The j-th observation of track `t` is its last cell in the j-th frame,
      in frame order, that has a cell of `t`. */
  lemma {:induction false} ObservedAt(results: seq<FrameResult>, t: int)
    ensures |Observed(results, t)| == |Contributing(results, t)|
    ensures forall j :: 0 <= j < |Observed(results, t)| ==>
      Observed(results, t)[j] == LastDetection(results[Contributing(results, t)[j]].value, t)
    decreases |results|
  {
    if results != [] {
      var n := |results| - 1;
      var pre := results[..n];
      ObservedAt(pre, t);
      forall j | 0 <= j < |Observed(pre, t)|
        ensures results[Contributing(pre, t)[j]] == pre[Contributing(pre, t)[j]]
      {
      }
    }
  }

  /** What the fold promises about the row of track `t`, given the
      observations `obs` of that track: the length counts them all; step j
      holds the j-th observation's cell and the slots past them stay unset;
      the interruption flag comes from the last observation that was still
      written, or is the fill value when none was. */
  ghost predicate RowRecords(tb: Table, width: nat, t: nat, obs: seq<Detection>)
    requires Shaped(tb, width) && 1 <= t <= |tb.length|
  {
    var kept := if |obs| < width then |obs| else width;
    var row := tb.steps[t - 1];
    && tb.length[t - 1] == |obs|
    && (forall j :: 0 <= j < width && j < |obs| ==> row[j] == obs[j].cell)
    && (forall j :: |obs| <= j < width ==> row[j] == Unset)
    && tb.interruptions[t - 1] == if kept == 0 then Missing else obs[kept - 1].interruptions
  }

  /** One more frame keeps a track's row in step with its observations. */
  lemma RowRecordsStep(tb0: Table, result: FrameResult, width: nat, t: nat, obs: seq<Detection>)
    requires Shaped(tb0, width) && 1 <= t <= |tb0.length|
    requires result.Some? ==> IdsInRange(result.value, |tb0.length|)
    requires RowRecords(tb0, width, t, obs)
    ensures RowRecords(ApplyFrame(tb0, result, width), width, t,
      obs + if result.Some? && Mentions(result.value, t) then [LastDetection(result.value, t)] else [])
  {
    ApplyFrameEffect(tb0, result, width, t - 1);
    var tb := ApplyFrame(tb0, result, width);
    if result.Some? && Mentions(result.value, t) {
      var d := LastDetection(result.value, t);
      var obs' := obs + [d];
      assert tb.length[t - 1] == |obs'|;
      if |obs'| <= width {
        assert tb.steps[t - 1] == tb0.steps[t - 1][|obs| := d.cell];
        forall j | 0 <= j < width
          ensures tb.steps[t - 1][j] == if j < |obs'| then obs'[j].cell else Unset
        {
          if j < |obs| {
            assert obs'[j] == obs[j];
            assert tb0.steps[t - 1][j] == obs[j].cell;
          } else if j > |obs| {
            assert tb0.steps[t - 1][j] == Unset;
          }
        }
        assert tb.interruptions[t - 1] == obs'[|obs'| - 1].interruptions;
      } else {
        assert tb.steps[t - 1] == tb0.steps[t - 1];
        forall j | 0 <= j < width
          ensures tb.steps[t - 1][j] == if j < |obs'| then obs'[j].cell else Unset
        {
          assert obs'[j] == obs[j];
          assert tb0.steps[t - 1][j] == obs[j].cell;
        }
      }
      assert RowRecords(tb, width, t, obs');
    } else {
      assert obs + [] == obs;
      assert tb.steps[t - 1] == tb0.steps[t - 1];
      assert RowRecords(tb, width, t, obs);
    }
  }

  /** The fold over the freshly allocated table: every track's row records
      that track's observations, in frame order. */
  lemma {:induction false} AccumulatedRecords(numTracks: nat, width: nat, results: seq<FrameResult>, t: nat)
    requires ResultsInRange(results, numTracks) && 1 <= t <= numTracks
    ensures RowRecords(Accumulated(Initial(numTracks, width), results, width), width, t, Observed(results, t))
    decreases |results|
  {
    if results != [] {
      var n := |results| - 1;
      var pre := results[..n];
      assert ResultsInRange(pre, numTracks);
      AccumulatedRecords(numTracks, width, pre, t);
      RowRecordsStep(Accumulated(Initial(numTracks, width), pre, width), results[n], width, t, Observed(pre, t));
    }
  }

  /** What the fold promises about track `t`, stated over the frames: its
      length counts every frame that has a cell of `t`; its step j holds the
      last cell of `t` in the (j + 1)-th such frame, in frame order, and the
      slots past the count stay unset; its interruption flag comes from the
      last frame that was still written, or is the fill value when none was. */
  ghost predicate Chronicled(tb: Table, results: seq<FrameResult>, width: nat, t: nat)
    requires Shaped(tb, width) && 1 <= t <= |tb.length|
  {
    var fs := Contributing(results, t);
    var kept := if |fs| < width then |fs| else width;
    var row := tb.steps[t - 1];
    && tb.length[t - 1] == |fs|
    && (forall j :: 0 <= j < width && j < |fs| ==> row[j] == LastDetection(results[fs[j]].value, t).cell)
    && (forall j :: |fs| <= j < width ==> row[j] == Unset)
    && tb.interruptions[t - 1] == if kept == 0 then Missing else LastDetection(results[fs[kept - 1]].value, t).interruptions
  }

  /** The fold over the freshly allocated table records every track's
      cells in chronological (frame-index) order. */
  lemma AccumulatedIsChronological(numTracks: nat, width: nat, results: seq<FrameResult>, t: nat)
    requires ResultsInRange(results, numTracks) && 1 <= t <= numTracks
    ensures Chronicled(Accumulated(Initial(numTracks, width), results, width), results, width, t)
  {
    AccumulatedRecords(numTracks, width, results, t);
    ObservedAt(results, t);
    var tb := Accumulated(Initial(numTracks, width), results, width);
    var obs := Observed(results, t);
    var fs := Contributing(results, t);
    forall j | 0 <= j < width
      ensures tb.steps[t - 1][j] == if j < |fs| then LastDetection(results[fs[j]].value, t).cell else Unset
    {
      assert tb.steps[t - 1][j] == if j < |obs| then obs[j].cell else Unset;
      if j < |fs| {
        assert obs[j] == LastDetection(results[fs[j]].value, t);
      }
    }
  }

  /** A track's length ends up non-zero exactly when some frame has a cell of it. */
  lemma AccumulatedLengthPositive(numTracks: nat, width: nat, results: seq<FrameResult>, t: nat)
    requires ResultsInRange(results, numTracks) && 1 <= t <= numTracks
    ensures Accumulated(Initial(numTracks, width), results, width).length[t - 1] != 0
        <==> exists f :: 0 <= f < |results| && results[f].Some? && Mentions(results[f].value, t)
  {
    AccumulatedIsChronological(numTracks, width, results, t);
    var fs := Contributing(results, t);
    if |fs| != 0 {
      assert results[fs[0]].Some? && Mentions(results[fs[0]].value, t);
    }
  }

  /**
   * The dense table the fold writes into, addressed by 0-based track index
   * (row i is track i + 1) and step.
   */
  class TrackTable {
    const numTracks: nat
    /** The allocation bound on steps per track (the largest allowed track length). */
    const width: nat
    const length: array<nat>
    const steps: array2<Cell>
    const interruptions: array<int>

    ghost predicate Valid()
    {
      && length.Length == numTracks
      && interruptions.Length == numTracks
      && steps.Length0 == numTracks
      && steps.Length1 == width
    }

    function Rows(): (rows: seq<seq<Cell>>)
      reads steps
      ensures |rows| == steps.Length0
      ensures forall i :: 0 <= i < steps.Length0 ==> |rows[i]| == steps.Length1
      ensures forall i, j :: 0 <= i < steps.Length0 && 0 <= j < steps.Length1 ==> rows[i][j] == steps[i, j]
    {
      seq(steps.Length0, i requires 0 <= i < steps.Length0 reads steps =>
        seq(steps.Length1, j requires 0 <= j < steps.Length1 reads steps => steps[i, j]))
    }

    /** The table's contents as a value. */
    function Snapshot(): (tb: Table)
      requires Valid()
      reads length, steps, interruptions
      ensures Shaped(tb, width) && |tb.length| == numTracks
    {
      Table(length[..], Rows(), interruptions[..])
    }

    /** Allocates the table with every counter at zero and every field at its fill value. */
    constructor (numTracks: nat, width: nat)
      ensures Valid() && this.numTracks == numTracks && this.width == width
      ensures fresh(length) && fresh(steps) && fresh(interruptions)
      ensures Snapshot() == Initial(numTracks, width)
    {
      this.numTracks := numTracks;
      this.width := width;
      length := new nat[numTracks](_ => 0);
      steps := new Cell[numTracks, width]((_, _) => Unset);
      interruptions := new int[numTracks](_ => Missing);
      new;
      forall i | 0 <= i < numTracks ensures Rows()[i] == Initial(numTracks, width).steps[i] {
      }
    }

    /** Folds every frame result into the table in increasing frame index. */
    method Accumulate(results: seq<FrameResult>)
      requires Valid() && ResultsInRange(results, numTracks)
      modifies length, steps, interruptions
      ensures Snapshot() == Accumulated(old(Snapshot()), results, width)
    {
      ghost var init := Snapshot();
      for nf := 0 to |results|
        invariant Snapshot() == Accumulated(init, results[..nf], width)
      {
        assert results[..nf + 1][..nf] == results[..nf];
        if results[nf].Some? {
          AddFrame(results[nf].value);
        }
      }
      assert results[..|results|] == results;
    }

    /** Folds the cells of one frame in: the buffered counter increment,
        then the cells in list order. */
    method AddFrame(frame: seq<Detection>)
      requires Valid() && IdsInRange(frame, numTracks)
      modifies length, steps, interruptions
      ensures Snapshot() == ApplyFrame(old(Snapshot()), Some(frame), width)
    {
      ghost var before := Snapshot();
      RaiseCounters(frame);
      ghost var bumped := Table(Bump(before.length, frame), before.steps, before.interruptions);
      assert Snapshot() == bumped;
      assert Opened(bumped, frame) by {
        forall k | 0 <= k < |frame| ensures bumped.length[frame[k].track - 1] >= 1 {
          assert Mentions(frame, frame[k].track);
        }
      }
      PlaceCells(frame);
    }

    /** The vectorised `length[ids] = length[ids] + 1`: every entry reads its
        counter as it was before the frame, so a track with several cells in
        the frame is raised once. */
    method RaiseCounters(frame: seq<Detection>)
      requires Valid() && IdsInRange(frame, numTracks)
      modifies length
      ensures length[..] == Bump(old(length[..]), frame)
    {
      ghost var before := length[..];
      var raised := seq(|frame|, k requires 0 <= k < |frame| && 1 <= frame[k].track <= length.Length reads length =>
        length[frame[k].track - 1] + 1);
      for k := 0 to |frame|
        invariant forall i :: 0 <= i < numTracks ==>
          length[i] == if Mentions(frame[..k], i + 1) then before[i] + 1 else before[i]
      {
        forall t | 1 <= t <= numTracks
          ensures Mentions(frame[..k + 1], t) <==> Mentions(frame[..k], t) || frame[k].track == t
        {
          MentionsSnoc(frame[..k + 1], t);
          assert frame[..k + 1][..k] == frame[..k];
        }
        length[frame[k].track - 1] := raised[k];
      }
      assert frame[..|frame|] == frame;
    }

    /** Writes the cells of one frame, in list order, into the slots their
        tracks' counters point at, skipping those past the width. */
    method PlaceCells(frame: seq<Detection>)
      requires Valid() && IdsInRange(frame, numTracks) && Opened(Snapshot(), frame)
      modifies steps, interruptions
      ensures Snapshot() == PlaceAll(old(Snapshot()), frame, width)
    {
      ghost var start := Snapshot();
      for k := 0 to |frame|
        invariant Snapshot() == PlaceAll(start, frame[..k], width)
      {
        assert frame[..k + 1][..k] == frame[..k];
        var i := frame[k].track - 1;
        if length[i] <= width {
          ghost var cur := Snapshot();
          steps[i, length[i] - 1] := frame[k].cell;
          interruptions[i] := frame[k].interruptions;
          ghost var want := cur.steps[i := cur.steps[i][cur.length[i] - 1 := frame[k].cell]];
          forall a | 0 <= a < numTracks ensures Rows()[a] == want[a] {
            assert |Rows()[a]| == |want[a]|;
            forall b | 0 <= b < width ensures Rows()[a][b] == want[a][b] {
            }
          }
          assert Rows() == want;
        }
      }
      assert frame[..|frame|] == frame;
    }
  }
}
