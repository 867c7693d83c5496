/**
 * Start and end status of every compacted track: the status code of its
 * first step and of its last recorded step.
 */
module Status {
  import opened TrackData

  /** The status column of step 0, one entry per track. */
  function StartStatus(steps: seq<seq<Cell>>): (r: seq<int>)
    requires forall t :: 0 <= t < |steps| ==> |steps[t]| > 0
    ensures |r| == |steps|
    ensures forall t :: 0 <= t < |steps| ==> r[t] == steps[t][0].status
  {
    seq(|steps|, t requires 0 <= t < |steps| => steps[t][0].status)
  }

  /** `ends` holds, for every track, the status of its step `length - 1`,
      or the fill value for a track of length 0. */
  predicate IsEndStatus(length: seq<nat>, steps: seq<seq<Cell>>, ends: seq<int>)
    requires |steps| == |length|
    requires forall t :: 0 <= t < |length| ==> length[t] <= |steps[t]|
  {
    && |ends| == |length|
    && (forall t :: 0 <= t < |length| && length[t] > 0 ==> ends[t] == steps[t][length[t] - 1].status)
    && (forall t :: 0 <= t < |length| && length[t] == 0 ==> ends[t] == Missing)
  }

  /** The end-status loop: a column filled with the fill value, then, track
      by track, the status of the last recorded step of every track with a
      non-zero length. The caller guarantees that every length is within
      the row width, where the source would index past the row. */
  method EndStatus(length: seq<nat>, steps: seq<seq<Cell>>) returns (ends: seq<int>)
    requires |steps| == |length|
    requires forall t :: 0 <= t < |length| ==> length[t] <= |steps[t]|
    ensures IsEndStatus(length, steps, ends)
  {
    var column := new int[|length|](_ => Missing);
    for t := 0 to |length|
      invariant forall u :: 0 <= u < t && length[u] > 0 ==> column[u] == steps[u][length[u] - 1].status
      invariant forall u :: 0 <= u < |length| && (u >= t || length[u] == 0) ==> column[u] == Missing
    {
      if length[t] > 0 {
        column[t] := steps[t][length[t] - 1].status;
      }
    }
    ends := column[..];
  }
}
