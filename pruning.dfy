/**
 * Removal of the tracks that received no cell: the surviving rows are
 * gathered, in ascending original index, into a compacted table.
 */
module Pruning {
  import opened TrackData

  /** Strictly increasing. */
  predicate Ascending(s: seq<nat>)
  {
    forall k, l :: 0 <= k < l < |s| ==> s[k] < s[l]
  }

  /** The 0-based indices of the tracks whose length is not zero, in
      ascending order: exactly those indices, each once. */
  function Survivors(length: seq<nat>): (present: seq<nat>)
    ensures Ascending(present)
    ensures forall k :: 0 <= k < |present| ==> present[k] < |length| && length[present[k]] != 0
    ensures forall i :: 0 <= i < |length| && length[i] != 0 ==> i in present
    decreases |length|
  {
    if length == [] then []
    else
      var n := |length| - 1;
      Survivors(length[..n]) + (if length[n] != 0 then [n] else [])
  }

  /** The compacted table: row k is the row of the k-th surviving track,
      cut to the full width, so every surviving row keeps its steps in the
      same order; every compacted length is positive. */
  function Prune(tb: Table, width: nat): (r: Table)
    requires Shaped(tb, width)
    ensures Shaped(r, width)
    ensures var present := Survivors(tb.length);
      && |r.length| == |present|
      && forall k :: 0 <= k < |present| ==>
           && r.length[k] == tb.length[present[k]]
           && r.steps[k] == tb.steps[present[k]]
           && r.interruptions[k] == tb.interruptions[present[k]]
    ensures forall k :: 0 <= k < |r.length| ==> r.length[k] > 0
  {
    var present := Survivors(tb.length);
    Table(
      seq(|present|, k requires 0 <= k < |present| => tb.length[present[k]]),
      seq(|present|, k requires 0 <= k < |present| => tb.steps[present[k]][0..width]),
      seq(|present|, k requires 0 <= k < |present| => tb.interruptions[present[k]]))
  }

  /** When no length is zero, every index survives, in order. */
  lemma {:induction false} SurvivorsOfNonzero(length: seq<nat>)
    requires forall i :: 0 <= i < |length| ==> length[i] != 0
    ensures Survivors(length) == seq(|length|, i => i)
    decreases |length|
  {
    if length != [] {
      var n := |length| - 1;
      SurvivorsOfNonzero(length[..n]);
    }
  }

  /** Pruning an already pruned table changes nothing. */
  lemma PruneIdempotent(tb: Table, width: nat)
    requires Shaped(tb, width)
    ensures Prune(Prune(tb, width), width) == Prune(tb, width)
  {
    var once := Prune(tb, width);
    SurvivorsOfNonzero(once.length);
    var twice := Prune(once, width);
    assert twice.length == once.length;
    assert twice.steps == once.steps;
    assert twice.interruptions == once.interruptions;
  }

  /** In a strictly increasing sequence of naturals the k-th entry is at
      least k. */
  lemma {:induction false} AscendingAtLeastIndex(s: seq<nat>, k: nat)
    requires Ascending(s) && k < |s|
    ensures k <= s[k]
  {
    if k > 0 {
      AscendingAtLeastIndex(s, k - 1);
    }
  }

  /** The number of survivors is the number of tracks with a non-zero length. */
  lemma SurvivorCount(length: seq<nat>)
    ensures |Survivors(length)| == |set i | 0 <= i < |length| && length[i] != 0|
  {
    var present := Survivors(length);
    var nonzero := set i | 0 <= i < |length| && length[i] != 0;
    assert nonzero == set k | 0 <= k < |present| :: present[k];
    DistinctCard(present);
  }

  /** A strictly increasing sequence has as many distinct entries as it is long. */
  lemma {:induction false} DistinctCard(s: seq<nat>)
    requires Ascending(s)
    ensures |set k | 0 <= k < |s| :: s[k]| == |s|
    decreases |s|
  {
    if s != [] {
      var n := |s| - 1;
      var pre := s[..n];
      DistinctCard(pre);
      var before := set k | 0 <= k < |pre| :: pre[k];
      assert (set k | 0 <= k < |s| :: s[k]) == before + {s[n]};
      assert s[n] !in before;
    }
  }
}
