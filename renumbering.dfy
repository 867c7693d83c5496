/**
 * Renumbering of merge and split links after pruning: an adjustor table
 * maps every pre-pruning track number to its compacted number, and every
 * stored link is looked up in it in one pass.
 */
module Renumbering {
  import opened TrackData
  import opened Pruning

  /** The largest entry of a non-empty sequence. */
  function Max(s: seq<nat>): (m: nat)
    requires |s| > 0
    ensures m in s
    ensures forall k :: 0 <= k < |s| ==> s[k] <= m
  {
    if |s| == 1 then s[0]
    else
      var rest := Max(s[1..]);
      if s[0] > rest then s[0] else rest
  }

  /** Position of the first occurrence of `x` in `s`. */
  function IndexOf(s: seq<nat>, x: nat): (k: nat)
    requires x in s
    ensures k < |s| && s[k] == x
  {
    if s[0] == x then 0 else 1 + IndexOf(s[1..], x)
  }

  /** Every survivor's number is an index of a table of `size` entries. */
  predicate Fits(present: seq<nat>, size: nat)
  {
    forall k :: 0 <= k < |present| ==> present[k] + 1 < size
  }

  /** The identity table 0 .. size - 1 with the number of each of the first
      `n` survivors overwritten, in turn, by its compacted number. */
  function Assigned(present: seq<nat>, n: nat, size: nat): (t: seq<int>)
    requires n <= |present| && Fits(present, size)
    ensures |t| == size
    decreases n
  {
    if n == 0 then seq(size, v => v)
    else Assigned(present, n - 1, size)[present[n - 1] + 1 := n]
  }

  /** The adjustor built from the ascending survivor indices `present`:
      one entry per number 0 .. max(present) + 1, in which the number of the
      k-th survivor (its index plus one) is replaced by k + 1, followed by the
      "no link" slot. */
  function Adjustor(present: seq<nat>): (adj: seq<int>)
    requires |present| > 0
    ensures |adj| == Max(present) + 3 && adj[|adj| - 1] == Missing
  {
    Assigned(present, |present|, Max(present) + 2) + [Missing]
  }

  /** After the first `n` overwrites, those survivors' numbers hold their
      compacted numbers. */
  lemma {:induction false} AssignedSurvivors(present: seq<nat>, n: nat, size: nat)
    requires Ascending(present) && n <= |present| && Fits(present, size)
    ensures forall k :: 0 <= k < n ==> Assigned(present, n, size)[present[k] + 1] == k + 1
    decreases n
  {
    if n > 0 {
      AssignedSurvivors(present, n - 1, size);
      var prev := Assigned(present, n - 1, size);
      var t := Assigned(present, n, size);
      var p := present[n - 1];
      forall k | 0 <= k < n ensures t[present[k] + 1] == k + 1 {
        if k < n - 1 {
          assert present[k] < p;
          assert prev[present[k] + 1] == k + 1;
        }
      }
    }
  }

  /** After the first `n` overwrites, every number that is not the number of
      one of those survivors still maps to itself. */
  lemma {:induction false} AssignedOthers(present: seq<nat>, n: nat, size: nat)
    requires n <= |present| && Fits(present, size)
    ensures forall v :: 0 <= v < size && v - 1 !in present[..n] ==> Assigned(present, n, size)[v] == v
    decreases n
  {
    if n > 0 {
      AssignedOthers(present, n - 1, size);
      var prev := Assigned(present, n - 1, size);
      forall v | 0 <= v < size && v - 1 !in present[..n] ensures Assigned(present, n, size)[v] == v {
        assert present[..n] == present[..n - 1] + [present[n - 1]];
        assert prev[v] == v;
      }
    }
  }

  /** The entries of the adjustor: 0 stays 0, the number of the k-th
      survivor becomes k + 1, the number of every pruned track up to
      max(present) + 1 stays as it is, and the last slot is "no link". */
  lemma AdjustorEntries(present: seq<nat>)
    requires |present| > 0 && Ascending(present)
    ensures var adj := Adjustor(present);
      && adj[0] == 0 && adj[|adj| - 1] == Missing
      && (forall k :: 0 <= k < |present| ==> present[k] + 1 < |adj| - 1 && adj[present[k] + 1] == k + 1)
      && (forall v :: 1 <= v < |adj| - 1 && v - 1 !in present ==> adj[v] == v)
  {
    var size := Max(present) + 2;
    assert Fits(present, size);
    AssignedSurvivors(present, |present|, size);
    AssignedOthers(present, |present|, size);
    assert present[..|present|] == present;
    assert -1 !in present;
  }

  /** The adjustor as the source builds it: a range 0 .. max + 1 whose
      survivor entries are overwritten one by one, with the "no link" slot
      appended. */
  method BuildAdjustor(present: seq<nat>) returns (adj: seq<int>)
    requires |present| > 0
    ensures adj == Adjustor(present)
  {
    var table := new int[Max(present) + 2](v => v);
    for it := 0 to |present|
      invariant table[..] == Assigned(present, it, Max(present) + 2)
    {
      assert present[it] <= Max(present);
      table[present[it] + 1] := it + 1;
    }
    adj := table[..] + [Missing];
  }

  /** A stored link is either "no link" or an index into the adjustor. */
  predicate LinkInRange(adj: seq<int>, v: int)
  {
    v == Missing || 0 <= v < |adj|
  }

  /** The lookup of one link: "no link" is first replaced by the index of the
      adjustor's last slot (max(present) + 2), then every value is used as an
      index. */
  function Renumber(adj: seq<int>, v: int): (w: int)
    requires |adj| > 0 && LinkInRange(adj, v)
    ensures v == Missing ==> w == adj[|adj| - 1]
    ensures v != Missing ==> w == adj[v]
  {
    adj[if v == Missing then |adj| - 1 else v]
  }

  predicate LinksInRange(adj: seq<int>, links: seq<seq<int>>)
  {
    forall i, j :: 0 <= i < |links| && 0 <= j < |links[i]| ==> LinkInRange(adj, links[i][j])
  }

  /** The vectorised lookup of a whole table of links, keeping its shape. */
  function RenumberLinks(adj: seq<int>, links: seq<seq<int>>): (r: seq<seq<int>>)
    requires |adj| > 0 && LinksInRange(adj, links)
    ensures |r| == |links|
    ensures forall i :: 0 <= i < |links| ==> |r[i]| == |links[i]|
    ensures forall i, j :: 0 <= i < |links| && 0 <= j < |links[i]| ==> r[i][j] == Renumber(adj, links[i][j])
  {
    seq(|links|, i requires 0 <= i < |links| =>
      seq(|links[i]|, j requires 0 <= j < |links[i]| => Renumber(adj, links[i][j])))
  }

  /** What looking a link up in the adjustor does: "no link" stays "no
      link", 0 stays 0, a surviving track's number becomes its compacted
      number, a pruned track's number up to max(present) + 1 is returned
      unchanged, and max(present) + 2 becomes "no link". */
  lemma {:induction false} RenumberCases(present: seq<nat>, v: int)
    requires |present| > 0 && Ascending(present)
    requires LinkInRange(Adjustor(present), v)
    ensures v == Missing ==> Renumber(Adjustor(present), v) == Missing
    ensures v == 0 ==> Renumber(Adjustor(present), v) == 0
    ensures forall k :: 0 <= k < |present| && v == present[k] + 1 ==> Renumber(Adjustor(present), v) == k + 1
    ensures 1 <= v <= Max(present) + 1 && v - 1 !in present ==> Renumber(Adjustor(present), v) == v
    ensures v == Max(present) + 2 ==> Renumber(Adjustor(present), v) == Missing
  {
    AdjustorEntries(present);
    var adj := Adjustor(present);
    if v == Missing {
      assert Renumber(adj, v) == adj[|adj| - 1];
    } else if v - 1 in present {
      var k := IndexOf(present, v - 1);
      forall l | 0 <= l < |present| && v == present[l] + 1 ensures Renumber(adj, v) == l + 1 {
        assert present[l] == present[k];
      }
    } else {
      assert Renumber(adj, v) == adj[v];
    }
  }

  /** Restricted to the numbers of surviving tracks the adjustor is strictly
      increasing and never raises a number. */
  lemma AdjustorOnSurvivors(present: seq<nat>)
    requires |present| > 0 && Ascending(present)
    ensures var adj := Adjustor(present);
      && (forall k, l :: 0 <= k < l < |present| ==> adj[present[k] + 1] < adj[present[l] + 1])
      && (forall k :: 0 <= k < |present| ==> adj[present[k] + 1] <= present[k] + 1)
  {
    AdjustorEntries(present);
    forall k | 0 <= k < |present| ensures k <= present[k] {
      AscendingAtLeastIndex(present, k);
    }
  }

  /** The number of a pruned track is left as it is, so a link to it comes
      out equal to the compacted number of a different, surviving track
      whenever that number is in use: the lookup does not send pruned
      numbers to "no link". */
  lemma PrunedNumberAliases(present: seq<nat>, p: nat)
    requires |present| > 0 && Ascending(present)
    requires 1 <= p <= |present| && p - 1 !in present
    ensures var adj := Adjustor(present);
      && LinkInRange(adj, p)
      && present[p - 1] + 1 != p
      && Renumber(adj, p) == Renumber(adj, present[p - 1] + 1) == p
  {
    AdjustorEntries(present);
    AscendingAtLeastIndex(present, p - 1);
    assert present[p - 1] <= Max(present);
  }

  /** A link to a track that survived pruning, once renumbered, names the
      compacted row that holds that same track. */
  lemma {:induction false} RenumberedLinkFindsTrack(tb: Table, width: nat, v: int)
    requires Shaped(tb, width) && |Survivors(tb.length)| > 0
    requires 1 <= v <= |tb.length| && tb.length[v - 1] != 0
    ensures var adj := Adjustor(Survivors(tb.length));
      && LinkInRange(adj, v)
      && var w := Renumber(adj, v);
      && 1 <= w <= |Survivors(tb.length)|
      && Prune(tb, width).length[w - 1] == tb.length[v - 1]
      && Prune(tb, width).steps[w - 1] == tb.steps[v - 1]
      && Prune(tb, width).interruptions[w - 1] == tb.interruptions[v - 1]
  {
    var present := Survivors(tb.length);
    assert v - 1 in present;
    var k := IndexOf(present, v - 1);
    AdjustorAtSurvivor(present, k);
  }

  /** The adjustor entry of one survivor's number. */
  lemma AdjustorAtSurvivor(present: seq<nat>, k: nat)
    requires Ascending(present) && k < |present|
    ensures present[k] + 1 < |Adjustor(present)| - 1 && Adjustor(present)[present[k] + 1] == k + 1
  {
    var size := Max(present) + 2;
    assert Fits(present, size);
    AssignedSurvivors(present, |present|, size);
  }

  /** Three tracks of which the second received no cell: the third becomes
      the second, and a link to the pruned second track also comes out as
      2, while "no link" stays "no link". */
  lemma MiddleTrackPruned()
    ensures Survivors([1, 0, 1]) == [0, 2]
    ensures Adjustor([0, 2]) == [0, 1, 2, 2, Missing]
    ensures Renumber(Adjustor([0, 2]), 3) == 2 && Renumber(Adjustor([0, 2]), 2) == 2
    ensures Renumber(Adjustor([0, 2]), Missing) == Missing
  {
    assert [1, 0, 1][..2] == [1, 0];
    assert [1, 0][..1] == [1];
    assert [1][..0] == [];
    assert Max([0, 2]) == 2;
    assert Assigned([0, 2], 0, 4) == [0, 1, 2, 3];
    assert Assigned([0, 2], 1, 4) == [0, 1, 2, 3];
    assert Assigned([0, 2], 2, 4) == [0, 1, 2, 2];
  }
}
