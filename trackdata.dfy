/**
 * Values shared by every stage of the track-statistics consolidation:
 * the per-cell record a frame result carries, the dense per-track table
 * the fold fills in, and the fill value used for "no data".
 */
module TrackData {

  /** The fill value the source writes into integer fields that hold no data
      and uses as the "no link" merge/split number. */
  const Missing: int := -9999

  datatype Option<+T> = None | Some(value: T)

  datatype Result<+T, +E> = Ok(value: T) | Err(error: E)

  /** Stand-in for the many per-cell measurements that are copied verbatim
      into a track step (basetime, file name, latitude/longitude, radii,
      pixel counts, brightness temperatures, ...). `NoData` is the NaN or
      -9999 fill those fields start with. */
  datatype Payload = NoData | Measured(values: seq<int>)

  /** The fields of one track step: its status code, the track number it
      merges into, the track number it split from, and the copied payload. */
  datatype Cell = Cell(status: int, merge: int, split: int, payload: Payload)

  /** A step slot that no cell was ever written into. */
  const Unset: Cell := Cell(Missing, Missing, Missing, NoData)

  /** One cell of a frame result: the 1-based number of the track it belongs
      to, the fields stored per step, and the track-interruption flag that
      is stored once per track. */
  datatype Detection = Detection(track: int, cell: Cell, interruptions: int)

  /** What the statistics worker returns for one frame: `None` when the frame
      has nothing to contribute. */
  type FrameResult = Option<seq<Detection>>

  /** The dense per-track table: row i belongs to track i + 1. */
  datatype Table = Table(length: seq<nat>, steps: seq<seq<Cell>>, interruptions: seq<int>)

  /** Every row of the table has the same number of tracks and every row of
      `steps` has `width` slots. */
  predicate Shaped(tb: Table, width: nat)
  {
    && |tb.steps| == |tb.length|
    && |tb.interruptions| == |tb.length|
    && forall i :: 0 <= i < |tb.steps| ==> |tb.steps[i]| == width
  }

  /** The table as allocated before any frame is folded in: zero lengths,
      every slot unset, every interruption flag at the fill value. */
  function Initial(numTracks: nat, width: nat): (tb: Table)
    ensures Shaped(tb, width) && |tb.length| == numTracks
    ensures forall i :: 0 <= i < numTracks ==> tb.length[i] == 0 && tb.interruptions[i] == Missing
    ensures forall i, j :: 0 <= i < numTracks && 0 <= j < width ==> tb.steps[i][j] == Unset
  {
    Table(seq(numTracks, _ => 0), seq(numTracks, _ => seq(width, _ => Unset)), seq(numTracks, _ => Missing))
  }

  /** A cell's merge and split numbers are the "no link" value or a
      non-negative track number. */
  predicate LinksWellFormed(c: Cell)
  {
    (c.merge == Missing || c.merge >= 0) && (c.split == Missing || c.split >= 0)
  }
}
