/** How a transfer is cut into chunks: calc_split_send and calc_split_recv
    (libveo_udma.c:223-300). Each picks a number of slots (`split`) and a
    chunk size, either from the environment overrides or from a table of
    measured rows indexed by the transfer length. */
module SplitTune {
  import opened Wrappers
  import opened UdmaConst
  import opened ChannelLayout
  import Ring

  /** struct tune_split: from `transfer` bytes on, use `split` slots of `size` bytes. */
  datatype TuneRow = TuneRow(transfer: nat, size: nat, split: nat)

  const TUNE_SEND: seq<TuneRow> := [
    TuneRow(524288, 524288, 1),
    TuneRow(1048576, 524288, 2),
    TuneRow(16777216, 1048576, 4),
    TuneRow(33554432, 2097152, 4),
    TuneRow(67108864, 4194304, 8)
  ]

  const TUNE_RECV: seq<TuneRow> := [
    TuneRow(4194304, 262144, 8),
    TuneRow(8388608, 262144, 16),
    TuneRow(16777216, 1048576, 4),
    TuneRow(33554432, 1048576, 2),
    TuneRow(67108864, 65536, 32),
    TuneRow(134217728, 65536, 16)
  ]

  type Int32 = x: int | -0x8000_0000 <= x < 0x8000_0000
  type Int64 = x: int | -0x8000_0000_0000_0000 <= x < 0x8000_0000_0000_0000

  /** The values atoi and atol parsed from UDMA_SPLIT_{SEND,RECV} and
      UDMA_SPLIT_SIZE_{SEND,RECV}; None when the variable is unset. */
  datatype Override = Override(split: Option<Int32>, size: Option<Int64>)

  /** A split decision: number of slots and chunk size. */
  datatype Choice = Choice(split: int, size: nat)

  /** A decision the transfer loops can run on: at least one and at most
      UDMA_MAX_SPLIT slots (one mailbox word each), non-empty chunks, and
      all slots inside the data area of a sub-channel. */
  predicate Feasible(c: Choice)
  {
    1 <= c.split <= UDMA_MAX_SPLIT && 1 <= c.size && c.split * c.size <= SUB_BUFF_LEN
  }

  /** The override test as written: a non-zero split is taken together with
      the size (0 when unset) unless their product, computed in size_t after
      converting the int split, exceeds UDMA_BUFF_LEN - UDMA_MAX_SPLIT * 8. */
  function OverrideAsWritten(ov: Override): (r: Option<Choice>)
    ensures r.Some? ==> ov.split.Some? && r.value.split == ov.split.value != 0
    ensures r.Some? ==> r.value.size < U64
  {
    var split := if ov.split.Some? then ov.split.value else 0;
    var size := if ov.size.Some? then ToU64(ov.size.value) else 0;
    if split != 0 && ToU64(ToU64(split) * size) <= UDMA_BUFF_LEN - UDMA_MAX_SPLIT * 8 then
      Some(Choice(split, size))
    else
      None
  }

  /** The override test the transfer loops need: the same values, taken
      only when they form a feasible decision. It never accepts what the
      written test rejects, and it rejects only infeasible decisions. */
  function OverrideChecked(ov: Override): (r: Option<Choice>)
    ensures r.Some? ==> Feasible(r.value)
    ensures r.Some? ==> OverrideAsWritten(ov) == r
    ensures r.None? && OverrideAsWritten(ov).Some? ==> !Feasible(OverrideAsWritten(ov).value)
  {
    var split := if ov.split.Some? then ov.split.value else 0;
    var size := if ov.size.Some? then ToU64(ov.size.value) else 0;
    var c := Choice(split, size);
    if Feasible(c) then
      assert ToU64(split) * size == split * size;
      Some(c)
    else
      None
  }

  // -------------------------------------------------------------------
  // The table scan: starting at row 1, move to row i while len reaches its
  // transfer size, stop at the first row it does not reach.

  function ScanFrom(t: seq<TuneRow>, len: nat, i: nat, itune: nat): nat
    decreases |t| - i
  {
    if i >= |t| then itune
    else if len >= t[i].transfer then ScanFrom(t, len, i + 1, i)
    else itune
  }

  /** Index of the table row the scan selects. */
  function TuneIndex(t: seq<TuneRow>, len: nat): (r: nat)
    requires |t| >= 1
    ensures r < |t|
  {
    ScanStops(t, len, 1, 0);
    ScanFrom(t, len, 1, 0)
  }

  lemma {:induction false} ScanStops(t: seq<TuneRow>, len: nat, i: nat, itune: nat)
    requires 1 <= i && itune == i - 1 && itune < |t|
    requires forall m :: 1 <= m <= itune ==> t[m].transfer <= len
    ensures var r := ScanFrom(t, len, i, itune);
      && r < |t| && itune <= r
      && (forall m :: 1 <= m <= r ==> t[m].transfer <= len)
      && (r + 1 < |t| ==> len < t[r + 1].transfer)
    decreases |t| - i
  {
    if i < |t| && len >= t[i].transfer {
      ScanStops(t, len, i + 1, i);
    }
  }

  predicate Ascending(t: seq<TuneRow>)
  {
    forall a, b :: 0 <= a < b < |t| ==> t[a].transfer < t[b].transfer
  }

  /** A table the loops can run on: at least one row, every row feasible. */
  predicate Tunable(t: seq<TuneRow>)
  {
    |t| >= 1 && forall i :: 0 <= i < |t| ==> Feasible(Choice(t[i].split, t[i].size))
  }

  /** On an ascending table the scan selects the last row (from row 1 on)
      whose transfer size len reaches, and row 0 when it reaches none. */
  lemma TuneIndexLargest(t: seq<TuneRow>, len: nat)
    requires |t| >= 1 && Ascending(t)
    ensures var r := TuneIndex(t, len);
      && (r >= 1 ==> t[r].transfer <= len)
      && (forall m :: r < m < |t| ==> len < t[m].transfer)
  {
    ScanStops(t, len, 1, 0);
  }

  /** A longer transfer never selects an earlier row. */
  lemma TuneIndexMonotone(t: seq<TuneRow>, len1: nat, len2: nat)
    requires |t| >= 1 && Ascending(t) && len1 <= len2
    ensures TuneIndex(t, len1) <= TuneIndex(t, len2)
  {
    TuneIndexLargest(t, len1);
    TuneIndexLargest(t, len2);
  }

  lemma TablesTunable()
    ensures Tunable(TUNE_SEND) && Ascending(TUNE_SEND)
    ensures Tunable(TUNE_RECV) && Ascending(TUNE_RECV)
  {
  }

  /** The decision the selector makes: an accepted override, else the row
      the scan selects. It is always feasible. */
  function Chosen(t: seq<TuneRow>, len: nat, ov: Override): (c: Choice)
    requires Tunable(t)
    ensures Feasible(c)
  {
    match OverrideChecked(ov)
    case Some(o) => o
    case None => Choice(t[TuneIndex(t, len)].split, t[TuneIndex(t, len)].size)
  }

  /** calc_split_send / calc_split_recv with the checked override: an
      accepted override wins, otherwise the selected table row decides.
      Either way the decision is feasible. */
  method CalcSplit(t: seq<TuneRow>, len: nat, ov: Override) returns (split: int, size: nat)
    requires Tunable(t)
    ensures Choice(split, size) == Chosen(t, len, ov)
    ensures Feasible(Choice(split, size))
    ensures OverrideChecked(ov).Some? ==> Choice(split, size) == OverrideChecked(ov).value
    ensures OverrideChecked(ov).None? ==>
      split == t[TuneIndex(t, len)].split && size == t[TuneIndex(t, len)].size
  {
    var o := OverrideChecked(ov);
    if o.Some? {
      return o.value.split, o.value.size;
    }
    var i, itune := 1, 0;
    while i < |t|
      invariant 1 <= i <= |t| && itune == i - 1
      invariant ScanFrom(t, len, i, itune) == TuneIndex(t, len)
      decreases |t| - i
    {
      if len >= t[i].transfer {
        itune := i;
      } else {
        break;
      }
      i := i + 1;
    }
    split, size := t[itune].split, t[itune].size;
  }

  /** The send table grows with the transfer: a longer transfer gets at
      least as many slots and chunks at least as large. */
  lemma SendTuneMonotone(len1: nat, len2: nat)
    requires len1 <= len2
    ensures TUNE_SEND[TuneIndex(TUNE_SEND, len1)].split <= TUNE_SEND[TuneIndex(TUNE_SEND, len2)].split
    ensures TUNE_SEND[TuneIndex(TUNE_SEND, len1)].size <= TUNE_SEND[TuneIndex(TUNE_SEND, len2)].size
  {
    TablesTunable();
    TuneIndexMonotone(TUNE_SEND, len1, len2);
    var a, b := TuneIndex(TUNE_SEND, len1), TuneIndex(TUNE_SEND, len2);
    assert forall x, y :: 0 <= x <= y < |TUNE_SEND| ==>
      TUNE_SEND[x].split <= TUNE_SEND[y].split && TUNE_SEND[x].size <= TUNE_SEND[y].size;
  }

  /** The receive table does not grow with the transfer: 8 MiB selects 16
      slots and 16 MiB only 4; 32 MiB selects 1 MiB chunks and 64 MiB only
      64 KiB ones. */
  lemma RecvTuneNotMonotone()
    ensures TUNE_RECV[TuneIndex(TUNE_RECV, 8388608)].split == 16
    ensures TUNE_RECV[TuneIndex(TUNE_RECV, 16777216)].split == 4
    ensures TUNE_RECV[TuneIndex(TUNE_RECV, 33554432)].size == 1048576
    ensures TUNE_RECV[TuneIndex(TUNE_RECV, 67108864)].size == 65536
  {
    TablesTunable();
    TuneIndexLargest(TUNE_RECV, 8388608);
    TuneIndexLargest(TUNE_RECV, 16777216);
    TuneIndexLargest(TUNE_RECV, 33554432);
    TuneIndexLargest(TUNE_RECV, 67108864);
  }

  /** Below the transfer size of row 1 both tables use row 0. */
  lemma SmallTransfersUseRowZero(len: nat)
    ensures len < TUNE_SEND[1].transfer ==> TuneIndex(TUNE_SEND, len) == 0
    ensures len < TUNE_RECV[1].transfer ==> TuneIndex(TUNE_RECV, len) == 0
  {
    TablesTunable();
    TuneIndexLargest(TUNE_SEND, len);
    TuneIndexLargest(TUNE_RECV, len);
  }

  // -------------------------------------------------------------------
  // What the written override test lets through.

  /** The bound UDMA_BUFF_LEN - UDMA_MAX_SPLIT*8 is 16 bytes larger than the
      data area: one slot of UDMA_BUFF_LEN - 512 bytes is accepted and runs
      over the first two mailbox words, which start where the data area ends. */
  lemma LooseBoundAccepted()
    ensures var ov := Override(Some(1), Some(UDMA_BUFF_LEN - 512));
      && OverrideAsWritten(ov) == Some(Choice(1, UDMA_BUFF_LEN - 512))
      && SUB_BUFF_LEN < 0 + (UDMA_BUFF_LEN - 512)
      && SUB_BUFF_LEN + 2 * WORD == 0 + (UDMA_BUFF_LEN - 512)
      && OverrideChecked(ov) == None
  {
  }

  /** Setting only the split variable leaves the size at 0, and the product
      0 passes the test: every chunk is then empty and the loops never get
      past the first chunk. */
  lemma UnsetSizeAccepted(len: nat, k: nat)
    requires len > 0
    ensures var ov := Override(Some(4), None);
      && OverrideAsWritten(ov) == Some(Choice(4, 0))
      && Ring.ChunkLen(len, 0, k) == 0 && Ring.Covered(len, 0, k) == 0
      && OverrideChecked(ov) == None
  {
    Ring.ZeroSizeNoProgress(len, k);
  }

  /** The split is not bounded by UDMA_MAX_SPLIT, the number of mailbox
      words, nor required to be positive. */
  lemma UnboundedSplitAccepted()
    ensures OverrideAsWritten(Override(Some(65), Some(1))) == Some(Choice(65, 1))
    ensures 65 > UDMA_MAX_SPLIT
    ensures OverrideAsWritten(Override(Some(-1), None)) == Some(Choice(-1, 0))
    ensures OverrideChecked(Override(Some(65), Some(1))) == None
    ensures OverrideChecked(Override(Some(-1), None)) == None
  {
  }
}
