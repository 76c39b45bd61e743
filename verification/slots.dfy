/** The slots of a data area: a transfer split in chunks of `size` bytes uses
    slot j at byte j * size (the SPLITBUFF / SPLITADDR macros of the VE
    library, the `i * split_size` offsets of the host loops). Slots that hold
    a chunk in flight keep the bytes staged there until the chunk completes. */
module Slots {
  import opened UdmaConst
  import opened ChannelLayout
  import opened Memory

  /** Byte offset of slot j. */
  function Offset(size: nat, j: nat): (off: nat)
    ensures off == j * size
  {
    MulMonotone(0, j, size);
    j * size
  }

  /** With split * size bytes available, slot j < split fits. */
  lemma OffsetFits(split: nat, size: nat, area: nat, j: nat)
    requires j < split && split * size <= area
    ensures Offset(size, j) + size <= area
  {
    SlotInside(j, split, size, area);
  }

  /** Two different slots do not overlap. */
  lemma OffsetsApart(size: nat, s: nat, t: nat)
    requires s != t
    ensures Offset(size, s) + size <= Offset(size, t) || Offset(size, t) + size <= Offset(size, s)
  {
    if s < t {
      SlotsDisjoint(s, t, size);
    } else {
      SlotsDisjoint(t, s, size);
    }
  }

  /** Every slot with a length `tl[s] > 0` in flight holds, in its first
      tl[s] bytes, the bytes `staged[s]` that were put there. */
  ghost predicate Holds(a: seq<Byte>, split: nat, size: nat, tl: seq<int>, staged: seq<seq<Byte>>)
    requires split <= |tl| && split <= |staged|
  {
    forall s :: 0 <= s < split && tl[s] > 0 ==>
      && tl[s] <= size
      && Offset(size, s) + tl[s] <= |a|
      && a[Offset(size, s)..Offset(size, s) + tl[s]] == staged[s]
  }

  /** Staging `bytes` into the free slot j keeps every other slot in flight
      intact and makes slot j hold them. */
  lemma {:induction false} HoldsPost(a: seq<Byte>, split: nat, size: nat, tl: seq<int>, staged: seq<seq<Byte>>,
                                     j: nat, bytes: seq<Byte>)
    requires split <= |tl| && split <= |staged| && split * size <= |a|
    requires Holds(a, split, size, tl, staged)
    requires j < split && tl[j] == 0 && 0 < |bytes| <= size
    ensures End(Write(Offset(size, j), bytes)) <= |a|
    ensures Holds(Overwrite(a, Write(Offset(size, j), bytes)), split, size, tl[j := |bytes|], staged[j := bytes])
  {
    OffsetFits(split, size, |a|, j);
    var w := Write(Offset(size, j), bytes);
    var a' := Overwrite(a, w);
    var tl', staged' := tl[j := |bytes|], staged[j := bytes];
    forall s | 0 <= s < split && tl'[s] > 0
      ensures tl'[s] <= size && Offset(size, s) + tl'[s] <= |a'|
      ensures a'[Offset(size, s)..Offset(size, s) + tl'[s]] == staged'[s]
    {
      if s == j {
        OverwriteInside(a, w);
      } else {
        OffsetsApart(size, s, j);
        OverwriteElsewhere(a, w, Offset(size, s), Offset(size, s) + tl[s]);
      }
    }
  }

  /** A slot that completes no longer constrains the area. */
  lemma HoldsClear(a: seq<Byte>, split: nat, size: nat, tl: seq<int>, staged: seq<seq<Byte>>, j: nat)
    requires split <= |tl| && split <= |staged| && j < split
    requires Holds(a, split, size, tl, staged)
    ensures Holds(a, split, size, tl[j := 0], staged)
  {
  }
}
