/** The host side of a transfer: veo_udma_send and veo_udma_recv
    (libveo_udma.c:302-426).

    Both look up the peer of the calling context, give up when its lock is
    held, choose the split, start the opposite VE function asynchronously and
    then move the data through the slots of one sub-channel, round robin:
    chunk k uses slot k mod split, at byte (k mod split) * split_size of the
    data area, and mailbox word k mod split carries its length. The VE side
    is the environment: it clears mailbox words (send) or fills slots and
    sets them (receive), and its offload call may finish early. */
module HostTransfer {
  import opened UdmaConst
  import opened ChannelLayout
  import opened Oracle
  import opened Ring
  import opened SplitTune
  import opened HostRegistry
  import opened Memory
  import opened Slots

  /** How a host transfer ends. The C functions return the offload call's
      result in Completed and GaveUp, 0 for NoPeer and Busy, and
      (size_t)-EINVAL for Overrun; Hung stands for a wait that never ends. */
  datatype HostResult = NoPeer | Busy | Completed(retval: nat) | GaveUp(retval: nat) | Overrun(tlen: nat) | Hung

  /** The copy of chunk k of a send: its MIN(split_size, remaining) bytes go
      to slot k mod split, which lies inside the data area. */
  function SlotWrite(src: seq<Byte>, len: nat, c: Choice, k: nat): (w: Write)
    requires Feasible(c) && |src| >= len
    ensures w.offset == Offset(c.size, k % c.split) && w.bytes == ChunkBytes(src, len, c.size, k)
    ensures End(w) <= SUB_BUFF_LEN
  {
    OffsetFits(c.split, c.size, SUB_BUFF_LEN, k % c.split);
    Write(Offset(c.size, k % c.split), ChunkBytes(src, len, c.size, k))
  }

  /** The copies of the first n chunks, in order. */
  function SlotWrites(src: seq<Byte>, len: nat, c: Choice, n: nat): (ws: seq<Write>)
    requires Feasible(c) && |src| >= len
    ensures |ws| == n && Fit(ws, SUB_BUFF_LEN)
    ensures forall k :: 0 <= k < n ==> ws[k] == SlotWrite(src, len, c, k)
  {
    if n == 0 then [] else SlotWrites(src, len, c, n - 1) + [SlotWrite(src, len, c, n - 1)]
  }

  /** veo_udma_send. `lockHeld` is the state of the peer's mutex at the
      trylock; `area` and `mbox` are the data area and the mailbox array of
      the peer's send sub-channel. */
  method Send(reg: Registry, ctx: nat, src: seq<Byte>, len: nat, ov: Override, lockHeld: bool,
              area: array<Byte>, mbox: array<nat>, env: HostEnv)
    returns (r: HostResult, ghost lens: seq<nat>)
    requires |src| >= len
    requires area.Length == SUB_BUFF_LEN && mbox.Length == UDMA_MAX_SPLIT && mbox as object != area
    modifies area, mbox
    ensures SearchSkipping(PeerKeys(old(reg.peers[..]), reg.numPeers), ctx).None? <==> r.NoPeer?
    ensures SearchSkipping(PeerKeys(old(reg.peers[..]), reg.numPeers), ctx).Some? ==> (r.Busy? <==> lockHeld)
    ensures r.NoPeer? || r.Busy? ==> lens == [] && area[..] == old(area[..]) && mbox[..] == old(mbox[..])
    ensures var c := Chosen(TUNE_SEND, len, ov);
      && lens == Plan(len, c.size, |lens|)
      && area[..] == Apply(old(area[..]), SlotWrites(src, len, c, |lens|))
      && Sum(lens) == Covered(len, c.size, |lens|)
      && forall m :: c.split <= m < mbox.Length ==> mbox[m] == old(mbox[m])
    ensures r.Completed? ==> Sum(lens) == len && r.retval == env.waitResult
    ensures r.GaveUp? ==> r.retval != len
    ensures !r.Overrun?
  {
    lens := [];
    TablesTunable();
    var peer := Scan(PeerKeys(reg.peers[..], reg.numPeers), ctx);
    if peer.None? {
      return NoPeer, lens;
    }
    if lockHeld {
      return Busy, lens;
    }
    var split, size := CalcSplit(TUNE_SEND, len, ov);
    r, lens := PushChunks(src, len, Choice(split, size), area, mbox, env);
  }

  /** The chunk loop of veo_udma_send (libveo_udma.c:338-362): copy the next
      chunk to slot i, store its length in mailbox word i, move to the next
      slot and wait until the VE has emptied it. */
  method PushChunks(src: seq<Byte>, len: nat, c: Choice, area: array<Byte>, mbox: array<nat>, env: HostEnv)
    returns (r: HostResult, ghost lens: seq<nat>)
    requires |src| >= len && Feasible(c)
    requires area.Length == SUB_BUFF_LEN && mbox.Length == UDMA_MAX_SPLIT && mbox as object != area
    modifies area, mbox
    ensures lens == Plan(len, c.size, |lens|)
    ensures area[..] == Apply(old(area[..]), SlotWrites(src, len, c, |lens|))
    ensures Sum(lens) == Covered(len, c.size, |lens|)
    ensures forall m :: c.split <= m < mbox.Length ==> mbox[m] == old(mbox[m])
    ensures r.Completed? || r.GaveUp? || r.Hung?
    ensures r.Completed? ==> Sum(lens) == len && r.retval == env.waitResult
    ensures r.GaveUp? ==> r.retval != len
  {
    lens := [];
    var lenp, srcOff, i: nat := len, 0, 0;
    var e := env;
    var wr := HostReady(0);
    ghost var area0, mbox0 := area[..], mbox[..];
    ModUnique(0, c.split, 0, 0);
    while lenp > 0 && wr.HostReady?
      invariant i < c.split && i == |lens| % c.split
      invariant lens == Plan(len, c.size, |lens|)
      invariant srcOff == Covered(len, c.size, |lens|) && lenp == len - srcOff
      invariant area[..] == Apply(area0, SlotWrites(src, len, c, |lens|))
      invariant forall m :: c.split <= m < mbox.Length ==> mbox[m] == mbox0[m]
      invariant e.waitResult == env.waitResult
      invariant wr.Bailed? ==> wr.retval != len
      decreases lenp
    {
      var tlen;
      tlen, i := PushChunk(src, len, c, area, mbox, |lens|, i, srcOff);
      ApplyAppend(area0, SlotWrites(src, len, c, |lens|), SlotWrite(src, len, c, |lens|));
      lens := lens + [tlen];
      srcOff, lenp := srcOff + tlen, lenp - tlen;
      wr, e := AwaitHost(mbox, i, true, len, e);
    }
    SumPlan(len, c.size, |lens|);
    r := match wr
      case HostReady(_) => Completed(e.waitResult)
      case Bailed(retval) => GaveUp(retval)
      case HostStalled => Hung;
  }

  /** One turn of the send loop (libveo_udma.c:339-346): chunk n, taken at
      byte `srcOff` of the source, is copied to slot i and its length stored
      in mailbox word i; the cursor moves to the next slot. */
  method PushChunk(src: seq<Byte>, len: nat, c: Choice, area: array<Byte>, mbox: array<nat>,
                   ghost n: nat, i: nat, srcOff: nat)
    returns (tlen: nat, i': nat)
    requires |src| >= len && Feasible(c)
    requires area.Length == SUB_BUFF_LEN && mbox.Length == UDMA_MAX_SPLIT
    requires i == n % c.split && srcOff == Covered(len, c.size, n) < len
    modifies area, mbox
    ensures tlen == ChunkLen(len, c.size, n) && 0 < tlen <= c.size
    ensures Plan(len, c.size, n + 1) == Plan(len, c.size, n) + [tlen]
    ensures Covered(len, c.size, n + 1) == srcOff + tlen
    ensures SlotWrites(src, len, c, n + 1) == SlotWrites(src, len, c, n) + [SlotWrite(src, len, c, n)]
    ensures area[..] == Overwrite(old(area[..]), SlotWrite(src, len, c, n))
    ensures mbox[i] == tlen && forall m :: 0 <= m < mbox.Length && m != i ==> mbox[m] == old(mbox[m])
    ensures i' == (i + 1) % c.split && i' == (n + 1) % c.split
  {
    CoveredStep(len, c.size, n);
    tlen := Min(c.size, len - srcOff);
    var off := Offset(c.size, i);
    OffsetFits(c.split, c.size, SUB_BUFF_LEN, i);
    var w := Write(off, src[srcOff .. srcOff + tlen]);
    assert w == SlotWrite(src, len, c, n);
    Copy(area, off, w.bytes);
    mbox[i] := tlen;
    CursorStep(n, i, c.split);
    i' := (i + 1) % c.split;
  }

  /** veo_udma_recv with a length check on every mailbox word: a length
      larger than what is left of the destination, or than a slot, ends the
      transfer before anything is copied. */
  method Recv(reg: Registry, ctx: nat, payload: seq<Byte>, dst: array<Byte>, len: nat, ov: Override,
              lockHeld: bool, area: array<Byte>, mbox: array<nat>, env: HostEnv)
    returns (r: HostResult, ghost lens: seq<nat>)
    requires |payload| >= len && dst.Length >= len
    requires area.Length == SUB_BUFF_LEN && mbox.Length == UDMA_MAX_SPLIT
    requires dst != area && mbox as object != dst && mbox as object != area
    modifies dst, area, mbox
    ensures SearchSkipping(PeerKeys(old(reg.peers[..]), reg.numPeers), ctx).None? <==> r.NoPeer?
    ensures SearchSkipping(PeerKeys(old(reg.peers[..]), reg.numPeers), ctx).Some? ==> (r.Busy? <==> lockHeld)
    ensures r.NoPeer? || r.Busy? ==>
      lens == [] && dst[..] == old(dst[..]) && area[..] == old(area[..]) && mbox[..] == old(mbox[..])
    ensures var c := Chosen(TUNE_RECV, len, ov);
      && Sum(lens) <= len
      && (forall k :: 0 <= k < |lens| ==> 1 <= lens[k] <= c.size)
      && dst[..] == payload[..Sum(lens)] + old(dst[..])[Sum(lens)..]
      && forall m :: c.split <= m < mbox.Length ==> mbox[m] == old(mbox[m])
    ensures r.Completed? ==> Sum(lens) == len && r.retval == env.waitResult
    ensures r.GaveUp? ==> r.retval != len
    ensures r.Overrun? ==> r.tlen > len - Sum(lens) || r.tlen > Chosen(TUNE_RECV, len, ov).size
  {
    lens := [];
    TablesTunable();
    var peer := Scan(PeerKeys(reg.peers[..], reg.numPeers), ctx);
    if peer.None? {
      return NoPeer, lens;
    }
    if lockHeld {
      return Busy, lens;
    }
    var split, size := CalcSplit(TUNE_RECV, len, ov);
    r, lens := PullChunks(payload, dst, len, Choice(split, size), area, mbox, env);
  }

  /** The chunk loop of veo_udma_recv (libveo_udma.c:402-419) with the
      length check: wait until mailbox word j is set, copy that many bytes
      from slot j to the running destination offset, clear the word and move
      to the next slot. The VE's deposit of chunk k into its slot is modelled
      as the next bytes of `payload`, the VE's source, written into the slot
      when the host sees the mailbox word. */
  method PullChunks(payload: seq<Byte>, dst: array<Byte>, len: nat, c: Choice,
                    area: array<Byte>, mbox: array<nat>, env: HostEnv)
    returns (r: HostResult, ghost lens: seq<nat>)
    requires |payload| >= len && dst.Length >= len && Feasible(c)
    requires area.Length == SUB_BUFF_LEN && mbox.Length == UDMA_MAX_SPLIT
    requires dst != area && mbox as object != dst && mbox as object != area
    modifies dst, area, mbox
    ensures Sum(lens) <= len
    ensures forall k :: 0 <= k < |lens| ==> 1 <= lens[k] <= c.size
    ensures dst[..] == payload[..Sum(lens)] + old(dst[..])[Sum(lens)..]
    ensures forall m :: c.split <= m < mbox.Length ==> mbox[m] == old(mbox[m])
    ensures r.Completed? || r.GaveUp? || r.Overrun? || r.Hung?
    ensures r.Completed? ==> Sum(lens) == len && r.retval == env.waitResult
    ensures r.GaveUp? ==> r.retval != len
    ensures r.Overrun? ==> r.tlen > len - Sum(lens) || r.tlen > c.size
  {
    lens := [];
    var lenp, dstOff, j: nat := len, 0, 0;
    var e := env;
    var going := true;
    r := Hung;
    ghost var dst0, mbox0 := dst[..], mbox[..];
    while lenp > 0 && going
      invariant j < c.split
      invariant dstOff == Sum(lens) <= len && lenp == len - dstOff
      invariant forall k :: 0 <= k < |lens| ==> 1 <= lens[k] <= c.size
      invariant dst[..] == payload[..dstOff] + dst0[dstOff..]
      invariant forall m :: c.split <= m < mbox.Length ==> mbox[m] == mbox0[m]
      invariant e.waitResult == env.waitResult
      invariant !going ==> r.GaveUp? || r.Hung? || r.Overrun?
      invariant r.GaveUp? ==> r.retval != len
      invariant r.Overrun? ==> r.tlen > len - Sum(lens) || r.tlen > c.size
      decreases lenp, going
    {
      var wr;
      ghost var before := dst[..];
      wr, e := AwaitHost(mbox, j, false, len, e);
      assert dst[..] == before;
      if !wr.HostReady? {
        going := false;
        r := if wr.Bailed? then GaveUp(wr.retval) else Hung;
      } else if wr.value > lenp || wr.value > c.size {
        going := false;
        r := Overrun(wr.value);
      } else {
        var tlen := wr.value;
        j := PullChunk(payload, dst, c, area, mbox, j, dstOff, tlen);
        OverwriteExtend(dst0, payload, dstOff, tlen);
        assert dst[..] == payload[..dstOff + tlen] + dst0[dstOff + tlen..];
        SumAppend(lens, tlen);
        lens := lens + [tlen];
        dstOff, lenp := dstOff + tlen, lenp - tlen;
      }
    }
    if going {
      r := Completed(e.waitResult);
    }
  }

  /** One turn of the receive loop (libveo_udma.c:412-418) once mailbox word
      j holds a length `tlen` that fits: the VE's DMA of the next `tlen`
      payload bytes into slot j, the host's copy of them to the running
      destination offset, the clearing of the word and the move to the next
      slot. */
  method PullChunk(payload: seq<Byte>, dst: array<Byte>, c: Choice, area: array<Byte>, mbox: array<nat>,
                   j: nat, dstOff: nat, tlen: nat)
    returns (j': nat)
    requires Feasible(c) && j < c.split && tlen <= c.size
    requires dstOff + tlen <= |payload| && dstOff + tlen <= dst.Length
    requires area.Length == SUB_BUFF_LEN && mbox.Length == UDMA_MAX_SPLIT
    requires dst != area && mbox as object != dst && mbox as object != area
    modifies dst, area, mbox
    ensures dst[..] == Overwrite(old(dst[..]), Write(dstOff, payload[dstOff .. dstOff + tlen]))
    ensures Offset(c.size, j) + tlen <= area.Length
    ensures area[..] == Overwrite(old(area[..]), Write(Offset(c.size, j), payload[dstOff .. dstOff + tlen]))
    ensures mbox[j] == 0 && forall m :: 0 <= m < mbox.Length && m != j ==> mbox[m] == old(mbox[m])
    ensures j' == (j + 1) % c.split
  {
    var off := Offset(c.size, j);
    OffsetFits(c.split, c.size, SUB_BUFF_LEN, j);
    var bytes := payload[dstOff .. dstOff + tlen];
    Copy(area, off, bytes);
    assert area[off .. off + tlen] == bytes;
    Copy(dst, dstOff, area[off .. off + tlen]);
    mbox[j] := 0;
    j' := (j + 1) % c.split;
  }

  /** One turn of the receive loop as written (libveo_udma.c:403-419): copy
      `tlen` bytes to the running destination offset and subtract it from
      the size_t remainder, whatever the mailbox word says. Returns the bytes
      written and the new remainder and offset. */
  function RecvTurnAsWritten(lenp: nat, dstOff: nat, tlen: nat): (r: (Range, nat, nat))
    ensures r.0 == Range(dstOff, dstOff + tlen) && r.2 == dstOff + tlen
    ensures tlen <= lenp < U64 ==> r.1 == lenp - tlen
  {
    (Range(dstOff, dstOff + tlen), ToU64(lenp - tlen), dstOff + tlen)
  }

  /** A mailbox length of 16 with 10 bytes left writes 6 bytes past the end
      of a 10-byte destination, and the remainder wraps around to
      2^64 - 6, so the loop goes on waiting for more. */
  lemma RecvOverrunAsWritten()
    ensures var (written, lenp, _) := RecvTurnAsWritten(10, 0, 16);
      written.hi > 10 && lenp == U64 - 6 && lenp > 0
  {
  }
}
