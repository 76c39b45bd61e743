/** Layout of the shared segment of one peer and its mirror on the VE.

    The host allocates a segment of 2 * UDMA_BUFF_LEN bytes and splits it in
    two halves, the send and the receive sub-channel. Each half starts with
    its data area and ends with its mailbox array of UDMA_MAX_SPLIT words plus
    two spare words (libveo_udma.c:165-182). The VE rebuilds the same
    addresses as VEHVA offsets from the segment base, wiring its send side to
    the host's receive side and the other way round (libveo_udma_ve.c:123-128),
    and stages all payload through a DMA-registered mirror buffer
    (libveo_udma_ve.c:137-164). */
module ChannelLayout {
  import opened UdmaConst

  /** Bytes at the tail of each half reserved for the mailbox words. */
  const MAILBOX_AREA: nat := UDMA_MAX_SPLIT * WORD + 2 * WORD

  /** Size of the segment that the host allocates per peer. */
  const SHM_SIZE: nat := 2 * UDMA_BUFF_LEN

  /** Alignment and size granule of the VE mirror buffer. */
  const ALIGN_64MB: nat := 64 * 1024 * 1024

  /** A half-open byte range [lo, hi). */
  datatype Range = Range(lo: nat, hi: nat)

  predicate Within(a: Range, outer: Range)
  {
    outer.lo <= a.lo <= a.hi <= outer.hi
  }

  predicate Disjoint(a: Range, b: Range)
  {
    a.hi <= b.lo || b.hi <= a.lo
  }

  /** struct vh_udma_comm with addresses as numbers: the address of the
      mailbox array, the length of the data area, the start of the data area. */
  datatype HostComm = HostComm(len: nat, buffLen: nat, shm: nat)

  /** The data area and the mailbox array of a sub-channel. */
  function DataRange(c: HostComm): Range
  {
    Range(c.shm, c.shm + c.buffLen)
  }

  function MailboxRange(c: HostComm): Range
  {
    Range(c.len, c.len + UDMA_MAX_SPLIT * WORD)
  }

  /** The fields of struct vh_udma_peer that the VE receives by value. */
  datatype HostDesc = HostDesc(send: HostComm, recv: HostComm, shmAddr: nat, shmSize: nat)

  /** One half of the segment, starting at `half`: the mailbox array sits
      MAILBOX_AREA bytes before the end of the half and the data area is all
      that precedes it. */
  function SubChannel(half: nat): HostComm
  {
    var mbOffs := half + UDMA_BUFF_LEN - MAILBOX_AREA;
    HostComm(mbOffs, mbOffs - half, half)
  }

  /** The layout computed by veo_udma_peer_init for a segment at `shmAddr`:
      both data areas have length UDMA_BUFF_LEN - (UDMA_MAX_SPLIT*8 + 16),
      each mailbox array follows its data area, and the four regions are
      pairwise disjoint inside the segment. */
  function HostLayout(shmAddr: nat): (d: HostDesc)
    ensures d.shmAddr == shmAddr && d.shmSize == SHM_SIZE
    ensures d.send.shm == shmAddr && d.recv.shm == shmAddr + UDMA_BUFF_LEN
    ensures d.send.buffLen == d.recv.buffLen == UDMA_BUFF_LEN - (UDMA_MAX_SPLIT * 8 + 16)
    ensures d.send.len == d.send.shm + d.send.buffLen && d.recv.len == d.recv.shm + d.recv.buffLen
    ensures var seg := Range(shmAddr, shmAddr + d.shmSize);
      && Within(DataRange(d.send), seg) && Within(MailboxRange(d.send), seg)
      && Within(DataRange(d.recv), seg) && Within(MailboxRange(d.recv), seg)
    ensures Disjoint(DataRange(d.send), MailboxRange(d.send))
    ensures Disjoint(DataRange(d.send), DataRange(d.recv))
    ensures Disjoint(DataRange(d.send), MailboxRange(d.recv))
    ensures Disjoint(MailboxRange(d.send), DataRange(d.recv))
    ensures Disjoint(MailboxRange(d.send), MailboxRange(d.recv))
    ensures Disjoint(DataRange(d.recv), MailboxRange(d.recv))
  {
    HostDesc(SubChannel(shmAddr), SubChannel(shmAddr + UDMA_BUFF_LEN), shmAddr, SHM_SIZE)
  }

  /** Length of each data area, `buff_len` of both sub-channels. */
  const SUB_BUFF_LEN: nat := UDMA_BUFF_LEN - MAILBOX_AREA

  // -------------------------------------------------------------------
  // Slots of a data area: slot j of a transfer split in chunks of `size`
  // bytes starts at j * size (the SPLITBUFF / SPLITADDR macros).

  /** When split * size fits the data area, every slot lies inside it. */
  lemma SlotInside(j: nat, split: nat, size: nat, area: nat)
    requires j < split && split * size <= area
    ensures 0 <= j * size && j * size + size <= area
  {
    MulMonotone(0, j, size);
    assert (j + 1) * size <= split * size by {
      MulMonotone(j + 1, split, size);
    }
  }

  /** Distinct slots do not overlap. */
  lemma SlotsDisjoint(i: nat, j: nat, size: nat)
    requires i < j
    ensures i * size + size <= j * size
  {
    MulMonotone(i + 1, j, size);
  }

  lemma MulMonotone(a: nat, b: nat, c: nat)
    requires a <= b
    ensures a * c <= b * c
  {
    assert b * c == a * c + (b - a) * c;
  }

  // -------------------------------------------------------------------
  // The VE's view.

  /** struct ve_udma_comm: VEHVA of the mailbox array, length of the data
      area, VEHVA of the data area, VEHVA and VE address of the mirror. */
  datatype VeComm = VeComm(lenVehva: nat, buffLen: nat, shmVehva: nat, buffVehva: nat, buff: nat)

  /** shm_vehva + ((uint64_t)addr - vh_shm_base), computed in uint64_t. */
  function Translate(addr: nat, base: nat, shmVehva: nat): (r: nat)
    ensures r < U64
    ensures base <= addr && shmVehva + (addr - base) < U64 ==> r == shmVehva + (addr - base)
  {
    ToU64(shmVehva + ToU64(addr - base))
  }

  /** The addresses ve_udma_init derives from the host descriptor: the VE
      sends into the host's receive sub-channel and receives from the host's
      send sub-channel. The mirror fields are filled later. */
  function MirrorChannels(vh: HostDesc, shmVehva: nat): (r: (VeComm, VeComm))
  {
    var send := VeComm(Translate(vh.recv.len, vh.shmAddr, shmVehva), vh.recv.buffLen,
                       Translate(vh.recv.shm, vh.shmAddr, shmVehva), 0, 0);
    var recv := VeComm(Translate(vh.send.len, vh.shmAddr, shmVehva), vh.send.buffLen,
                       Translate(vh.send.shm, vh.shmAddr, shmVehva), 0, 0);
    (send, recv)
  }

  /** For the layout the host computes, the VE addresses are the host's at
      the same offsets from the segment base, the two sides are crossed, and
      the four regions stay disjoint in VEHVA space. */
  lemma MirroredLayout(shmAddr: nat, shmVehva: nat)
    requires shmVehva + SHM_SIZE <= U64
    ensures var vh := HostLayout(shmAddr);
      var (send, recv) := MirrorChannels(vh, shmVehva);
      && send.lenVehva == shmVehva + (vh.recv.len - shmAddr)
      && send.shmVehva == shmVehva + (vh.recv.shm - shmAddr)
      && recv.lenVehva == shmVehva + (vh.send.len - shmAddr)
      && recv.shmVehva == shmVehva + (vh.send.shm - shmAddr)
      && send.buffLen == vh.recv.buffLen && recv.buffLen == vh.send.buffLen
      && recv.shmVehva + recv.buffLen <= recv.lenVehva
      && recv.lenVehva + UDMA_MAX_SPLIT * WORD <= send.shmVehva
      && send.shmVehva + send.buffLen <= send.lenVehva
      && send.lenVehva + UDMA_MAX_SPLIT * WORD <= shmVehva + SHM_SIZE
  {
  }

  /** (bytes + 64MiB - 1) & ~(64MiB - 1) in uint64_t. */
  function RoundUp64M(bytes: bv64): bv64
  {
    (bytes + 0x3FF_FFFF) & !0x3FF_FFFF
  }

  /** Size of the mirror buffer of libveo_udma_ve.c (two halves of
      UDMA_BUFF_LEN) and of the prototype (two halves of UDMA_NUM_BUFFS
      buffers of 1 MiB): the byte count rounded up to a multiple of 64 MiB. */
  lemma MirrorSizes()
    ensures RoundUp64M(0x800_0000) == 0x800_0000 && 0x800_0000 as bv64 as int == 2 * UDMA_BUFF_LEN
    ensures RoundUp64M(0x40_0000) == 0x400_0000 && 0x40_0000 as bv64 as int == 2 * PROTO_NUM_BUFFS * PROTO_BUFF_LEN
    ensures 0x400_0000 as bv64 as int == ALIGN_64MB
  {
  }

  /** Size of the VE mirror allocation. */
  const MIRROR_SIZE: nat := 2 * UDMA_BUFF_LEN

  /** The two mirror halves carved from one allocation at `base` (VE address)
      registered at `baseVehva`: send mirror first, receive mirror
      UDMA_BUFF_LEN later, in both address spaces, disjoint and inside the
      allocation. */
  function MirrorBuffers(send: VeComm, recv: VeComm, base: nat, baseVehva: nat): (r: (VeComm, VeComm))
    ensures r.0.buff == base && r.0.buffVehva == baseVehva
    ensures r.1.buff == base + UDMA_BUFF_LEN && r.1.buffVehva == baseVehva + UDMA_BUFF_LEN
    ensures r.0.buff + UDMA_BUFF_LEN <= r.1.buff && r.1.buff + UDMA_BUFF_LEN <= base + MIRROR_SIZE
    ensures r.0.buffVehva + UDMA_BUFF_LEN <= r.1.buffVehva
    ensures r.1.buffVehva + UDMA_BUFF_LEN <= baseVehva + MIRROR_SIZE
    ensures r.0.lenVehva == send.lenVehva && r.0.shmVehva == send.shmVehva && r.0.buffLen == send.buffLen
    ensures r.1.lenVehva == recv.lenVehva && r.1.shmVehva == recv.shmVehva && r.1.buffLen == recv.buffLen
  {
    (send.(buff := base, buffVehva := baseVehva),
     recv.(buff := base + UDMA_BUFF_LEN, buffVehva := baseVehva + UDMA_BUFF_LEN))
  }
}
