/** The two-buffer prototype of the VE library (libvehello.c), built with the
    constants of veo_udma_comm.h: UDMA_NUM_BUFFS = 2 slots in each direction,
    each with its own mailbox word and its own data buffer of
    UDMA_BUFF_LEN = 1 MiB in the host segment, and its own 1 MiB mirror
    buffer on the VE.

    The slots of one direction are modelled as in the library: one mailbox
    array `mbox` with a word per slot, and the data buffers of the host and
    the mirrors as slots of PROTO_BUFF_LEN bytes of one `area` and one `buff`
    array. The prototype's loops are the library's pipelines with two slots
    of 1 MiB, no timeouts and a size_t lenp (VeUdma.Variant.Prototype). */
module VeHello {
  import opened Wrappers
  import opened UdmaConst
  import opened ChannelLayout
  import opened Oracle
  import opened Ring
  import opened Memory
  import opened Slots
  import opened VeUdma
  import opened VeUdmaRecv

  // ---------------------------------------------------------------------
  // ve_udma_init

  /** struct vh_udma_comm of the prototype: host addresses of a slot's
      mailbox word and data buffer. */
  datatype HostSlot = HostSlot(len: nat, shm: nat)

  /** The fields of the prototype's struct vh_udma_peer that ve_udma_init
      reads: UDMA_NUM_BUFFS slots per direction, the segment key and size,
      and the segment's host address. */
  datatype ProtoDesc = ProtoDesc(send: seq<HostSlot>, recv: seq<HostSlot>, shmKey: int, shmSize: nat, shmAddr: nat)

  /** struct ve_udma_comm of the prototype. */
  datatype VeSlot = VeSlot(lenVehva: nat, shmVehva: nat, buffVehva: nat, buff: nat)

  /** struct ve_udma_peer of the prototype. */
  datatype ProtoPeer = ProtoPeer(send: seq<VeSlot>, recv: seq<VeSlot>)

  /** The globals of libvehello.c; `peer` is udma_peer. */
  datatype ProtoGlobals = ProtoGlobals(shmKey: int, shmSegid: int, shmVehva: nat, shmSize: nat,
                                       remoteAddr: nat, peer: Option<ProtoPeer>)

  /** The library as loaded: all globals zero. */
  const PROTO_LOADED := ProtoGlobals(0, 0, 0, 0, 0, None)

  /** The peer struct as malloc returns it; its fields are modelled as 0. */
  const BLANK := ProtoPeer([VeSlot(0, 0, 0, 0), VeSlot(0, 0, 0, 0)], [VeSlot(0, 0, 0, 0), VeSlot(0, 0, 0, 0)])

  /** The prototype's vhshm_register: records key, size and segment id,
      then attaches; it fails with -1, 3 or 4 where the library's copy
      returns -EINVAL, -ENOMEM and -ENOMEM. */
  function ProtoRegister(g: ProtoGlobals, key: int, size: nat, e: VeInitEnv): (r: (int, ProtoGlobals))
    ensures r.1.peer == g.peer && r.1.shmKey == key && r.1.shmSize == size && r.1.shmSegid == e.segid
    ensures r.0 == 0 <==> AttachOk(e)
    ensures r.0 == 0 || r.0 == -1 || r.0 == 3 || r.0 == 4
    ensures r.0 == 0 ==> r.1.shmVehva == e.attachVehva && r.1.remoteAddr == e.attachAddr
    ensures e.segid == -1 ==> r.0 == -1 && r.1.shmVehva == g.shmVehva && r.1.remoteAddr == g.remoteAddr
  {
    var g1 := g.(shmKey := key, shmSize := size, shmSegid := e.segid);
    if e.segid == -1 then (-1, g1)
    else if e.attachAddr == 0 then (3, g1.(remoteAddr := 0))
    else
      var g2 := g1.(remoteAddr := e.attachAddr, shmVehva := e.attachVehva);
      if e.attachVehva == U64 - 1 then (4, g2) else (0, g2)
  }

  /** Slot k of the VE's send side after the mirror loop: the host's
      receive slot k, at its host offset from shm_vehva. */
  function MirrorSend(vh: ProtoDesc, shmVehva: nat, k: nat): VeSlot
    requires k < |vh.recv|
  {
    VeSlot(Translate(vh.recv[k].len, vh.shmAddr, shmVehva), Translate(vh.recv[k].shm, vh.shmAddr, shmVehva), 0, 0)
  }

  /** Slot k of the VE's receive side after the mirror loop: the host's
      send slot k, at its host offset from shm_vehva. */
  function MirrorRecv(vh: ProtoDesc, shmVehva: nat, k: nat): VeSlot
    requires k < |vh.send|
  {
    VeSlot(Translate(vh.send[k].len, vh.shmAddr, shmVehva), Translate(vh.send[k].shm, vh.shmAddr, shmVehva), 0, 0)
  }

  /** The peer after the mirror loop. */
  function Mirrored(vh: ProtoDesc, shmVehva: nat): (p: ProtoPeer)
    requires |vh.send| == |vh.recv| == PROTO_NUM_BUFFS
    ensures |p.send| == |p.recv| == PROTO_NUM_BUFFS
  {
    ProtoPeer(seq(PROTO_NUM_BUFFS, k requires 0 <= k < PROTO_NUM_BUFFS => MirrorSend(vh, shmVehva, k)),
              seq(PROTO_NUM_BUFFS, k requires 0 <= k < PROTO_NUM_BUFFS => MirrorRecv(vh, shmVehva, k)))
  }

  /** The mirror buffers of the prototype in allocation order: send[0],
      recv[0], send[1], recv[1]. */
  function BufferOrder(p: ProtoPeer): (bs: seq<VeSlot>)
    requires |p.send| == |p.recv| == PROTO_NUM_BUFFS
    ensures |bs| == 2 * PROTO_NUM_BUFFS
  {
    [p.send[0], p.recv[0], p.send[1], p.recv[1]]
  }

  /** Size of the prototype's mirror allocation:
      2 * UDMA_NUM_BUFFS * UDMA_BUFF_LEN rounded up to 64 MiB. */
  const PROTO_MIRROR_SIZE: nat := ALIGN_64MB

  /** The peer after the layout loop, with the mirror allocation at `base`
      registered at `baseVehva`: the buffers follow each other in allocation
      order, UDMA_BUFF_LEN apart in both address spaces. */
  function LaidOut(p: ProtoPeer, base: nat, baseVehva: nat): (p': ProtoPeer)
    requires |p.send| == |p.recv| == PROTO_NUM_BUFFS
    ensures |p'.send| == |p'.recv| == PROTO_NUM_BUFFS
  {
    ProtoPeer(seq(PROTO_NUM_BUFFS, k requires 0 <= k < PROTO_NUM_BUFFS =>
                p.send[k].(buff := base + 2 * k * PROTO_BUFF_LEN, buffVehva := baseVehva + 2 * k * PROTO_BUFF_LEN)),
              seq(PROTO_NUM_BUFFS, k requires 0 <= k < PROTO_NUM_BUFFS =>
                p.recv[k].(buff := base + (2 * k + 1) * PROTO_BUFF_LEN,
                           buffVehva := baseVehva + (2 * k + 1) * PROTO_BUFF_LEN)))
  }

  /** The four mirror buffers lie one after another in allocation order,
      each UDMA_BUFF_LEN long, in both address spaces, and all of them fit
      in the allocation; so no two of them overlap. */
  lemma LaidOutConsecutive(p: ProtoPeer, base: nat, baseVehva: nat)
    requires |p.send| == |p.recv| == PROTO_NUM_BUFFS
    ensures var bs := BufferOrder(LaidOut(p, base, baseVehva));
      && (forall i :: 0 <= i < |bs| ==>
            bs[i].buff == base + i * PROTO_BUFF_LEN && bs[i].buffVehva == baseVehva + i * PROTO_BUFF_LEN)
      && base + |bs| * PROTO_BUFF_LEN <= base + PROTO_MIRROR_SIZE
      && (forall i, k :: 0 <= i < k < |bs| ==> bs[i].buff + PROTO_BUFF_LEN <= bs[k].buff)
  {
    var bs := BufferOrder(LaidOut(p, base, baseVehva));
    forall i, k | 0 <= i < k < |bs|
      ensures bs[i].buff + PROTO_BUFF_LEN <= bs[k].buff
    {
      MulMonotone(i + 1, k, PROTO_BUFF_LEN);
    }
  }

  /** The prototype's mirror size is 4 MiB rounded up to 64 MiB. */
  lemma ProtoMirrorSize()
    ensures RoundUp64M(0x40_0000) as int == PROTO_MIRROR_SIZE
    ensures 0x40_0000 == 2 * PROTO_NUM_BUFFS * PROTO_BUFF_LEN
  {
    MirrorSizes();
  }

  /** ve_udma_init(vh_up) of the prototype: the returned code and the new
      globals. udma_peer is set as soon as the struct is allocated; a failed
      registration frees it again; later failures return with the struct
      partly filled. */
  function ProtoInitSpec(g: ProtoGlobals, vh: ProtoDesc, e: VeInitEnv): (r: (int, ProtoGlobals))
    requires |vh.send| == |vh.recv| == PROTO_NUM_BUFFS
    ensures !e.mallocOk ==> r == (-(ENOMEM as int), g)
    ensures r.0 == 0 <==>
      && e.mallocOk && (g.shmVehva != 0 || AttachOk(e))
      && e.dmaInitRc == 0 && e.buffBase != 0 && e.buffVehva != U64 - 1
    ensures r.0 == 0 ==> r.1.peer.Some? && |r.1.peer.value.send| == |r.1.peer.value.recv| == PROTO_NUM_BUFFS
    ensures r.0 == 0 ==> forall k :: 0 <= k < PROTO_NUM_BUFFS ==>
      && r.1.peer.value.send[k].lenVehva == Translate(vh.recv[k].len, vh.shmAddr, r.1.shmVehva)
      && r.1.peer.value.send[k].shmVehva == Translate(vh.recv[k].shm, vh.shmAddr, r.1.shmVehva)
      && r.1.peer.value.recv[k].lenVehva == Translate(vh.send[k].len, vh.shmAddr, r.1.shmVehva)
      && r.1.peer.value.recv[k].shmVehva == Translate(vh.send[k].shm, vh.shmAddr, r.1.shmVehva)
    ensures r.0 == 0 ==> r.1.peer.value == LaidOut(r.1.peer.value, e.buffBase, e.buffVehva)
    ensures g.shmVehva != 0 ==>
      && r.1.shmKey == g.shmKey && r.1.shmSegid == g.shmSegid && r.1.shmVehva == g.shmVehva
      && r.1.shmSize == g.shmSize && r.1.remoteAddr == g.remoteAddr
    ensures e.mallocOk && g.shmVehva == 0 && !AttachOk(e) ==>
      r.1.peer.None? && r.0 == ProtoRegister(g, vh.shmKey, vh.shmSize, e).0
  {
    if !e.mallocOk then (-(ENOMEM as int), g)
    else
      var g0 := g.(peer := Some(BLANK));
      var reg := if g.shmVehva == 0 then ProtoRegister(g0, vh.shmKey, vh.shmSize, e) else (0, g0);
      if reg.0 != 0 then (reg.0, reg.1.(peer := None))
      else
        var p := Mirrored(vh, reg.1.shmVehva);
        if e.dmaInitRc != 0 then (e.dmaInitRc, reg.1.(peer := Some(p)))
        else if e.buffBase == 0 then (-(ENOMEM as int), reg.1.(peer := Some(p)))
        else if e.buffVehva == U64 - 1 then (-(ENOMEM as int), reg.1.(peer := Some(p)))
        else (0, reg.1.(peer := Some(LaidOut(p, e.buffBase, e.buffVehva))))
  }

  /** The mirror loop of ve_udma_init: slot by slot, the VE's send side
      takes the host's receive slots and the VE's receive side the host's
      send slots, each address moved from the host mapping to shm_vehva. */
  method MirrorSlots(vh: ProtoDesc, shmVehva: nat) returns (p: ProtoPeer)
    requires |vh.send| == |vh.recv| == PROTO_NUM_BUFFS
    ensures p == Mirrored(vh, shmVehva)
  {
    var send, recv := BLANK.send, BLANK.recv;
    var j := 0;
    while j < PROTO_NUM_BUFFS
      invariant 0 <= j <= PROTO_NUM_BUFFS && |send| == |recv| == PROTO_NUM_BUFFS
      invariant forall k :: 0 <= k < PROTO_NUM_BUFFS ==>
        send[k] == (if k < j then MirrorSend(vh, shmVehva, k) else VeSlot(0, 0, 0, 0))
      invariant forall k :: 0 <= k < PROTO_NUM_BUFFS ==>
        recv[k] == (if k < j then MirrorRecv(vh, shmVehva, k) else VeSlot(0, 0, 0, 0))
    {
      send := send[j := send[j].(lenVehva := Translate(vh.recv[j].len, vh.shmAddr, shmVehva))];
      send := send[j := send[j].(shmVehva := Translate(vh.recv[j].shm, vh.shmAddr, shmVehva))];
      recv := recv[j := recv[j].(lenVehva := Translate(vh.send[j].len, vh.shmAddr, shmVehva))];
      recv := recv[j := recv[j].(shmVehva := Translate(vh.send[j].shm, vh.shmAddr, shmVehva))];
      j := j + 1;
    }
    p := ProtoPeer(send, recv);
  }

  /** The layout loop of ve_udma_init: a running pointer into the mirror
      allocation (and one into its VEHVA) hands out UDMA_BUFF_LEN bytes to
      send[j], then to recv[j], for each slot j in turn. */
  method LayOut(p: ProtoPeer, base: nat, baseVehva: nat) returns (p': ProtoPeer)
    requires |p.send| == |p.recv| == PROTO_NUM_BUFFS
    ensures p' == LaidOut(p, base, baseVehva)
  {
    var send, recv := p.send, p.recv;
    var b, bv := base, baseVehva;
    var j := 0;
    while j < PROTO_NUM_BUFFS
      invariant 0 <= j <= PROTO_NUM_BUFFS && |send| == |recv| == PROTO_NUM_BUFFS
      invariant b == base + j * (2 * PROTO_BUFF_LEN) && bv == baseVehva + j * (2 * PROTO_BUFF_LEN)
      invariant forall k :: 0 <= k < PROTO_NUM_BUFFS ==>
        send[k] == (if k < j then LaidOut(p, base, baseVehva).send[k] else p.send[k])
      invariant forall k :: 0 <= k < PROTO_NUM_BUFFS ==>
        recv[k] == (if k < j then LaidOut(p, base, baseVehva).recv[k] else p.recv[k])
    {
      send := send[j := send[j].(buff := b)];
      b := b + PROTO_BUFF_LEN;
      send := send[j := send[j].(buffVehva := bv)];
      bv := bv + PROTO_BUFF_LEN;
      recv := recv[j := recv[j].(buff := b)];
      b := b + PROTO_BUFF_LEN;
      recv := recv[j := recv[j].(buffVehva := bv)];
      bv := bv + PROTO_BUFF_LEN;
      j := j + 1;
    }
    p' := ProtoPeer(send, recv);
  }

  /** The prototype's globals, updated in place by ve_udma_init. */
  class ProtoLibrary {
    var shmKey: int
    var shmSegid: int
    var shmVehva: nat
    var shmSize: nat
    var remoteAddr: nat
    var peer: Option<ProtoPeer>

    ghost function Model(): ProtoGlobals
      reads this
    {
      ProtoGlobals(shmKey, shmSegid, shmVehva, shmSize, remoteAddr, peer)
    }

    constructor ()
      ensures Model() == PROTO_LOADED
    {
      shmKey, shmSegid, shmVehva, shmSize, remoteAddr, peer := 0, 0, 0, 0, 0, None;
    }

    /** vhshm_register of the prototype. */
    method RegisterShm(key: int, size: nat, e: VeInitEnv) returns (err: int)
      modifies this
      ensures (err, Model()) == ProtoRegister(old(Model()), key, size, e)
    {
      shmKey := key;
      shmSize := size;
      shmSegid := e.segid;
      if shmSegid == -1 {
        return -1;
      }
      remoteAddr := e.attachAddr;
      if remoteAddr == 0 {
        return 3;
      }
      shmVehva := e.attachVehva;
      if shmVehva == U64 - 1 {
        return 4;
      }
      return 0;
    }

    /** ve_udma_init of the prototype: the mirror loop over the slots, then
        the layout loop that carves the four mirror buffers from one
        allocation of RoundUp64M(4 MiB) bytes. */
    method Init(vh: ProtoDesc, e: VeInitEnv) returns (err: int)
      requires |vh.send| == |vh.recv| == PROTO_NUM_BUFFS
      modifies this
      ensures (err, Model()) == ProtoInitSpec(old(Model()), vh, e)
    {
      if !e.mallocOk {
        return -(ENOMEM as int);
      }
      peer := Some(BLANK);
      if shmVehva == 0 {
        err := RegisterShm(vh.shmKey, vh.shmSize, e);
        if err != 0 {
          peer := None;
          return err;
        }
      }
      var p := MirrorSlots(vh, shmVehva);
      peer := Some(p);
      if e.dmaInitRc != 0 {
        return e.dmaInitRc;
      }
      if e.buffBase == 0 {
        return -(ENOMEM as int);
      }
      if e.buffVehva == U64 - 1 {
        return -(ENOMEM as int);
      }
      p := LayOut(p, e.buffBase, e.buffVehva);
      peer := Some(p);
      return 0;
    }
  }

  /** Init after a failed attach that stored (uint64_t)-1 as the VEHVA: the
      next init skips registration, as in the library, and mirrors every
      address from -1. */
  lemma ProtoBadAttachSticks(vh: ProtoDesc, e1: VeInitEnv, e2: VeInitEnv)
    requires |vh.send| == |vh.recv| == PROTO_NUM_BUFFS
    requires e1.mallocOk && e1.segid != -1 && e1.attachAddr != 0 && e1.attachVehva == U64 - 1
    requires e2.mallocOk && e2.dmaInitRc == 0 && e2.buffBase != 0 && e2.buffVehva != U64 - 1
    ensures var r1 := ProtoInitSpec(PROTO_LOADED, vh, e1);
      var r2 := ProtoInitSpec(r1.1, vh, e2);
      && r1.0 == 4 && r1.1.shmVehva == U64 - 1
      && r2.0 == 0 && r2.1.shmVehva == U64 - 1
      && r2.1.peer.value.send[0].lenVehva == Translate(vh.recv[0].len, vh.shmAddr, U64 - 1)
  {
  }

  // ---------------------------------------------------------------------
  // ve_udma_recv1

  /** The end of an iteration of ve_udma_recv1: the DMA of the first tlen
      bytes of the host's buffer into the mirror, then their copy to
      dst + off. The destination receives what the host's buffer held. */
  method Land(area: array<Byte>, buff: array<Byte>, dst: array<Byte>, off: nat, tlen: nat)
    requires tlen <= area.Length && tlen <= buff.Length && off + tlen <= dst.Length
    requires area != buff && dst != area && dst != buff
    modifies buff, dst
    ensures dst[..] == Overwrite(old(dst[..]), Write(off, old(area[0..tlen])))
  {
    ghost var b0 := buff[..];
    var piece := area[0..tlen];
    Copy(buff, 0, piece);
    OverwriteInside(b0, Write(0, piece));
    Copy(dst, off, buff[0..tlen]);
  }

  /** ve_udma_recv1(dst, len) with the length check of the library: the
      single-slot loop that waits (without a timeout) for mailbox word 0 of
      the host's send side to become nonzero, DMAs the announced bytes from
      the host's buffer into the mirror and waits for the DMA, copies them
      to the running destination offset and clears the word. A failed DMA
      clears the word and ends the loop. As in VeUdmaRecv, the host's copy
      of the next bytes of `payload` into its buffer, which precedes its
      store of the length, is modelled here. `count` is the returned
      len - lenp. */
  method Recv1(payload: seq<Byte>, dst: array<Byte>, len: nat, mbox: array<nat>, area: array<Byte>,
               buff: array<Byte>, env: VeEnv)
    returns (count: nat, ghost how: Ending)
    requires |payload| >= len && dst.Length >= len
    requires 1 <= mbox.Length && PROTO_BUFF_LEN <= area.Length && PROTO_BUFF_LEN <= buff.Length
    requires mbox as object != area && mbox as object != buff && area != buff
    requires mbox as object != dst && dst != area && dst != buff
    modifies dst, mbox, area, buff
    ensures count <= len
    ensures dst[..] == payload[..count] + old(dst[..])[count..]
    ensures how.Done? <==> count == len
    ensures how.Done? || how.Rejected? || how.PostFailed? || how.NoAnswer?
    ensures how.Rejected? ==> how.tlen > len - count || how.tlen > PROTO_BUFF_LEN
    ensures how.PostFailed? ==> mbox[0] == 0
  {
    ghost var d0 := dst[..];
    var lenp := len;
    var pos := 0;
    var e := env;
    how := Done;
    while lenp > 0
      invariant pos + lenp == len
      invariant dst[..] == payload[..pos] + d0[pos..]
      invariant how.Done?
      decreases Size(e)
    {
      var w;
      w, e := AwaitMailbox(mbox, 0, false, false, e);
      if !w.Ready? {
        how := NoAnswer;
        break;
      }
      var tlen := w.value;
      if !RecvAccepts(tlen, lenp, PROTO_BUFF_LEN) {
        how := Rejected(tlen);
        break;
      }
      var piece := payload[pos..pos + tlen];
      // the host's copy of its next bytes into its buffer
      ghost var a0 := area[..];
      Copy(area, 0, piece);
      OverwriteInside(a0, Write(0, piece));
      assert area[0..tlen] == piece;
      if |e.posts| == 0 {
        how := NoAnswer;
        break;
      }
      var p := e.posts[0];
      e := e.(posts := e.posts[1..]);
      if !p.DmaOk? {
        mbox[0] := 0;
        how := PostFailed(if p.DmaError? then p.code else -(EAGAIN as int));
        break;
      }
      ghost var d1 := dst[..];
      Land(area, buff, dst, pos, tlen);
      assert dst[..] == Overwrite(d1, Write(pos, piece));
      OverwriteExtend(d0, payload, pos, tlen);
      mbox[0] := 0;
      lenp := lenp - tlen;
      pos := pos + tlen;
    }
    count := pos;
  }

  /** The producer side of ve_udma_recv1 and of the prototype's ve_udma_recv
      as written, over the lengths the host announces: every length is taken
      whole, without a check, and subtracted from the size_t lenp; taking
      stops only once lenp is 0. Returns the final lenp and the bytes taken.
      The final lenp is lenp - taken modulo 2^64. */
  function {:induction false} TakeAsWritten(lenp: nat, tlens: seq<nat>): (r: (nat, nat))
    requires lenp < U64
    ensures r.0 < U64
    ensures r.0 == ToU64(lenp - r.1)
    decreases |tlens|
  {
    if lenp == 0 || tlens == [] then (lenp, 0)
    else
      var rest := TakeAsWritten(ToU64(lenp - tlens[0]), tlens[1..]);
      SubMod(lenp, tlens[0], rest.1);
      (rest.0, tlens[0] + rest.1)
  }

  /** Subtracting in two steps modulo 2^64 is subtracting the sum. */
  lemma SubMod(a: int, x: int, y: int)
    ensures ToU64(ToU64(a - x) - y) == ToU64(a - (x + y))
  {
    var q := (a - x) / U64;
    assert a - x == q * U64 + ToU64(a - x);
    assert ToU64(a - x) - y == (a - (x + y)) - q * U64;
    ModShift(a - (x + y), q);
  }

  /** Shifting by a multiple of 2^64 does not change the residue. */
  lemma ModShift(n: int, q: int)
    ensures ToU64(n - q * U64) == ToU64(n)
  {
    var r := ToU64(n);
    var d := n / U64;
    assert n == d * U64 + r;
    assert n - q * U64 == (d - q) * U64 + r;
    ModUnique(n - q * U64, U64, d - q, r);
  }

  /** ve_udma_recv1(dst, 4) against a host that announces 5 bytes: the
      length is taken, 5 bytes are copied to a 4-byte destination, and lenp
      wraps to 2^64 - 1, so the loop goes on waiting; the count the function
      would return is 5. The corrected Recv1 refuses the length. */
  lemma UncheckedOverrun()
    ensures TakeAsWritten(4, [5]) == (U64 - 1, 5)
    ensures TakeAsWritten(4, [5]).0 > 0
    ensures ToU64(4 - TakeAsWritten(4, [5]).0) == 5
    ensures !RecvAccepts(5, 4, PROTO_BUFF_LEN)
  {
    assert [5][1..] == [];
  }

  // ---------------------------------------------------------------------
  // ve_udma_send / ve_udma_recv

  /** The producer half of an iteration of the prototype's ve_udma_send as
      written: wait (without a timeout) until mailbox word j is empty, take
      MIN(UDMA_BUFF_LEN, lenp) bytes, and post the DMA of slot j of the send
      mirror into slot j of the host's area -- without first copying the
      next bytes of `src` into the mirror. The host's slot receives whatever
      the mirror slot held. */
  method SendProduceAsWritten(src: seq<Byte>, j: nat, pos: nat, lenp: nat,
                              mbox: array<nat>, area: array<Byte>, buff: array<Byte>, env: VeEnv)
    returns (st: Step, env': VeEnv)
    requires 0 < lenp && pos + lenp <= |src|
    requires j < PROTO_NUM_BUFFS <= mbox.Length
    requires PROTO_NUM_BUFFS * PROTO_BUFF_LEN <= area.Length && PROTO_NUM_BUFFS * PROTO_BUFF_LEN <= buff.Length
    requires mbox as object != area && mbox as object != buff && area != buff
    modifies mbox, area
    ensures Offset(PROTO_BUFF_LEN, j) + PROTO_BUFF_LEN <= buff.Length
    ensures st.Moved? ==> st.tlen == Min(PROTO_BUFF_LEN, lenp)
    ensures st.Moved? ==> area[..] == Overwrite(old(area[..]), Write(Offset(PROTO_BUFF_LEN, j),
      buff[Offset(PROTO_BUFF_LEN, j)..Offset(PROTO_BUFF_LEN, j) + st.tlen]))
    ensures !st.Moved? ==> area[..] == old(area[..])
    ensures st.Halt? ==> st.how.PostFailed? || st.how.NoAnswer?
    ensures st.Halt? && st.how.PostFailed? ==> mbox[j] == 0
  {
    OffsetFits(PROTO_NUM_BUFFS, PROTO_BUFF_LEN, buff.Length, j);
    OffsetFits(PROTO_NUM_BUFFS, PROTO_BUFF_LEN, area.Length, j);
    var w;
    w, env' := AwaitMailbox(mbox, j, true, false, env);
    if !w.Ready? {
      return Halt(NoAnswer), env';
    }
    var tlen := Min(PROTO_BUFF_LEN, lenp);
    var off := Offset(PROTO_BUFF_LEN, j);
    if |env'.posts| == 0 {
      return Halt(NoAnswer), env';
    }
    var p := env'.posts[0];
    env' := env'.(posts := env'.posts[1..]);
    if p.DmaAgain? {
      return Idle, env';
    } else if p.DmaError? {
      mbox[j] := 0;
      return Halt(PostFailed(p.code)), env';
    }
    // the DMA from slot j of the send mirror, which nothing has filled
    Copy(area, off, buff[off..off + tlen]);
    return Moved(tlen), env';
  }

  /** The bytes the prototype's send publishes for its first chunk come
      from the mirror, not from the source: with a mirror that starts with 0
      and a source that starts with 1, they differ from the first chunk of
      the source. */
  lemma StaleChunkPublished(src: seq<Byte>, buff: seq<Byte>)
    requires 1 <= |src| && src[0] == 1
    requires PROTO_NUM_BUFFS * PROTO_BUFF_LEN <= |buff| && buff[0] == 0
    ensures var tlen := Min(PROTO_BUFF_LEN, |src|);
      buff[Offset(PROTO_BUFF_LEN, 0)..Offset(PROTO_BUFF_LEN, 0) + tlen] != ChunkBytes(src, |src|, PROTO_BUFF_LEN, 0)
  {
    var tlen := Min(PROTO_BUFF_LEN, |src|);
    assert ChunkBytes(src, |src|, PROTO_BUFF_LEN, 0)[0] == src[0];
    assert buff[Offset(PROTO_BUFF_LEN, 0)..Offset(PROTO_BUFF_LEN, 0) + tlen][0] == buff[0];
  }

  /** The prototype's ve_udma_send(src, len), with the copy of each chunk of
      `src` into its mirror slot that the code as written leaves out: the
      library's pipeline on two slots of 1 MiB, without timeouts. Every
      completed chunk is published with its own bytes. */
  method Send(src: seq<Byte>, len: nat, mbox: array<nat>, area: array<Byte>, buff: array<Byte>, env: VeEnv)
    returns (count: nat, ghost how: Ending, ghost lens: seq<nat>, ghost published: seq<seq<Byte>>)
    requires |src| >= len
    requires PROTO_NUM_BUFFS <= mbox.Length
    requires PROTO_NUM_BUFFS * PROTO_BUFF_LEN <= area.Length && PROTO_NUM_BUFFS * PROTO_BUFF_LEN <= buff.Length
    requires mbox as object != area && mbox as object != buff && area != buff
    modifies mbox, area, buff
    ensures lens == Plan(len, PROTO_BUFF_LEN, |lens|)
    ensures count == Sum(lens) == Covered(len, PROTO_BUFF_LEN, |lens|) <= len
    ensures |published| <= |lens| && published == Chunks(src, len, PROTO_BUFF_LEN, |published|)
    ensures how.Done? <==> |published| == |lens| && count == len
    ensures how.Done? || how.PostFailed? || how.PollFailed? || how.NoAnswer?
  {
    count, how, lens, published := VeUdma.Send(src, len, PROTO_NUM_BUFFS, PROTO_BUFF_LEN, Prototype, mbox, area, buff, env);
  }

  /** The prototype's ve_udma_recv(dst, len), with the length check of the
      library: the library's pipeline on two slots of 1 MiB, without
      timeouts and without packing. The completed chunks fill the
      destination from its start. */
  method Recv(payload: seq<Byte>, dst: array<Byte>, len: nat, mbox: array<nat>, area: array<Byte>,
              buff: array<Byte>, env: VeEnv)
    returns (count: nat, ghost how: Ending, ghost lens: seq<nat>, ghost done: nat)
    requires |payload| >= len && dst.Length >= len
    requires PROTO_NUM_BUFFS <= mbox.Length
    requires PROTO_NUM_BUFFS * PROTO_BUFF_LEN <= area.Length && PROTO_NUM_BUFFS * PROTO_BUFF_LEN <= buff.Length
    requires mbox as object != area && mbox as object != buff && area != buff
    requires mbox as object != dst && dst != area && dst != buff
    modifies dst, mbox, area, buff
    ensures count == Sum(lens) <= len && done <= |lens|
    ensures forall k :: 0 <= k < |lens| ==> 1 <= lens[k] <= PROTO_BUFF_LEN
    ensures Sum(lens[..done]) <= count
    ensures dst[..] == payload[..Sum(lens[..done])] + old(dst[..])[Sum(lens[..done])..]
    ensures how.Done? <==> done == |lens| && count == len
    ensures how.Rejected? ==> how.tlen > len - count || how.tlen > PROTO_BUFF_LEN
    ensures how.Done? || how.Rejected? || how.PostFailed? || how.PollFailed? || how.NoAnswer?
  {
    count, how, lens, done := VeUdmaRecv.Recv(payload, dst, len, PROTO_NUM_BUFFS, PROTO_BUFF_LEN, false, Prototype,
                                              mbox, area, buff, env);
  }
}
