/** The VE side of the library (libveo_udma_ve.c): attaching to the host's
    shared segment and mirroring its layout, the split-slot send and receive
    pipelines, and the packed send.

    The VE addresses memory through three arrays: `mbox`, the 64 mailbox
    words of the sub-channel (len_vehva), `area`, the sub-channel's data area
    in the host segment (shm_vehva), and `buff`, the VE mirror buffer the DMA
    engine copies from or to. A DMA descriptor is modelled as taking effect
    when it is posted: nothing else writes its source or target range before
    it is polled, so the bytes it carries are the same either way. */
module VeUdma {
  import opened Wrappers
  import opened UdmaConst
  import opened ChannelLayout
  import opened Oracle
  import opened Ring
  import opened Memory
  import opened Slots

  // ---------------------------------------------------------------------
  // ve_udma_init / ve_udma_fini

  /** struct ve_udma_peer: the VE's view of both sub-channels. */
  datatype VePeer = VePeer(send: VeComm, recv: VeComm)

  /** The globals of libveo_udma_ve.c. Address 0 stands for NULL; `peer` is
      udma_peer. */
  datatype VeGlobals = VeGlobals(shmKey: int, shmSegid: int, shmVehva: nat, shmSize: nat,
                                 remoteAddr: nat, peer: Option<VePeer>)

  /** The library as loaded: all globals zero. */
  const LOADED := VeGlobals(0, 0, 0, 0, 0, None)

  /** Results of the calls ve_udma_init makes: malloc of the peer struct,
      vh_shmget (-1 on failure), vh_shmat (the address, 0 for NULL, and the
      VEHVA it stores when the address is not NULL), ve_dma_init,
      posix_memalign (0 for NULL) and ve_register_mem_to_dmaatb (U64 - 1 for
      (uint64_t)-1). */
  datatype VeInitEnv = VeInitEnv(mallocOk: bool, segid: int, attachAddr: nat, attachVehva: nat,
                                 dmaInitRc: int, buffBase: nat, buffVehva: nat)

  /** The shared-segment part of an init environment succeeds. */
  predicate AttachOk(e: VeInitEnv)
  {
    e.segid != -1 && e.attachAddr != 0 && e.attachVehva != U64 - 1
  }

  /** vhshm_register: records key, size and segment id, then attaches. */
  function Register(g: VeGlobals, key: int, size: nat, e: VeInitEnv): (r: (int, VeGlobals))
    ensures r.1.peer == g.peer
    ensures r.1.shmKey == key && r.1.shmSize == size && r.1.shmSegid == e.segid
    ensures r.0 == 0 <==> AttachOk(e)
    ensures r.0 != 0 ==> r.0 == -(EINVAL as int) || r.0 == -(ENOMEM as int)
    ensures r.0 == 0 ==> r.1.shmVehva == e.attachVehva && r.1.remoteAddr == e.attachAddr
    ensures e.segid == -1 ==> r.0 == -(EINVAL as int) && r.1.shmVehva == g.shmVehva && r.1.remoteAddr == g.remoteAddr
  {
    var g1 := g.(shmKey := key, shmSize := size, shmSegid := e.segid);
    if e.segid == -1 then (-(EINVAL as int), g1)
    else if e.attachAddr == 0 then (-(ENOMEM as int), g1.(remoteAddr := 0))
    else
      var g2 := g1.(remoteAddr := e.attachAddr, shmVehva := e.attachVehva);
      if e.attachVehva == U64 - 1 then (-(ENOMEM as int), g2) else (0, g2)
  }

  /** What a fully initialised peer holds, as a reference definition: the
      VE's send side is the host's receive sub-channel and the other way
      round, each address at its host offset from `shmVehva`, the buffer
      lengths crossed, and the two mirror halves at `base` and
      `base + UDMA_BUFF_LEN` in both address spaces. */
  ghost predicate Mirrors(p: VePeer, vh: HostDesc, shmVehva: nat, base: nat, baseVehva: nat)
  {
    && p.send.lenVehva == Translate(vh.recv.len, vh.shmAddr, shmVehva)
    && p.send.shmVehva == Translate(vh.recv.shm, vh.shmAddr, shmVehva)
    && p.recv.lenVehva == Translate(vh.send.len, vh.shmAddr, shmVehva)
    && p.recv.shmVehva == Translate(vh.send.shm, vh.shmAddr, shmVehva)
    && p.send.buffLen == vh.recv.buffLen && p.recv.buffLen == vh.send.buffLen
    && p.send.buff == base && p.send.buffVehva == baseVehva
    && p.recv.buff == base + UDMA_BUFF_LEN && p.recv.buffVehva == baseVehva + UDMA_BUFF_LEN
  }

  /** ve_udma_init(vh_up) with key vh_up->shm_key: the returned code and the
      new globals. Registration of the segment happens only while
      shm_vehva is 0; a failed registration frees the peer again. */
  function InitSpec(g: VeGlobals, key: int, vh: HostDesc, e: VeInitEnv): (r: (int, VeGlobals))
    ensures !e.mallocOk ==> r == (-(ENOMEM as int), g)
    ensures r.0 == 0 <==>
      && e.mallocOk && (g.shmVehva != 0 || AttachOk(e))
      && e.dmaInitRc == 0 && e.buffBase != 0 && e.buffVehva != U64 - 1
    ensures r.0 == 0 ==> r.1.peer.Some? && Mirrors(r.1.peer.value, vh, r.1.shmVehva, e.buffBase, e.buffVehva)
    ensures g.shmVehva != 0 ==>
      && r.1.shmKey == g.shmKey && r.1.shmSegid == g.shmSegid && r.1.shmVehva == g.shmVehva
      && r.1.shmSize == g.shmSize && r.1.remoteAddr == g.remoteAddr
    ensures e.mallocOk && g.shmVehva == 0 && !AttachOk(e) ==>
      r.1.peer.None? && r == (Register(g, key, vh.shmSize, e).0, Register(g, key, vh.shmSize, e).1.(peer := None))
  {
    if !e.mallocOk then (-(ENOMEM as int), g)
    else
      var reg := if g.shmVehva == 0 then Register(g, key, vh.shmSize, e) else (0, g);
      if reg.0 != 0 then (reg.0, reg.1.(peer := None))
      else
        var g1 := reg.1;
        var (send, recv) := MirrorChannels(vh, g1.shmVehva);
        var g2 := g1.(peer := Some(VePeer(send, recv)));
        if e.dmaInitRc != 0 then (e.dmaInitRc, g2)
        else if e.buffBase == 0 then (-(ENOMEM as int), g2)
        else if e.buffVehva == U64 - 1 then (-(ENOMEM as int), g2)
        else
          var (send', recv') := MirrorBuffers(send, recv, e.buffBase, e.buffVehva);
          (0, g1.(peer := Some(VePeer(send', recv'))))
  }

  /** ve_udma_fini: None when udma_peer is NULL (before any init, or after
      a failed registration), whose buffer address the unregister call
      reads. Otherwise the shared segment is detached, and shm_vehva reset
      so that the next init registers again, only when it was attached and
      vh_shmdt succeeds. The peer is not released. */
  function FiniSpec(g: VeGlobals, detachRc: int): (r: Option<VeGlobals>)
    ensures r.None? <==> g.peer.None?
    ensures r.Some? ==>
      var g' := r.value;
      && g'.peer == g.peer && g'.shmKey == g.shmKey && g'.shmSegid == g.shmSegid && g'.shmSize == g.shmSize
      && (g'.remoteAddr == 0 <==> g.remoteAddr == 0 || detachRc == 0)
      && (g.remoteAddr != 0 && detachRc == 0 ==> g'.shmVehva == 0)
      && (g.remoteAddr == 0 || detachRc != 0 ==> g' == g)
  {
    if g.peer.None? then None
    else if g.remoteAddr != 0 && detachRc == 0 then Some(g.(remoteAddr := 0, shmVehva := 0))
    else Some(g)
  }

  /** A fini after an init whose registration failed dereferences the NULL
      udma_peer; the segment, if vh_shmat attached it, stays attached. */
  lemma FiniAfterFailedRegister(g: VeGlobals, key: int, vh: HostDesc, e: VeInitEnv, detachRc: int)
    requires e.mallocOk && g.shmVehva == 0 && !AttachOk(e)
    ensures InitSpec(g, key, vh, e).0 != 0
    ensures FiniSpec(InitSpec(g, key, vh, e).1, detachRc).None?
  {
  }

  /** Init, fini, init: after a clean fini the next init registers the
      segment again (it takes the new segment id) and mirrors the new
      attachment. */
  lemma InitFiniInit(key: int, vh: HostDesc, e1: VeInitEnv, e2: VeInitEnv)
    requires InitSpec(LOADED, key, vh, e1).0 == 0
    requires AttachOk(e2) && e2.mallocOk && e2.dmaInitRc == 0 && e2.buffBase != 0 && e2.buffVehva != U64 - 1
    ensures FiniSpec(InitSpec(LOADED, key, vh, e1).1, 0).Some?
    ensures var g := FiniSpec(InitSpec(LOADED, key, vh, e1).1, 0).value;
      var r := InitSpec(g, key, vh, e2);
      && g.shmVehva == 0
      && r.0 == 0 && r.1.shmSegid == e2.segid && r.1.shmVehva == e2.attachVehva
      && Mirrors(r.1.peer.value, vh, e2.attachVehva, e2.buffBase, e2.buffVehva)
  {
    var g1 := InitSpec(LOADED, key, vh, e1).1;
    assert g1.remoteAddr == e1.attachAddr != 0;
  }

  /** A vh_shmat that returns an address but stores (uint64_t)-1 leaves -1 in
      shm_vehva. The next ve_udma_init then skips registration, succeeds, and
      mirrors every address from -1. */
  lemma BadAttachSticks(key: int, vh: HostDesc, e1: VeInitEnv, e2: VeInitEnv)
    requires e1.mallocOk && e1.segid != -1 && e1.attachAddr != 0 && e1.attachVehva == U64 - 1
    requires e2.mallocOk && e2.dmaInitRc == 0 && e2.buffBase != 0 && e2.buffVehva != U64 - 1
    ensures var r1 := InitSpec(LOADED, key, vh, e1);
      var r2 := InitSpec(r1.1, key, vh, e2);
      && r1.0 == -(ENOMEM as int) && r1.1.shmVehva == U64 - 1
      && r2.0 == 0 && r2.1.shmSegid == e1.segid && r2.1.shmVehva == U64 - 1
      && r2.1.peer.value.send.lenVehva == Translate(vh.recv.len, vh.shmAddr, U64 - 1)
  {
  }

  /** The library's globals, updated in place by init and fini. */
  class VeLibrary {
    var shmKey: int
    var shmSegid: int
    var shmVehva: nat
    var shmSize: nat
    var remoteAddr: nat
    var peer: Option<VePeer>

    ghost function Model(): VeGlobals
      reads this
    {
      VeGlobals(shmKey, shmSegid, shmVehva, shmSize, remoteAddr, peer)
    }

    constructor ()
      ensures Model() == LOADED
    {
      shmKey, shmSegid, shmVehva, shmSize, remoteAddr, peer := 0, 0, 0, 0, 0, None;
    }

    /** vhshm_register. */
    method RegisterShm(key: int, size: nat, e: VeInitEnv) returns (err: int)
      modifies this
      ensures (err, Model()) == Register(old(Model()), key, size, e)
    {
      shmKey := key;
      shmSize := size;
      shmSegid := e.segid;
      if shmSegid == -1 {
        return -(EINVAL as int);
      }
      remoteAddr := e.attachAddr;
      if remoteAddr == 0 {
        return -(ENOMEM as int);
      }
      shmVehva := e.attachVehva;
      if shmVehva == U64 - 1 {
        return -(ENOMEM as int);
      }
      return 0;
    }

    /** ve_udma_init. */
    method Init(key: int, vh: HostDesc, e: VeInitEnv) returns (err: int)
      modifies this
      ensures (err, Model()) == InitSpec(old(Model()), key, vh, e)
    {
      if !e.mallocOk {
        return -(ENOMEM as int);
      }
      if shmVehva == 0 {
        err := RegisterShm(key, vh.shmSize, e);
        if err != 0 {
          peer := None;
          return err;
        }
      }
      var send := VeComm(Translate(vh.recv.len, vh.shmAddr, shmVehva), vh.recv.buffLen,
                         Translate(vh.recv.shm, vh.shmAddr, shmVehva), 0, 0);
      var recv := VeComm(Translate(vh.send.len, vh.shmAddr, shmVehva), vh.send.buffLen,
                         Translate(vh.send.shm, vh.shmAddr, shmVehva), 0, 0);
      peer := Some(VePeer(send, recv));
      if e.dmaInitRc != 0 {
        return e.dmaInitRc;
      }
      // posix_memalign(&buff_base, 64 MiB, RoundUp64M(2 * UDMA_BUFF_LEN))
      // and ve_register_mem_to_dmaatb of the same size.
      if e.buffBase == 0 {
        return -(ENOMEM as int);
      }
      if e.buffVehva == U64 - 1 {
        return -(ENOMEM as int);
      }
      send := send.(buff := e.buffBase, buffVehva := e.buffVehva);
      recv := recv.(buff := e.buffBase + UDMA_BUFF_LEN, buffVehva := e.buffVehva + UDMA_BUFF_LEN);
      peer := Some(VePeer(send, recv));
      return 0;
    }

    /** ve_udma_fini. The result of unregistering the mirror buffer is only
        logged; `crashed` reports the dereference of a NULL udma_peer, after
        which nothing changes. */
    method Fini(unregisterRc: int, detachRc: int) returns (crashed: bool)
      modifies this
      ensures crashed <==> FiniSpec(old(Model()), detachRc).None?
      ensures crashed ==> Model() == old(Model())
      ensures !crashed ==> Model() == FiniSpec(old(Model()), detachRc).value
    {
      if peer.None? {
        return true;
      }
      crashed := false;
      if remoteAddr != 0 {
        if detachRc == 0 {
          remoteAddr := 0;
          shmVehva := 0;
        }
      }
    }
  }

  // ---------------------------------------------------------------------
  // ve_udma_send_packed

  /** Where the entries land in the send buffer: each at the sum of the
      8-byte-aligned lengths of the entries before it. */
  function PackedSize(es: seq<seq<Byte>>): nat
  {
    if es == [] then 0 else PackedSize(es[..|es| - 1]) + Align8(|es[|es| - 1]|)
  }

  /** The copies that pack the entries, in order. */
  function PackWrites(es: seq<seq<Byte>>): (ws: seq<Write>)
    ensures |ws| == |es|
    ensures Fit(ws, PackedSize(es))
  {
    if es == [] then []
    else
      var init := es[..|es| - 1];
      PackWrites(init) + [Write(PackedSize(init), es[|es| - 1])]
  }

  lemma PackStep(es: seq<seq<Byte>>, i: nat)
    requires i < |es|
    ensures PackedSize(es[..i + 1]) == PackedSize(es[..i]) + Align8(|es[i]|)
    ensures PackWrites(es[..i + 1]) == PackWrites(es[..i]) + [Write(PackedSize(es[..i]), es[i])]
  {
    assert es[..i + 1][..i] == es[..i];
  }

  /** The packed size of a prefix is at most that of the whole. */
  lemma {:induction false} PackedPrefix(es: seq<seq<Byte>>, i: nat)
    requires i <= |es|
    ensures PackedSize(es[..i]) <= PackedSize(es)
    decreases |es|
  {
    if i < |es| {
      assert es[..|es| - 1][..i] == es[..i];
      PackedPrefix(es[..|es| - 1], i);
    } else {
      assert es[..i] == es;
    }
  }

  /** Write k of the packing starts at the packed size of the entries before
      it, and every later write starts at or after its aligned end. */
  lemma {:induction false} PackWriteAt(es: seq<seq<Byte>>, k: nat)
    requires k < |es|
    ensures PackWrites(es)[k] == Write(PackedSize(es[..k]), es[k])
    ensures forall m :: k < m < |es| ==> PackWrites(es)[m].offset >= PackedSize(es[..k + 1])
    decreases |es|
  {
    var init := es[..|es| - 1];
    if k < |es| - 1 {
      PackWriteAt(init, k);
      assert init[..k] == es[..k] && init[..k + 1] == es[..k + 1];
      PackedPrefix(init, k + 1);
    } else {
      assert init == es[..k];
    }
  }

  /** A byte inside entry k's copy holds that entry's byte after packing:
      no later copy reaches it. */
  lemma PackedByte(a: seq<Byte>, es: seq<seq<Byte>>, k: nat, x: nat)
    requires PackedSize(es) <= |a| && k < |es|
    requires PackedSize(es[..k]) <= x < PackedSize(es[..k]) + |es[k]| && x < |a|
    ensures Apply(a, PackWrites(es))[x] == es[k][x - PackedSize(es[..k])]
  {
    var ws := PackWrites(es);
    PackWriteAt(es, k);
    PackStep(es, k);
    ApplyLast(a, ws, k, x);
  }

  /** After packing, entry k sits intact at its packed offset, in every
      buffer large enough for the packed size. */
  lemma PackedEntry(a: seq<Byte>, es: seq<seq<Byte>>, k: nat)
    requires PackedSize(es) <= |a| && k < |es|
    ensures PackedSize(es[..k]) + |es[k]| <= PackedSize(es)
    ensures Apply(a, PackWrites(es))[PackedSize(es[..k])..PackedSize(es[..k]) + |es[k]|] == es[k]
  {
    var off := PackedSize(es[..k]);
    PackStep(es, k);
    PackedPrefix(es, k + 1);
    var r := Apply(a, PackWrites(es));
    forall x | off <= x < off + |es[k]|
      ensures r[x] == es[k][x - off]
    {
      PackedByte(a, es, k, x);
    }
    assert r[off..off + |es[k]|] == es[k];
  }

  /** How a VE transfer ends. */
  datatype Ending =
    | Done                // the loop ran to its end
    | TimeUp              // a wait exceeded its timeout (-ETIME)
    | PostFailed(code: int)
    | PollFailed(code: int)
    | Rejected(tlen: nat) // a receive length failed the sanity check (-EINVAL)
    | Overflow            // the packed entries exceed the buffer (-ENOMEM)
    | NoAnswer            // the environment stopped answering

  /** Post a DMA descriptor while ve_dma_post answers -EAGAIN, checking the
      5 * UDMA_TIMEOUT_US timeout after each retry; then the same for
      polling it. */
  method PostAndPoll(env: VeEnv) returns (how: Ending, posted: bool, env': VeEnv)
    ensures how.Done? ==> posted
    ensures !posted ==> how.PostFailed? || how.TimeUp? || how.NoAnswer?
    ensures posted ==> how.Done? || how.PollFailed? || how.TimeUp? || how.NoAnswer?
    ensures Size(env') <= Size(env)
  {
    env' := env;
    posted := false;
    how := NoAnswer;
    while true
      invariant Size(env') <= Size(env)
      invariant !posted
      decreases Size(env')
    {
      if |env'.posts| == 0 {
        return;
      }
      var st := env'.posts[0];
      env' := env'.(posts := env'.posts[1..]);
      if st.DmaOk? {
        break;
      } else if st.DmaError? {
        how := PostFailed(st.code);
        return;
      }
      if |env'.clock| == 0 {
        return;
      }
      var late := env'.clock[0];
      env' := env'.(clock := env'.clock[1..]);
      if late {
        how := TimeUp;
        return;
      }
    }
    posted := true;
    while true
      invariant Size(env') <= Size(env)
      invariant posted && how.NoAnswer?
      decreases Size(env')
    {
      if |env'.polls| == 0 {
        return;
      }
      var st := env'.polls[0];
      env' := env'.(polls := env'.polls[1..]);
      if st.DmaOk? {
        how := Done;
        return;
      } else if st.DmaError? {
        how := PollFailed(st.code);
        return;
      }
      if |env'.clock| == 0 {
        return;
      }
      var late := env'.clock[0];
      env' := env'.(clock := env'.clock[1..]);
      if late {
        how := TimeUp;
        return;
      }
    }
  }

  /** ve_udma_send_packed(e, n): the entries are copied to their packed
      offsets in the send mirror `buff` while they fit in `buffLen` (the
      host's receive data area); then one DMA of the packed size carries the
      buffer into the host's `area`. `packed` counts the entries copied and
      `dmas` lists the length of every DMA posted. */
  method SendPacked(es: seq<seq<Byte>>, buffLen: nat, buff: array<Byte>, area: array<Byte>, env: VeEnv)
    returns (err: int, ghost how: Ending, ghost packed: nat, ghost dmas: seq<nat>)
    requires buffLen <= buff.Length && buffLen <= area.Length
    requires buff != area
    modifies buff, area
    ensures packed <= |es| && PackedSize(es[..packed]) <= buffLen
    ensures buff[..] == Apply(old(buff[..]), PackWrites(es[..packed]))
    ensures packed < |es| <==> PackedSize(es) > buffLen
    ensures PackedSize(es) > buffLen ==> err == -(ENOMEM as int) && how == Overflow && dmas == []
    ensures PackedSize(es) <= buffLen ==> dmas == [PackedSize(es)] || (dmas == [] && !how.Done?)
    ensures dmas == [] ==> area[..] == old(area[..])
    ensures dmas != [] ==>
      && PackedSize(es) <= buffLen
      && area[..] == Overwrite(old(area[..]), Write(0, buff[..PackedSize(es)]))
    ensures how.Done? ==> err == 0 && dmas == [PackedSize(es)]
    ensures how.PostFailed? ==> err == how.code && dmas == []
    ensures how.PollFailed? ==> err == how.code
    ensures how.TimeUp? ==> err == -(ETIME as int)
  {
    ghost var buff0 := buff[..];
    var tlen: nat := 0;
    var i := 0;
    while i < |es|
      invariant i <= |es| && tlen == PackedSize(es[..i]) <= buffLen
      invariant buff[..] == Apply(buff0, PackWrites(es[..i]))
      invariant area[..] == old(area[..])
    {
      var elen := Align8(|es[i]|);
      PackStep(es, i);
      if tlen + elen > buffLen {
        PackedPrefix(es, i + 1);
        return -(ENOMEM as int), Overflow, i, [];
      }
      ApplyAppend(buff0, PackWrites(es[..i]), Write(tlen, es[i]));
      Copy(buff, tlen, es[i]);
      tlen := tlen + elen;
      i := i + 1;
    }
    assert es[..i] == es;
    packed := i;
    var res: Ending, posted: bool, e: VeEnv;
    res, posted, e := PostAndPoll(env);
    how := res;
    if posted {
      // the DMA of the packed buffer into the host's data area
      Copy(area, 0, buff[..tlen]);
      dmas := [tlen];
    } else {
      dmas := [];
    }
    if res.PostFailed? || res.PollFailed? {
      err := res.code;
    } else if res.TimeUp? {
      err := -(ETIME as int);
    } else {
      // Done, or NoAnswer where the C loop would still be spinning
      err := 0;
    }
  }

  // ---------------------------------------------------------------------
  // ve_udma_send

  /** The two C versions of the split-slot pipelines. The library
      (libveo_udma_ve.c) keeps lenp in an int64_t and gives up on any wait
      longer than UDMA_TIMEOUT_US; the two-buffer prototype (libvehello.c)
      keeps lenp in a size_t and waits without limit. */
  datatype Variant = Library | Prototype

  /** What one half of a pipeline iteration did: a chunk moved (posted, or
      completed) with length `tlen`, nothing happened yet (EAGAIN), or the
      transfer ends. */
  datatype Step = Moved(tlen: nat) | Idle | Halt(how: Ending)

  /** The local state of the VE pipelines: the producer cursor j, the
      consumer cursor jr, the tlenr array, lenp, and the running source or
      destination offset (srcp - src, dstp - dst). */
  datatype Cursor = Cursor(j: int, jr: int, tl: seq<int>, lenp: int, pos: nat)

  /** The ghost history of a send: the chunk lengths posted, how many have
      completed, the bytes staged in each slot, and the bytes each completed
      slot held when its length was stored into its mailbox word. */
  datatype SendLog = SendLog(lens: seq<nat>, done: nat, staged: seq<seq<Byte>>, published: seq<seq<Byte>>)

  /** The state of ve_udma_send between iterations: the ring invariant over
      the chunks posted so far, which are the chunks of the plan; lenp and
      the source offset agree with them; every slot in flight holds, in the
      host's data area `a`, the bytes of the chunk posted there; and every
      completed chunk was published with its own bytes. */
  ghost predicate SendInv(src: seq<Byte>, len: nat, size: nat, split: nat, c: Cursor, g: SendLog, a: seq<Byte>)
    requires |src| >= len
  {
    && |c.tl| == UDMA_MAX_SPLIT && |g.staged| == UDMA_MAX_SPLIT
    && 1 <= split <= UDMA_MAX_SPLIT && size >= 1 && split * size <= |a|
    && RingInv(split, c.j, c.jr, c.tl, g.lens, g.done)
    && g.lens == Plan(len, size, |g.lens|)
    && c.lenp == len - Covered(len, size, |g.lens|) && c.pos == len - c.lenp
    && Carries(split, g.staged, Chunks(src, len, size, |g.lens|), g.done)
    && Holds(a, split, size, c.tl, g.staged)
    && g.published == Chunks(src, len, size, g.done)
  }

  /** What completing chunks does to the history of a send that had
      completed `done` chunks and published `published`: nothing completed
      and nothing was published, or exactly chunk `done` completed and was
      published with the bytes of its slot in the host's data area `a`,
      its length standing in that slot's mailbox word in `m`. */
  ghost predicate Publishes(done: nat, published: seq<seq<Byte>>, g': SendLog, split: nat, size: nat,
                            a: seq<Byte>, m: seq<nat>)
    requires split >= 1
  {
    && (g'.done == done || g'.done == done + 1)
    && (g'.done == done ==> g'.published == published)
    && (g'.done == done + 1 ==>
          var s := done % split;
          && done < |g'.lens| && s < |m| && m[s] == g'.lens[done]
          && Offset(size, s) + g'.lens[done] <= |a|
          && g'.published == published + [a[Offset(size, s)..Offset(size, s) + g'.lens[done]]])
  }

  /** Posting the next chunk into the free slot j keeps the invariant. */
  lemma SendInvPost(src: seq<Byte>, len: nat, size: nat, split: nat, c: Cursor, g: SendLog, a: seq<Byte>)
    requires |src| >= len
    requires SendInv(src, len, size, split, c, g, a)
    requires c.tl[c.j] == 0 && c.lenp > 0
    ensures 0 < ChunkLen(len, size, |g.lens|) <= size && ChunkLen(len, size, |g.lens|) == Min(size, c.lenp)
    ensures End(Write(Offset(size, c.j), ChunkBytes(src, len, size, |g.lens|))) <= |a|
    ensures var x := ChunkLen(len, size, |g.lens|);
      var chunk := ChunkBytes(src, len, size, |g.lens|);
      SendInv(src, len, size, split,
              Cursor((c.j + 1) % split, if c.jr == -1 then c.j else c.jr, c.tl[c.j := x], c.lenp - x, c.pos + x),
              g.(lens := g.lens + [x], staged := g.staged[c.j := chunk]),
              Overwrite(a, Write(Offset(size, c.j), chunk)))
  {
    var n := |g.lens|;
    var x := ChunkLen(len, size, n);
    var chunk := ChunkBytes(src, len, size, n);
    PostRing(len, size, split, c, g.lens, g.done);
    PostStaged(src, len, size, split, c, g, a);
  }

  /** The cursor part of SendInvPost. */
  lemma PostRing(len: nat, size: nat, split: nat, c: Cursor, lens: seq<nat>, done: nat)
    requires RingInv(split, c.j, c.jr, c.tl, lens, done) && size >= 1
    requires lens == Plan(len, size, |lens|)
    requires c.lenp == len - Covered(len, size, |lens|) && c.pos == len - c.lenp
    requires c.tl[c.j] == 0 && c.lenp > 0
    ensures 0 < ChunkLen(len, size, |lens|) <= size && ChunkLen(len, size, |lens|) == Min(size, c.lenp)
    ensures RingInv(split, (c.j + 1) % split, if c.jr == -1 then c.j else c.jr,
                    c.tl[c.j := ChunkLen(len, size, |lens|)], lens + [ChunkLen(len, size, |lens|)], done)
    ensures lens + [ChunkLen(len, size, |lens|)] == Plan(len, size, |lens| + 1)
    ensures c.lenp - ChunkLen(len, size, |lens|) == len - Covered(len, size, |lens| + 1)
  {
    CoveredStep(len, size, |lens|);
    RingPost(split, c.j, c.jr, c.tl, lens, done, ChunkLen(len, size, |lens|));
  }

  /** The slot-contents part of SendInvPost. */
  lemma PostStaged(src: seq<Byte>, len: nat, size: nat, split: nat, c: Cursor, g: SendLog, a: seq<Byte>)
    requires |src| >= len
    requires |c.tl| == UDMA_MAX_SPLIT && |g.staged| == UDMA_MAX_SPLIT
    requires 1 <= split <= UDMA_MAX_SPLIT && size >= 1 && split * size <= |a|
    requires RingInv(split, c.j, c.jr, c.tl, g.lens, g.done)
    requires Carries(split, g.staged, Chunks(src, len, size, |g.lens|), g.done)
    requires Holds(a, split, size, c.tl, g.staged)
    requires c.tl[c.j] == 0 && 0 < ChunkLen(len, size, |g.lens|) <= size
    ensures End(Write(Offset(size, c.j), ChunkBytes(src, len, size, |g.lens|))) <= |a|
    ensures var chunk := ChunkBytes(src, len, size, |g.lens|);
      && Carries(split, g.staged[c.j := chunk], Chunks(src, len, size, |g.lens| + 1), g.done)
      && Holds(Overwrite(a, Write(Offset(size, c.j), chunk)), split, size,
               c.tl[c.j := ChunkLen(len, size, |g.lens|)], g.staged[c.j := chunk])
  {
    var n := |g.lens|;
    var chunk := ChunkBytes(src, len, size, n);
    RingFacts(split, c.j, c.jr, c.tl, g.lens, g.done);
    assert Chunks(src, len, size, n + 1) == Chunks(src, len, size, n) + [chunk];
    CarriesPost(split, g.staged, Chunks(src, len, size, n), g.done, chunk);
    HoldsPost(a, split, size, c.tl, g.staged, c.j, chunk);
  }

  /** Completing the oldest chunk: its slot holds exactly that chunk's bytes,
      and clearing the slot keeps the invariant with the chunk published. */
  lemma SendInvComplete(src: seq<Byte>, len: nat, size: nat, split: nat, c: Cursor, g: SendLog, a: seq<Byte>)
    requires |src| >= len
    requires SendInv(src, len, size, split, c, g, a)
    requires c.jr >= 0 && c.tl[c.jr] > 0
    ensures g.done < |g.lens| && c.tl[c.jr] == g.lens[g.done] && Offset(size, c.jr) + c.tl[c.jr] <= |a|
    ensures a[Offset(size, c.jr)..Offset(size, c.jr) + c.tl[c.jr]] == ChunkBytes(src, len, size, g.done)
    ensures SendInv(src, len, size, split, c.(jr := (c.jr + 1) % split, tl := c.tl[c.jr := 0]),
                    g.(done := g.done + 1,
                       published := g.published + [a[Offset(size, c.jr)..Offset(size, c.jr) + c.tl[c.jr]]]), a)
  {
    RingFacts(split, c.j, c.jr, c.tl, g.lens, g.done);
    RingComplete(split, c.j, c.jr, c.tl, g.lens, g.done);
    CompleteStaged(src, len, size, split, c, g, a);
  }

  /** The slot-contents part of SendInvComplete. */
  lemma CompleteStaged(src: seq<Byte>, len: nat, size: nat, split: nat, c: Cursor, g: SendLog, a: seq<Byte>)
    requires |src| >= len
    requires |c.tl| == UDMA_MAX_SPLIT && |g.staged| == UDMA_MAX_SPLIT
    requires 1 <= split <= UDMA_MAX_SPLIT && g.done < |g.lens| <= g.done + split
    requires 0 <= c.jr < split && c.jr == g.done % split && c.tl[c.jr] > 0
    requires Carries(split, g.staged, Chunks(src, len, size, |g.lens|), g.done)
    requires Holds(a, split, size, c.tl, g.staged)
    ensures Offset(size, c.jr) + c.tl[c.jr] <= |a|
    ensures a[Offset(size, c.jr)..Offset(size, c.jr) + c.tl[c.jr]] == ChunkBytes(src, len, size, g.done)
    ensures Carries(split, g.staged, Chunks(src, len, size, |g.lens|), g.done + 1)
    ensures Holds(a, split, size, c.tl[c.jr := 0], g.staged)
  {
    CarriesComplete(split, g.staged, Chunks(src, len, size, |g.lens|), g.done);
    ChunksAt(src, len, size, |g.lens|, g.done);
    HoldsClear(a, split, size, c.tl, g.staged, c.jr);
  }

  /** The producer half of an iteration of ve_udma_send: wait until the
      host has emptied mailbox word j, copy chunk n (at offset `pos` of the
      source) into slot j of the send mirror and post its DMA into slot j of
      the host's area. Once the wait has ended, the mirror slot holds the
      chunk whatever the post answers; EAGAIN leaves the host's area as it
      was, and another post error clears word j. */
  method SendProduce(src: seq<Byte>, len: nat, size: nat, split: nat, j: nat, pos: nat, lenp: int, ghost n: nat,
                     v: Variant, mbox: array<nat>, area: array<Byte>, buff: array<Byte>, env: VeEnv)
    returns (st: Step, env': VeEnv)
    requires |src| >= len && size >= 1 && 0 < lenp && pos == len - lenp == Covered(len, size, n)
    requires j < split <= mbox.Length && split * size <= area.Length && split * size <= buff.Length
    requires mbox as object != area && mbox as object != buff && area != buff
    modifies mbox, area, buff
    ensures Offset(size, j) + size <= area.Length
    ensures End(Write(Offset(size, j), ChunkBytes(src, len, size, n))) <= buff.Length
    ensures st.Moved? || st.Idle? || (st.Halt? && st.how.PostFailed?) ==>
      buff[..] == Overwrite(old(buff[..]), Write(Offset(size, j), ChunkBytes(src, len, size, n)))
    ensures st.Halt? && st.how.TimeUp? ==> buff[..] == old(buff[..])
    ensures st.Moved? || st.Idle? ==> mbox[j] == 0
    ensures forall i :: 0 <= i < mbox.Length && i != j ==> mbox[i] == old(mbox[i])
    ensures Size(env') <= Size(env)
    ensures Size(env') < Size(env) || st == Halt(NoAnswer)
    ensures st.Moved? ==> st.tlen == ChunkLen(len, size, n)
    ensures st.Moved? ==> area[..] == Overwrite(old(area[..]), Write(Offset(size, j), ChunkBytes(src, len, size, n)))
    ensures !st.Moved? ==> area[..] == old(area[..])
    ensures st.Halt? ==> st.how.TimeUp? || st.how.PostFailed? || st.how.NoAnswer?
    ensures st.Halt? && st.how.TimeUp? ==> v.Library?
    ensures st.Halt? && st.how.PostFailed? ==> mbox[j] == 0
  {
    OffsetFits(split, size, buff.Length, j);
    OffsetFits(split, size, area.Length, j);
    CoveredStep(len, size, n);
    var w;
    w, env' := AwaitMailbox(mbox, j, true, v.Library?, env);
    if w.TimedOut? {
      return Halt(TimeUp), env';
    } else if w.Stalled? {
      return Halt(NoAnswer), env';
    }
    var tlen := Min(size, lenp);
    var off := Offset(size, j);
    var chunk := src[pos..pos + tlen];
    assert chunk == ChunkBytes(src, len, size, n);
    ghost var buff0 := buff[..];
    Copy(buff, off, chunk);
    if |env'.posts| == 0 {
      return Halt(NoAnswer), env';
    }
    var p := env'.posts[0];
    env' := env'.(posts := env'.posts[1..]);
    if p.DmaAgain? {
      return Idle, env';
    } else if p.DmaError? {
      mbox[j] := 0;
      return Halt(PostFailed(p.code)), env';
    }
    OverwriteInside(buff0, Write(off, chunk));
    // the DMA from slot j of the send mirror to slot j of the host's area
    Copy(area, off, buff[off..off + tlen]);
    return Moved(tlen), env';
  }

  /** The consumer half of an iteration of ve_udma_send: poll the DMA of
      slot jr; once it is complete, store its length into mailbox word jr,
      which hands the slot's bytes to the host. In the library, EAGAIN is
      followed by the timeout test. */
  method SendConsume(mbox: array<nat>, jr: nat, tlen: nat, v: Variant, env: VeEnv) returns (st: Step, env': VeEnv)
    requires jr < mbox.Length
    modifies mbox
    ensures Size(env') <= Size(env)
    ensures Size(env') < Size(env) || st == Halt(NoAnswer)
    ensures st.Moved? ==> st.tlen == tlen && mbox[..] == old(mbox[..])[jr := tlen]
    ensures !st.Moved? ==> mbox[..] == old(mbox[..])
    ensures st.Halt? ==> st.how.TimeUp? || st.how.PollFailed? || st.how.NoAnswer?
    ensures st.Halt? && st.how.TimeUp? ==> v.Library?
  {
    env' := env;
    if |env'.polls| == 0 {
      return Halt(NoAnswer), env';
    }
    var p := env'.polls[0];
    env' := env'.(polls := env'.polls[1..]);
    if p.DmaOk? {
      mbox[jr] := tlen;
      return Moved(tlen), env';
    } else if p.DmaError? {
      return Halt(PollFailed(p.code)), env';
    }
    if v.Prototype? {
      return Idle, env';
    }
    if |env'.clock| == 0 {
      return Halt(NoAnswer), env';
    }
    var late := env'.clock[0];
    env' := env'.(clock := env'.clock[1..]);
    if late {
      return Halt(TimeUp), env';
    }
    return Idle, env';
  }

  /** ve_udma_send(src, len, split, split_size) into the host's receive
      sub-channel (`mbox`, `area`) through the send mirror `buff`. `count`
      is the returned len - lenp; `lens` lists the chunks posted and
      `published` the bytes each completed slot held when its length was
      stored into its mailbox word. */
  method Send(src: seq<Byte>, len: nat, split: nat, size: nat, v: Variant,
              mbox: array<nat>, area: array<Byte>, buff: array<Byte>, env: VeEnv)
    returns (count: nat, ghost how: Ending, ghost lens: seq<nat>, ghost published: seq<seq<Byte>>)
    requires |src| >= len
    requires 1 <= split <= UDMA_MAX_SPLIT && size >= 1
    requires split <= mbox.Length && split * size <= area.Length && split * size <= buff.Length
    requires mbox as object != area && mbox as object != buff && area != buff
    modifies mbox, area, buff
    ensures v.Library? && len >= I64 ==> count == 0 && lens == [] && published == [] && how.Done?
    ensures lens == Plan(len, size, |lens|)
    ensures count == Sum(lens) == Covered(len, size, |lens|) <= len
    ensures |published| <= |lens| && published == Chunks(src, len, size, |published|)
    ensures how.Done? <==> |published| == |lens| && (count == len || (v.Library? && len >= I64))
    ensures how.Done? || how.TimeUp? || how.PostFailed? || how.PollFailed? || how.NoAnswer?
    ensures how.TimeUp? ==> v.Library?
  {
    if v.Library? && len >= I64 {
      // (int64_t)len is negative: the loop does not run and len - lenp is 0
      return 0, Done, [], [];
    }
    var c := Cursor(0, -1, seq(UDMA_MAX_SPLIT, _ => 0), len, 0);
    ghost var g := SendLog([], 0, seq(UDMA_MAX_SPLIT, _ => []), []);
    var e := env;
    var going := true;
    var res := Done;
    RingInit(split, c.tl);
    while going && (c.lenp > 0 || (c.jr >= 0 && c.tl[c.jr] > 0))
      invariant SendInv(src, len, size, split, c, g, area[..])
      invariant going <==> res.Done?
      invariant !going ==> c.lenp > 0 || g.done < |g.lens|
      invariant res.Done? || res.TimeUp? || res.PostFailed? || res.PollFailed? || res.NoAnswer?
      invariant res.TimeUp? ==> v.Library?
      decreases Size(e), going
    {
      var st;
      st, c, g, e := SendRound(src, len, size, split, v, c, g, mbox, area, buff, e);
      if st.Halt? {
        res, going := st.how, false;
      }
    }
    RingFacts(split, c.j, c.jr, c.tl, g.lens, g.done);
    SumPlan(len, size, |g.lens|);
    count, how, lens, published := len - c.lenp, res, g.lens, g.published;
  }

  /** One iteration of the loop of ve_udma_send: post into slot j when it is
      free and bytes remain, then, unless the post answered EAGAIN (the C
      `continue`), poll slot jr when a chunk is in flight. Every iteration
      consumes some answer of the environment, or ends the transfer. A chunk
      completes at most once per iteration; it is published with the bytes
      of its slot in the host's area, and its length is in that slot's
      mailbox word. */
  method SendRound(src: seq<Byte>, len: nat, size: nat, split: nat, v: Variant, c: Cursor, ghost g: SendLog,
                   mbox: array<nat>, area: array<Byte>, buff: array<Byte>, env: VeEnv)
    returns (st: Step, c': Cursor, ghost g': SendLog, env': VeEnv)
    requires |src| >= len
    requires SendInv(src, len, size, split, c, g, area[..])
    requires c.lenp > 0 || (c.jr >= 0 && c.tl[c.jr] > 0)
    requires split <= mbox.Length && split * size <= buff.Length
    requires mbox as object != area && mbox as object != buff && area != buff
    modifies mbox, area, buff
    ensures SendInv(src, len, size, split, c', g', area[..])
    ensures Publishes(g.done, g.published, g', split, size, area[..], mbox[..])
    ensures Size(env') < Size(env) || (Size(env') == Size(env) && st.Halt?)
    ensures st.Halt? ==> c'.lenp > 0 || g'.done < |g'.lens|
    ensures st.Halt? ==> st.how.TimeUp? || st.how.PostFailed? || st.how.PollFailed? || st.how.NoAnswer?
    ensures st.Halt? && st.how.TimeUp? ==> v.Library?
  {
    RingFacts(split, c.j, c.jr, c.tl, g.lens, g.done);
    c', g', env' := c, g, env;
    st := Idle;
    var idle := false;
    if c.tl[c.j] == 0 && c.lenp > 0 {
      st, c', g', env' := SendPostStep(src, len, size, split, v, c, g, mbox, area, buff, env);
      idle := st.Idle?;
    }
    if !st.Halt? && !idle && c'.jr >= 0 && c'.tl[c'.jr] > 0 {
      st, c', g', env' := SendCompleteStep(src, len, size, split, v, c', g', mbox, area, env');
    }
  }

  /** The producer half of an iteration of ve_udma_send on the send state:
      a chunk that moved joins the ring at slot j, staged in the host's
      area; nothing completes. */
  method SendPostStep(src: seq<Byte>, len: nat, size: nat, split: nat, v: Variant, c: Cursor, ghost g: SendLog,
                      mbox: array<nat>, area: array<Byte>, buff: array<Byte>, env: VeEnv)
    returns (st: Step, c': Cursor, ghost g': SendLog, env': VeEnv)
    requires |src| >= len
    requires SendInv(src, len, size, split, c, g, area[..])
    requires c.tl[c.j] == 0 && c.lenp > 0
    requires split <= mbox.Length && split * size <= buff.Length
    requires mbox as object != area && mbox as object != buff && area != buff
    modifies mbox, area, buff
    ensures SendInv(src, len, size, split, c', g', area[..])
    ensures g'.done == g.done && g'.published == g.published
    ensures Size(env') <= Size(env)
    ensures Size(env') < Size(env) || st == Halt(NoAnswer)
    ensures st.Moved? ==> |g'.lens| == |g.lens| + 1
    ensures !st.Moved? ==> c' == c && g' == g
    ensures st.Halt? ==> st.how.TimeUp? || st.how.PostFailed? || st.how.NoAnswer?
    ensures st.Halt? && st.how.TimeUp? ==> v.Library?
  {
    c', g' := c, g;
    ghost var a0 := area[..];
    SendInvPost(src, len, size, split, c, g, a0);
    st, env' := SendProduce(src, len, size, split, c.j, c.pos, c.lenp, |g.lens|, v, mbox, area, buff, env);
    if st.Moved? {
      c' := Cursor((c.j + 1) % split, if c.jr == -1 then c.j else c.jr, c.tl[c.j := st.tlen],
                   c.lenp - st.tlen, c.pos + st.tlen);
      g' := g.(lens := g.lens + [st.tlen], staged := g.staged[c.j := ChunkBytes(src, len, size, |g.lens|)]);
    }
  }

  /** The consumer half of an iteration of ve_udma_send on the send state:
      once the oldest chunk's DMA completes, its length is stored into its
      mailbox word and the bytes of its slot in the host's area, which are
      its own source bytes, are published. */
  method SendCompleteStep(src: seq<Byte>, len: nat, size: nat, split: nat, v: Variant, c: Cursor, ghost g: SendLog,
                          mbox: array<nat>, area: array<Byte>, env: VeEnv)
    returns (st: Step, c': Cursor, ghost g': SendLog, env': VeEnv)
    requires |src| >= len
    requires SendInv(src, len, size, split, c, g, area[..])
    requires c.jr >= 0 && c.tl[c.jr] > 0
    requires split <= mbox.Length
    requires mbox as object != area
    modifies mbox
    ensures SendInv(src, len, size, split, c', g', area[..])
    ensures Size(env') <= Size(env)
    ensures Size(env') < Size(env) || st == Halt(NoAnswer)
    ensures g'.lens == g.lens && g.done < |g.lens|
    ensures st.Moved? ==> g'.done == g.done + 1
    ensures Publishes(g.done, g.published, g', split, size, area[..], mbox[..])
    ensures !st.Moved? ==> c' == c && g' == g
    ensures st.Halt? ==> st.how.TimeUp? || st.how.PollFailed? || st.how.NoAnswer?
    ensures st.Halt? && st.how.TimeUp? ==> v.Library?
  {
    ghost var a1 := area[..];
    RingFacts(split, c.j, c.jr, c.tl, g.lens, g.done);
    SendInvComplete(src, len, size, split, c, g, a1);
    var s: nat, x: nat := c.jr, c.tl[c.jr];
    ghost var slot := a1[Offset(size, s)..Offset(size, s) + x];
    st, env' := SendConsume(mbox, s, x, v, env);
    assert area[..] == a1;
    c', g' := c, g;
    if st.Moved? {
      c' := c.(jr := (s + 1) % split, tl := c.tl[s := 0]);
      g' := g.(done := g.done + 1, published := g.published + [slot]);
    }
  }
}
