/** The host's process and peer registry (libveo_udma.c:18-212).

    Two global pointer tables, udma_procs[UDMA_MAX_PROCS] and
    udma_peers[UDMA_MAX_PEERS], grow append-only behind the counters
    udma_num_procs and udma_num_peers. A process entry counts the peers that
    use it; veo_udma_peer_fini decrements that count, frees the entry when it
    reaches 0, and frees the peer, leaving NULL slots below the counters.

    `Tables` is a value snapshot of the globals and the spec functions below
    say what each operation does to it; the class `Registry` holds the tables
    as arrays and its methods do the same step by step. A NULL pointer is
    `None`. A dereference of a NULL slot or a write past a table is undefined
    behaviour in C; the model reports it as the outcome `Crash`. */
module HostRegistry {
  import opened Wrappers
  import opened UdmaConst
  import opened ChannelLayout

  /** struct vh_udma_proc. The VE function addresses looked up with
      veo_get_sym are not part of this model. */
  datatype ProcEntry = ProcEntry(veNodeId: int, count: int, proc: nat, libHandle: nat)

  /** struct vh_udma_peer. `layout` holds the sub-channel layout once it has
      been computed from a segment address, None when it never was. */
  datatype PeerEntry = PeerEntry(procId: nat, ctx: nat, shmKey: int, shmSegid: int,
                                 shmAddr: int, layout: Option<HostDesc>)

  /** The globals: counters and both tables. */
  datatype Tables = Tables(numProcs: nat, numPeers: nat,
                           procs: seq<Option<ProcEntry>>, peers: seq<Option<PeerEntry>>)

  /** Result of a registry call: the int it returns, or undefined behaviour. */
  datatype Outcome = Returned(rc: int) | Crash

  /** The arguments of veo_udma_peer_init that the registry keeps. */
  datatype InitArgs = InitArgs(veNodeId: int, proc: nat, ctx: nat, libHandle: nat)

  type Errno = e: nat | e > 0 witness 1

  /** What shmget and shmat did inside vh_shm_init. After a failed shmget the
      address out-parameter keeps whatever value it had (`stale`). */
  datatype ShmAttempt = GetFailed(errno: Errno, stale: int) | AttachFailed(errno: Errno)
                      | Attached(segid: nat, addr: nat)

  /** The outcomes of the foreign calls veo_udma_peer_init makes: the two
      mallocs, getpid, vh_shm_init, shmdt and shmctl in vh_shm_fini on the
      error path, and the VE-side setup call. */
  datatype InitEnv = InitEnv(procAllocOk: bool, peerAllocOk: bool, pid: nat, shm: ShmAttempt,
                             detachOk: bool, removeOk: bool, setupRc: int)

  // -------------------------------------------------------------------
  // Shared memory helpers.

  /** vh_shm_init: the segment id and the mapped address on success; minus
      the errno of the failing call otherwise, with the address left stale
      after shmget failed and (void *)-1 after shmat failed. */
  function VhShmInit(a: ShmAttempt): (r: (int, int))
    ensures r.0 >= 0 <==> a.Attached?
    ensures !a.Attached? ==> r.0 == -(a.errno as int)
    ensures a.Attached? ==> r.1 == a.addr
  {
    match a
    case GetFailed(errno, stale) => (-(errno as int), stale)
    case AttachFailed(errno) => (-(errno as int), -1)
    case Attached(segid, addr) => (segid, addr)
  }

  /** vh_shm_fini: detach unless the address is (void *)-1, then remove the
      segment unless the id is -1; 0 exactly when every call it made
      succeeded, -1 otherwise. */
  function VhShmFini(segid: int, addrSet: bool, detachOk: bool, removeOk: bool): (err: int)
    ensures err == 0 || err == -1
    ensures err == 0 <==> (!addrSet || detachOk) && (segid == -1 || removeOk)
  {
    if addrSet && !detachOk then -1
    else if segid != -1 && !removeOk then -1
    else 0
  }

  /** The failure test of veo_udma_peer_init as written (libveo_udma.c:167). */
  predicate ShmFailedAsWritten(segid: int)
  {
    segid == -1
  }

  /** The failure test vh_shm_init's convention calls for: any negative id. */
  predicate ShmFailed(segid: int)
  {
    segid < 0
  }

  /** The written test catches a failure only when its errno is EPERM; the
      test for a negative id catches every failure and nothing else. An
      attach that fails with ENOMEM slips through the written test. */
  lemma ShmFailureMissed()
    ensures forall a: ShmAttempt :: ShmFailed(VhShmInit(a).0) <==> !a.Attached?
    ensures forall a: ShmAttempt :: ShmFailedAsWritten(VhShmInit(a).0) <==> !a.Attached? && a.errno == EPERM
    ensures var (segid, addr) := VhShmInit(AttachFailed(ENOMEM));
      !ShmFailedAsWritten(segid) && ShmFailed(segid) && addr == -1
  {
  }

  /** The layout computed from a segment address; none from (void *)-1. */
  function LayoutAt(addr: int): Option<HostDesc>
  {
    if addr >= 0 then Some(HostLayout(addr)) else None
  }

  // -------------------------------------------------------------------
  // Searching the tables.

  /** The keys a search compares: proc handles of the first n process slots,
      contexts of the first n peer slots; None for a NULL slot or one past
      the table. */
  function ProcKeys(procs: seq<Option<ProcEntry>>, n: nat): seq<Option<nat>>
  {
    seq(n, i requires 0 <= i < n => if i < |procs| && procs[i].Some? then Some(procs[i].value.proc) else None)
  }

  function PeerKeys(peers: seq<Option<PeerEntry>>, n: nat): seq<Option<nat>>
  {
    seq(n, i requires 0 <= i < n => if i < |peers| && peers[i].Some? then Some(peers[i].value.ctx) else None)
  }

  /** Result of a search as written: the first matching slot, no match, or
      the first NULL slot, whose dereference ends the search. */
  datatype Search = Found(index: nat) | Missing | NullSlot(index: nat)

  /** The loops at libveo_udma.c:136-141 and 316-321: dereference every slot
      in order until one matches. */
  function SearchAsWritten(keys: seq<Option<nat>>, key: nat): (r: Search)
    ensures r.Found? ==> r.index < |keys| && keys[r.index] == Some(key)
    ensures r.NullSlot? ==> r.index < |keys| && keys[r.index].None?
    ensures r.Found? || r.NullSlot? ==> forall m :: 0 <= m < r.index ==> keys[m].Some? && keys[m] != Some(key)
    ensures r.Missing? ==> forall m :: 0 <= m < |keys| ==> keys[m].Some? && keys[m] != Some(key)
  {
    SearchAsWrittenFrom(keys, key, 0)
  }

  function SearchAsWrittenFrom(keys: seq<Option<nat>>, key: nat, i: nat): (r: Search)
    requires i <= |keys|
    ensures r.Found? ==> i <= r.index < |keys| && keys[r.index] == Some(key)
    ensures r.NullSlot? ==> i <= r.index < |keys| && keys[r.index].None?
    ensures r.Found? || r.NullSlot? ==> forall m :: i <= m < r.index ==> keys[m].Some? && keys[m] != Some(key)
    ensures r.Missing? ==> forall m :: i <= m < |keys| ==> keys[m].Some? && keys[m] != Some(key)
    decreases |keys| - i
  {
    if i == |keys| then Missing
    else if keys[i].None? then NullSlot(i)
    else if keys[i] == Some(key) then Found(i)
    else SearchAsWrittenFrom(keys, key, i + 1)
  }

  /** The same search stepping over NULL slots: the first slot holding the key. */
  function SearchSkipping(keys: seq<Option<nat>>, key: nat): (r: Option<nat>)
    ensures r.Some? ==>
      r.value < |keys| && keys[r.value] == Some(key) && forall m :: 0 <= m < r.value ==> keys[m] != Some(key)
    ensures r.None? ==> forall m :: 0 <= m < |keys| ==> keys[m] != Some(key)
  {
    SearchSkippingFrom(keys, key, 0)
  }

  function SearchSkippingFrom(keys: seq<Option<nat>>, key: nat, i: nat): (r: Option<nat>)
    requires i <= |keys|
    ensures r.Some? ==>
      i <= r.value < |keys| && keys[r.value] == Some(key) && forall m :: i <= m < r.value ==> keys[m] != Some(key)
    ensures r.None? ==> forall m :: i <= m < |keys| ==> keys[m] != Some(key)
    decreases |keys| - i
  {
    if i == |keys| then None
    else if keys[i] == Some(key) then Some(i)
    else SearchSkippingFrom(keys, key, i + 1)
  }

  /** Wherever the written search does not hit a NULL slot, both searches
      agree. */
  lemma SearchesAgree(keys: seq<Option<nat>>, key: nat)
    ensures var w := SearchAsWritten(keys, key);
      !w.NullSlot? ==>
        (w.Found? <==> SearchSkipping(keys, key).Some?) && (w.Found? ==> SearchSkipping(keys, key) == Some(w.index))
  {
  }

  /** The written search loop. */
  method ScanAsWritten(keys: seq<Option<nat>>, key: nat) returns (r: Search)
    ensures r == SearchAsWritten(keys, key)
  {
    var i := 0;
    while i < |keys|
      invariant 0 <= i <= |keys|
      invariant SearchAsWrittenFrom(keys, key, i) == SearchAsWritten(keys, key)
    {
      if keys[i].None? {
        return NullSlot(i);
      }
      if keys[i] == Some(key) {
        return Found(i);
      }
      i := i + 1;
    }
    return Missing;
  }

  /** The search loop stepping over NULL slots. */
  method Scan(keys: seq<Option<nat>>, key: nat) returns (r: Option<nat>)
    ensures r == SearchSkipping(keys, key)
  {
    var i := 0;
    while i < |keys|
      invariant 0 <= i <= |keys|
      invariant SearchSkippingFrom(keys, key, i) == SearchSkipping(keys, key)
    {
      if keys[i] == Some(key) {
        return Some(i);
      }
      i := i + 1;
    }
    return None;
  }

  // -------------------------------------------------------------------
  // Reference counts.

  function Refers(slot: Option<PeerEntry>, procId: nat): nat
  {
    if slot.Some? && slot.value.procId == procId then 1 else 0
  }

  /** Number of peer slots that use process entry `procId`. */
  function RefCount(peers: seq<Option<PeerEntry>>, procId: nat): nat
  {
    if |peers| == 0 then 0
    else RefCount(peers[..|peers| - 1], procId) + Refers(peers[|peers| - 1], procId)
  }

  /** Replacing one slot changes the count by what the slot contributes. */
  lemma {:induction false} RefCountUpdate(peers: seq<Option<PeerEntry>>, p: nat, x: Option<PeerEntry>, procId: nat)
    requires p < |peers|
    ensures RefCount(peers[p := x], procId) + Refers(peers[p], procId)
         == RefCount(peers, procId) + Refers(x, procId)
    decreases |peers|
  {
    var last := |peers| - 1;
    assert peers[p := x][..last] == if p == last then peers[..last] else peers[..last][p := x];
    if p < last {
      RefCountUpdate(peers[..last], p, x, procId);
    }
  }

  /** A process entry no slot refers to has count 0. */
  lemma {:induction false} RefCountNone(peers: seq<Option<PeerEntry>>, procId: nat)
    requires forall p :: 0 <= p < |peers| ==> Refers(peers[p], procId) == 0
    ensures RefCount(peers, procId) == 0
    decreases |peers|
  {
    if |peers| > 0 {
      RefCountNone(peers[..|peers| - 1], procId);
    }
  }

  /** A slot that refers to an entry contributes to its count. */
  lemma {:induction false} RefCountPositive(peers: seq<Option<PeerEntry>>, p: nat, procId: nat)
    requires p < |peers| && Refers(peers[p], procId) == 1
    ensures RefCount(peers, procId) >= 1
    decreases |peers|
  {
    if p < |peers| - 1 {
      RefCountPositive(peers[..|peers| - 1], p, procId);
    }
  }

  // -------------------------------------------------------------------
  // The registry invariant.

  /** A registered peer uses a live process entry below the counter and has
      an attached segment with its layout computed. */
  ghost predicate PeerOk(t: Tables, e: PeerEntry)
  {
    && e.procId < t.numProcs && e.procId < |t.procs| && t.procs[e.procId].Some?
    && e.shmSegid >= 0 && e.shmAddr >= 0 && e.layout == Some(HostLayout(e.shmAddr))
  }

  /** Slots at or above a counter are NULL, every peer is sound, and every
      live process entry counts exactly the peers that use it. */
  ghost predicate WellFormed(t: Tables)
  {
    && |t.procs| == UDMA_MAX_PROCS && |t.peers| == UDMA_MAX_PEERS
    && t.numProcs <= UDMA_MAX_PROCS && t.numPeers <= UDMA_MAX_PEERS
    && (forall i :: t.numProcs <= i < |t.procs| ==> t.procs[i].None?)
    && (forall p :: t.numPeers <= p < |t.peers| ==> t.peers[p].None?)
    && (forall p :: 0 <= p < |t.peers| && t.peers[p].Some? ==> PeerOk(t, t.peers[p].value))
    && (forall i :: 0 <= i < |t.procs| && t.procs[i].Some? ==>
          t.procs[i].value.count == RefCount(t.peers, i) && t.procs[i].value.count >= 1)
  }

  /** The zero-initialised globals. */
  function EmptyTables(): (t: Tables)
    ensures WellFormed(t)
  {
    var peers: seq<Option<PeerEntry>> := seq(UDMA_MAX_PEERS, _ => None);
    assert forall i :: 0 <= i < UDMA_MAX_PROCS ==> RefCount(peers, i) == 0 by {
      forall i | 0 <= i < UDMA_MAX_PROCS {
        RefCountNone(peers, i);
      }
    }
    Tables(0, 0, seq(UDMA_MAX_PROCS, _ => None), peers)
  }

  // -------------------------------------------------------------------
  // veo_udma_peer_init.

  /** veo_udma_peer_init as written (libveo_udma.c:127-187). The process
      counter is bumped before the entry's malloc, the count before the
      peer's malloc, and the peer is registered before its segment exists;
      none of it is undone on the error paths. The segment failure test only
      catches segid == -1. Neither table is bounds checked. */
  function InitAsWritten(t: Tables, a: InitArgs, e: InitEnv): (r: (Outcome, Tables))
    ensures r.0 == Returned(t.numPeers) ==>
      r.1.numPeers == t.numPeers + 1 && t.numPeers < |r.1.peers| && r.1.peers[t.numPeers].Some?
      && r.1.peers[t.numPeers].value.ctx == a.ctx
  {
    var s := SearchAsWritten(ProcKeys(t.procs, t.numProcs), a.proc);
    if s.NullSlot? then (Crash, t)
    else if s.Missing? && !e.procAllocOk then (Returned(-(ENOMEM as int)), t.(numProcs := t.numProcs + 1))
    else if s.Missing? && t.numProcs >= |t.procs| then (Crash, t.(numProcs := t.numProcs + 1))
    else
      var procId := if s.Found? then s.index else t.numProcs;
      var pe := if s.Found? then t.procs[procId].value else ProcEntry(a.veNodeId, 0, a.proc, a.libHandle);
      var t1 := t.(numProcs := if s.Found? then t.numProcs else t.numProcs + 1,
                   procs := t.procs[procId := Some(pe.(count := pe.count + 1))]);
      if !e.peerAllocOk then (Returned(-(ENOMEM as int)), t1)
      else if t1.numPeers >= |t1.peers| then (Crash, t1.(numPeers := t1.numPeers + 1))
      else
        var peerId := t1.numPeers;
        var (segid, addr) := VhShmInit(e.shm);
        var failed := ShmFailedAsWritten(segid);
        var entry := PeerEntry(procId, a.ctx, e.pid * UDMA_MAX_PEERS + peerId + 1, segid, addr,
                               if failed then None else LayoutAt(addr));
        var t2 := t1.(numPeers := peerId + 1, peers := t1.peers[peerId := Some(entry)]);
        if failed then
          var rc := VhShmFini(segid, addr != -1, e.detachOk, e.removeOk);
          (Returned(if rc != 0 then rc else -(ENOMEM as int)), t2)
        else
          (Returned(if e.setupRc != 0 then e.setupRc else peerId), t2)
  }

  /** veo_udma_peer_init as its results promise: a failure (any nonzero
      setup result, a failed allocation, a failed segment, a full table)
      leaves the registry as it was; a success reuses the entry of the same
      process (skipping NULL slots) or appends one, counts the new peer in
      it, and registers the peer at index udma_num_peers. A failed segment
      is cleaned up with vh_shm_fini as the code does, returning its error
      or -ENOMEM; the other failures return -ENOMEM or the setup's code. */
  function InitFixed(t: Tables, a: InitArgs, e: InitEnv): (r: (Outcome, Tables))
    requires |t.procs| == UDMA_MAX_PROCS && |t.peers| == UDMA_MAX_PEERS
    ensures r.0.Returned?
    ensures r.1 != t ==> r.0 == Returned(t.numPeers)
    ensures r.1 == t ==> r.0.rc != 0
    ensures |r.1.procs| == |t.procs| && |r.1.peers| == |t.peers|
    ensures r.1 != t ==>
      && r.1.numPeers == t.numPeers + 1 && t.numPeers < |t.peers|
      && r.1.peers[..t.numPeers] == t.peers[..t.numPeers]
      && r.1.peers[t.numPeers + 1..] == t.peers[t.numPeers + 1..]
      && r.1.peers[t.numPeers].Some? && r.1.peers[t.numPeers].value.ctx == a.ctx
      && var pid := r.1.peers[t.numPeers].value.procId;
        && pid < |r.1.procs| && r.1.procs[pid].Some? && r.1.procs[pid].value.proc == a.proc
        && (pid < t.numProcs ==>
              t.procs[pid].Some? && r.1.procs[pid].value.count == t.procs[pid].value.count + 1 && r.1.numProcs == t.numProcs)
        && (pid >= t.numProcs ==>
              pid == t.numProcs && r.1.procs[pid].value.count == 1 && r.1.numProcs == t.numProcs + 1)
        && forall i :: 0 <= i < |t.procs| && i != pid ==> r.1.procs[i] == t.procs[i]
    ensures r.1 != t ==>
      var found := SearchSkipping(ProcKeys(t.procs, t.numProcs), a.proc);
      var pid := r.1.peers[t.numPeers].value.procId;
      && (found.Some? ==>
            && pid == found.value && t.procs[pid].Some?
            && r.1.procs[pid].value == t.procs[pid].value.(count := t.procs[pid].value.count + 1))
      && (found.None? ==> pid == t.numProcs && r.1.procs[pid].value == ProcEntry(a.veNodeId, 1, a.proc, a.libHandle))
    ensures r.1 != t <==>
      var found := SearchSkipping(ProcKeys(t.procs, t.numProcs), a.proc);
      && (found.Some? || (t.numProcs < UDMA_MAX_PROCS && e.procAllocOk))
      && t.numPeers < UDMA_MAX_PEERS && e.peerAllocOk
      && !ShmFailed(VhShmInit(e.shm).0) && e.setupRc == 0
    ensures r.1 == t ==> r.0.rc < 0 || r.0.rc == e.setupRc
  {
    var found := SearchSkipping(ProcKeys(t.procs, t.numProcs), a.proc);
    if found.None? && t.numProcs >= UDMA_MAX_PROCS then (Returned(-(ENOMEM as int)), t)
    else if t.numPeers >= UDMA_MAX_PEERS then (Returned(-(ENOMEM as int)), t)
    else if found.None? && !e.procAllocOk then (Returned(-(ENOMEM as int)), t)
    else if !e.peerAllocOk then (Returned(-(ENOMEM as int)), t)
    else
      var (segid, addr) := VhShmInit(e.shm);
      if ShmFailed(segid) then
        var rc := VhShmFini(segid, addr != -1, e.detachOk, e.removeOk);
        (Returned(if rc != 0 then rc else -(ENOMEM as int)), t)
      else if e.setupRc != 0 then (Returned(e.setupRc), t)
      else
        var procId := if found.Some? then found.value else t.numProcs;
        var pe := if found.Some? then t.procs[procId].value else ProcEntry(a.veNodeId, 0, a.proc, a.libHandle);
        var peerId := t.numPeers;
        var entry := PeerEntry(procId, a.ctx, e.pid * UDMA_MAX_PEERS + peerId + 1, segid, addr,
                               Some(HostLayout(addr)));
        (Returned(peerId),
         Tables(if found.Some? then t.numProcs else t.numProcs + 1, peerId + 1,
                t.procs[procId := Some(pe.(count := pe.count + 1))],
                t.peers[peerId := Some(entry)]))
  }

  /** The fixed init keeps the registry well formed. */
  lemma InitFixedWellFormed(t: Tables, a: InitArgs, e: InitEnv)
    requires WellFormed(t)
    ensures WellFormed(InitFixed(t, a, e).1)
  {
    var t' := InitFixed(t, a, e).1;
    if t' != t {
      var peerId := t.numPeers;
      var entry := t'.peers[peerId].value;
      var procId := entry.procId;
      assert t'.peers == t.peers[peerId := Some(entry)];
      forall i | 0 <= i < |t'.procs| && t'.procs[i].Some?
        ensures t'.procs[i].value.count == RefCount(t'.peers, i)
      {
        RefCountUpdate(t.peers, peerId, Some(entry), i);
        if i == procId && procId == t.numProcs {
          forall p | 0 <= p < |t.peers|
            ensures Refers(t.peers[p], i) == 0
          {
          }
          RefCountNone(t.peers, i);
        }
      }
    }
  }

  // -------------------------------------------------------------------
  // veo_udma_peer_fini.

  /** veo_udma_peer_fini (libveo_udma.c:189-212): after the VE-side close and
      the segment release both succeed, decrement the count of the peer's
      process, free and NULL that entry when the count reaches 0, and NULL
      the peer slot. The counters never shrink. Any failure returns its code
      and changes nothing. A NULL peer slot, or a peer whose process entry is
      gone, crashes first: the close call reads the entry's VE function. */
  function Fini(t: Tables, peerId: int, closeRc: int, detachOk: bool, removeOk: bool): (r: (Outcome, Tables))
    ensures r.0.Returned? && r.0.rc != 0 ==> r.1 == t
    ensures r.0 == Returned(0) ==>
      && 0 <= peerId < |t.peers| && t.peers[peerId].Some?
      && r.1.numProcs == t.numProcs && r.1.numPeers == t.numPeers
      && r.1.peers == t.peers[peerId := None]
    ensures r.0 == Returned(0) ==>
      && var q := t.peers[peerId].value.procId;
      && q < |t.procs| && t.procs[q].Some?
      && var pe := t.procs[q].value;
      && r.1.procs == t.procs[q := if pe.count == 1 then None else Some(pe.(count := pe.count - 1))]
    ensures r.0 == Crash <==>
      || !(0 <= peerId < |t.peers|) || t.peers[peerId].None?
      || t.peers[peerId].value.procId >= |t.procs| || t.procs[t.peers[peerId].value.procId].None?
    ensures r.0 != Crash ==>
      var up := t.peers[peerId].value;
      r.0 == Returned(if closeRc != 0 then closeRc else VhShmFini(up.shmSegid, up.shmAddr != -1, detachOk, removeOk))
  {
    if !(0 <= peerId < |t.peers|) || t.peers[peerId].None? then (Crash, t)
    else
      var up := t.peers[peerId].value;
      if up.procId >= |t.procs| || t.procs[up.procId].None? then (Crash, t)
      else if closeRc != 0 then (Returned(closeRc), t)
      else
        var rc := VhShmFini(up.shmSegid, up.shmAddr != -1, detachOk, removeOk);
        if rc != 0 then (Returned(rc), t)
        else
          var pe := t.procs[up.procId].value;
          var c := pe.count - 1;
          (Returned(0), t.(procs := t.procs[up.procId := if c == 0 then None else Some(pe.(count := c))],
                           peers := t.peers[peerId := None]))
  }

  /** On a well-formed registry fini never crashes on a registered peer and
      keeps the registry well formed. */
  lemma FiniWellFormed(t: Tables, peerId: int, closeRc: int, detachOk: bool, removeOk: bool)
    requires WellFormed(t)
    requires 0 <= peerId < |t.peers| && t.peers[peerId].Some?
    ensures Fini(t, peerId, closeRc, detachOk, removeOk).0.Returned?
    ensures WellFormed(Fini(t, peerId, closeRc, detachOk, removeOk).1)
  {
    var r := Fini(t, peerId, closeRc, detachOk, removeOk);
    if r.0 == Returned(0) {
      var t' := r.1;
      var procId := t.peers[peerId].value.procId;
      forall i | 0 <= i < |t'.procs| && t'.procs[i].Some?
        ensures t'.procs[i].value.count == RefCount(t'.peers, i)
      {
        RefCountUpdate(t.peers, peerId, None, i);
      }
      forall p | 0 <= p < |t'.peers| && t'.peers[p].Some?
        ensures PeerOk(t', t'.peers[p].value)
      {
        var q := t'.peers[p].value.procId;
        if q == procId {
          RefCountUpdate(t.peers, peerId, None, q);
          RefCountPositive(t'.peers, p, q);
        }
      }
    }
  }

  /** Init followed by fini of the new peer gives back both tables as they
      were; only the two counters have moved on. */
  lemma InitFiniRoundTrip(t: Tables, a: InitArgs, e: InitEnv, closeRc: int, detachOk: bool, removeOk: bool)
    requires WellFormed(t)
    requires InitFixed(t, a, e).0 == Returned(t.numPeers) && InitFixed(t, a, e).1 != t
    requires Fini(InitFixed(t, a, e).1, t.numPeers, closeRc, detachOk, removeOk).0 == Returned(0)
    ensures var t2 := Fini(InitFixed(t, a, e).1, t.numPeers, closeRc, detachOk, removeOk).1;
      t2.procs == t.procs && t2.peers == t.peers
      && t2.numPeers == t.numPeers + 1 && t.numProcs <= t2.numProcs <= t.numProcs + 1
  {
    var t1 := InitFixed(t, a, e).1;
    var t2 := Fini(t1, t.numPeers, closeRc, detachOk, removeOk).1;
    assert t2.peers == t.peers;
  }

  // -------------------------------------------------------------------
  // What the written init does to the registry.

  function InitOk(ctx: nat): InitArgs
  {
    InitArgs(0, 1, ctx, 2)
  }

  /** A failed peer allocation leaves the count raised with no peer behind
      it: the entry can then never be freed by fini. */
  lemma CountLeakAsWritten()
    ensures var e := InitEnv(true, false, 100, Attached(7, 4096), true, true, 0);
      var (o, t) := InitAsWritten(EmptyTables(), InitOk(5), e);
      && o == Returned(-(ENOMEM as int))
      && t.procs[0].Some? && t.procs[0].value.count == 1 && RefCount(t.peers, 0) == 0
      && !WellFormed(t)
      && InitFixed(EmptyTables(), InitOk(5), e) == (Returned(-(ENOMEM as int)), EmptyTables())
  {
    var t := InitAsWritten(EmptyTables(), InitOk(5), InitEnv(true, false, 100, Attached(7, 4096), true, true, 0)).1;
    RefCountNone(t.peers, 0);
  }

  /** A failed process allocation leaves the counter raised over a NULL slot;
      the next init dereferences it. */
  lemma NullProcAsWritten()
    ensures var t := InitAsWritten(EmptyTables(), InitOk(5), InitEnv(false, true, 100, Attached(7, 4096), true, true, 0)).1;
      && t.numProcs == 1 && t.procs[0].None?
      && InitAsWritten(t, InitOk(6), InitEnv(true, true, 100, Attached(8, 8192), true, true, 0)).0 == Crash
      && InitFixed(t, InitOk(6), InitEnv(true, true, 100, Attached(8, 8192), true, true, 0)).0 == Returned(0)
  {
  }

  /** An attach that fails with ENOMEM goes unnoticed: the peer is
      registered, its setup runs, and init reports success, with no segment
      and no layout behind the peer. */
  lemma MissedShmFailureAsWritten()
    ensures var (o, t) := InitAsWritten(EmptyTables(), InitOk(5), InitEnv(true, true, 100, AttachFailed(ENOMEM), true, true, 0));
      && o == Returned(0)
      && t.peers[0].Some? && t.peers[0].value.shmSegid == -(ENOMEM as int) && t.peers[0].value.layout.None?
      && !WellFormed(t)
    ensures InitFixed(EmptyTables(), InitOk(5), InitEnv(true, true, 100, AttachFailed(ENOMEM), true, true, 0))
         == (Returned(-(ENOMEM as int)), EmptyTables())
  {
  }

  /** A ninth process writes past udma_procs. */
  lemma ProcTableOverflowAsWritten(t: Tables, e: InitEnv)
    requires WellFormed(t) && t.numProcs == UDMA_MAX_PROCS
    requires forall i :: 0 <= i < UDMA_MAX_PROCS ==> t.procs[i].Some? && t.procs[i].value.proc != 9
    requires e.procAllocOk
    ensures InitAsWritten(t, InitArgs(0, 9, 1, 2), e).0 == Crash
    ensures InitFixed(t, InitArgs(0, 9, 1, 2), e) == (Returned(-(ENOMEM as int)), t)
  {
    var keys := ProcKeys(t.procs, t.numProcs);
    assert forall m :: 0 <= m < |keys| ==> keys[m].Some? && keys[m] != Some(9);
  }

  /** After the only peer is finished, its slot and its process's slot are
      NULL below the counters, and the written searches dereference them. */
  lemma NullSlotsAfterFini(ctx: nat)
    ensures var e := InitEnv(true, true, 100, Attached(7, 4096), true, true, 0);
      var t1 := InitFixed(EmptyTables(), InitOk(5), e).1;
      var r := Fini(t1, 0, 0, true, true);
      && r.0 == Returned(0)
      && SearchAsWritten(PeerKeys(r.1.peers, r.1.numPeers), ctx) == NullSlot(0)
      && SearchAsWritten(ProcKeys(r.1.procs, r.1.numProcs), 1) == NullSlot(0)
      && SearchSkipping(PeerKeys(r.1.peers, r.1.numPeers), ctx) == None
  {
    var e := InitEnv(true, true, 100, Attached(7, 4096), true, true, 0);
    var t1 := InitFixed(EmptyTables(), InitOk(5), e).1;
    assert t1.procs[0] == Some(ProcEntry(0, 1, 1, 2));
  }

  // -------------------------------------------------------------------
  // The globals.

  class Registry {
    var numProcs: nat
    var numPeers: nat
    const procs: array<Option<ProcEntry>>
    const peers: array<Option<PeerEntry>>

    ghost function Model(): Tables
      reads this, procs, peers
    {
      Tables(numProcs, numPeers, procs[..], peers[..])
    }

    /** Zero-initialised globals. */
    constructor ()
      ensures Model() == EmptyTables()
      ensures fresh(procs) && fresh(peers)
    {
      numProcs, numPeers := 0, 0;
      procs := new Option<ProcEntry>[UDMA_MAX_PROCS](_ => None);
      peers := new Option<PeerEntry>[UDMA_MAX_PEERS](_ => None);
    }

    /** veo_udma_peer_init as written. */
    method PeerInitAsWritten(a: InitArgs, e: InitEnv) returns (o: Outcome)
      requires procs.Length == UDMA_MAX_PROCS && peers.Length == UDMA_MAX_PEERS
      modifies this, procs, peers
      ensures o == InitAsWritten(old(Model()), a, e).0
      ensures o.Crash? || Model() == InitAsWritten(old(Model()), a, e).1
    {
      var s := ScanAsWritten(ProcKeys(procs[..], numProcs), a.proc);
      if s.NullSlot? {
        return Crash;
      }
      var procId: nat;
      if s.Missing? {
        procId := numProcs;
        numProcs := numProcs + 1;
        if !e.procAllocOk {
          return Returned(-(ENOMEM as int));
        }
        if procId >= procs.Length {
          return Crash;
        }
        procs[procId] := Some(ProcEntry(a.veNodeId, 0, a.proc, a.libHandle));
      } else {
        procId := s.index;
      }
      var pe := procs[procId].value;
      procs[procId] := Some(pe.(count := pe.count + 1));
      if !e.peerAllocOk {
        return Returned(-(ENOMEM as int));
      }
      var peerId := numPeers;
      numPeers := numPeers + 1;
      if peerId >= peers.Length {
        return Crash;
      }
      var (segid, addr) := VhShmInit(e.shm);
      var failed := ShmFailedAsWritten(segid);
      peers[peerId] := Some(PeerEntry(procId, a.ctx, e.pid * UDMA_MAX_PEERS + numPeers, segid, addr,
                                      if failed then None else LayoutAt(addr)));
      if failed {
        var rc := VhShmFini(segid, addr != -1, e.detachOk, e.removeOk);
        return Returned(if rc != 0 then rc else -(ENOMEM as int));
      }
      return Returned(if e.setupRc != 0 then e.setupRc else peerId);
    }

    /** veo_udma_peer_init with the error paths undone, the segment failure
      test widened to every negative id, the searches skipping NULL slots and
      both tables bounds checked. */
    method PeerInit(a: InitArgs, e: InitEnv) returns (o: Outcome)
      requires procs.Length == UDMA_MAX_PROCS && peers.Length == UDMA_MAX_PEERS
      modifies this, procs, peers
      ensures (o, Model()) == InitFixed(old(Model()), a, e)
    {
      var found := Scan(ProcKeys(procs[..], numProcs), a.proc);
      if found.None? && numProcs >= UDMA_MAX_PROCS {
        return Returned(-(ENOMEM as int));
      }
      if numPeers >= UDMA_MAX_PEERS {
        return Returned(-(ENOMEM as int));
      }
      if found.None? && !e.procAllocOk {
        return Returned(-(ENOMEM as int));
      }
      if !e.peerAllocOk {
        return Returned(-(ENOMEM as int));
      }
      var (segid, addr) := VhShmInit(e.shm);
      if ShmFailed(segid) {
        var rc := VhShmFini(segid, addr != -1, e.detachOk, e.removeOk);
        return Returned(if rc != 0 then rc else -(ENOMEM as int));
      }
      if e.setupRc != 0 {
        return Returned(e.setupRc);
      }
      var procId: nat;
      var pe: ProcEntry;
      if found.Some? {
        procId := found.value;
        pe := procs[procId].value;
      } else {
        procId := numProcs;
        pe := ProcEntry(a.veNodeId, 0, a.proc, a.libHandle);
        numProcs := numProcs + 1;
      }
      procs[procId] := Some(pe.(count := pe.count + 1));
      var peerId := numPeers;
      peers[peerId] := Some(PeerEntry(procId, a.ctx, e.pid * UDMA_MAX_PEERS + peerId + 1, segid, addr,
                                      Some(HostLayout(addr))));
      numPeers := numPeers + 1;
      return Returned(peerId);
    }

    /** veo_udma_peer_fini, given the results of the VE-side close call and
      of shmdt and shmctl. */
    method PeerFini(peerId: int, closeRc: int, detachOk: bool, removeOk: bool) returns (o: Outcome)
      modifies procs, peers
      ensures o == Fini(old(Model()), peerId, closeRc, detachOk, removeOk).0
      ensures o.Crash? || Model() == Fini(old(Model()), peerId, closeRc, detachOk, removeOk).1
    {
      if !(0 <= peerId < peers.Length) || peers[peerId].None? {
        return Crash;
      }
      var up := peers[peerId].value;
      if up.procId >= procs.Length || procs[up.procId].None? {
        return Crash;
      }
      if closeRc != 0 {
        return Returned(closeRc);
      }
      var rc := VhShmFini(up.shmSegid, up.shmAddr != -1, detachOk, removeOk);
      if rc != 0 {
        return Returned(rc);
      }
      var pe := procs[up.procId].value;
      if pe.count - 1 == 0 {
        procs[up.procId] := None;
      } else {
        procs[up.procId] := Some(pe.(count := pe.count - 1));
      }
      peers[peerId] := None;
      return Returned(0);
    }
  }
}
