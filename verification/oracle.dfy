/** The environment of one side of a transfer, as finite schedules that the
    model consumes front first: the other side's stores into mailbox words,
    the results of the DMA engine and of the timeout test on the VE, and the
    results of peeking at the outstanding offload call on the host.

    A schedule that runs out stands for an environment that never answers
    again: the model then stops with `Stalled` where the C loop would keep
    spinning (or, on the VE, would eventually hit its timeout). */
module Oracle {
  import opened Wrappers

  /** Result of ve_dma_post / ve_dma_poll / ve_dma_post_wait: 0, -EAGAIN or
      another error code. */
  datatype DmaStatus = DmaOk | DmaAgain | DmaError(code: int)

  /** What the VE observes: for each load of a mailbox word, the value the
      host stored into that word since the previous load, if any; successive
      results of posting and of polling a DMA descriptor; successive results
      of the timeout test (true: more than UDMA_TIMEOUT_US have elapsed). */
  datatype VeEnv = VeEnv(stores: seq<Option<nat>>, posts: seq<DmaStatus>,
                         polls: seq<DmaStatus>, clock: seq<bool>)

  function Size(e: VeEnv): nat
  {
    |e.stores| + |e.posts| + |e.polls| + |e.clock|
  }

  /** Outcome of waiting on a mailbox word. */
  datatype Wait = Ready(value: nat) | TimedOut | Stalled

  /** The VE's wait loop on mailbox word `j` (ve_inst_lhm in a loop): until
      the word reads 0 (`wantEmpty`, before a send) or nonzero (before a
      receive). With `timed`, every load that does not end the wait is
      followed by the timeout test. Only word `j` can change. */
  method AwaitMailbox(mbox: array<nat>, j: nat, wantEmpty: bool, timed: bool, env: VeEnv)
    returns (w: Wait, env': VeEnv)
    requires j < mbox.Length
    modifies mbox
    ensures env'.posts == env.posts && env'.polls == env.polls
    ensures Size(env') <= Size(env)
    ensures w.Stalled? || Size(env') < Size(env)
    ensures forall i :: 0 <= i < mbox.Length && i != j ==> mbox[i] == old(mbox[i])
    ensures w.Ready? ==> mbox[j] == w.value && (w.value == 0 <==> wantEmpty)
    ensures w.TimedOut? ==> timed
  {
    env' := env;
    while true
      invariant env'.posts == env.posts && env'.polls == env.polls
      invariant Size(env') <= Size(env)
      invariant forall i :: 0 <= i < mbox.Length && i != j ==> mbox[i] == old(mbox[i])
      decreases Size(env')
    {
      if |env'.stores| == 0 {
        return Stalled, env';
      }
      var store := env'.stores[0];
      env' := env'.(stores := env'.stores[1..]);
      if store.Some? {
        mbox[j] := store.value;
      }
      var v := mbox[j];
      if (v == 0) == wantEmpty {
        return Ready(v), env';
      }
      if timed {
        if |env'.clock| == 0 {
          return Stalled, env';
        }
        var late := env'.clock[0];
        env' := env'.(clock := env'.clock[1..]);
        if late {
          return TimedOut, env';
        }
      }
    }
  }

  /** Result of veo_call_peek_result on the outstanding offload call. */
  datatype Peek = Unfinished | Finished(retval: nat)

  /** What the host observes: the VE's stores into mailbox words (as for
      VeEnv), successive peeks at the offload call, and the result that
      veo_call_wait_result finally delivers. */
  datatype HostEnv = HostEnv(stores: seq<Option<nat>>, peeks: seq<Peek>, waitResult: nat)

  function HostSize(e: HostEnv): nat
  {
    |e.stores| + |e.peeks|
  }

  /** Outcome of a host wait: the word became ready, the offload call ended
      with a result other than the requested length, or the schedule ran out. */
  datatype HostWait = HostReady(value: nat) | Bailed(retval: nat) | HostStalled

  /** The host's polling loop on mailbox word `i`: while the word is not yet
      ready, peek at the offload call and give up when it has finished with a
      result different from `len` (libveo_udma.c:348-356, 404-411). */
  method AwaitHost(mbox: array<nat>, i: nat, wantEmpty: bool, len: nat, env: HostEnv)
    returns (w: HostWait, env': HostEnv)
    requires i < mbox.Length
    modifies mbox
    ensures env'.waitResult == env.waitResult
    ensures HostSize(env') <= HostSize(env)
    ensures w.HostStalled? || HostSize(env') < HostSize(env)
    ensures forall k :: 0 <= k < mbox.Length && k != i ==> mbox[k] == old(mbox[k])
    ensures w.HostReady? ==> mbox[i] == w.value && (w.value == 0 <==> wantEmpty)
    ensures w.Bailed? ==> w.retval != len
  {
    env' := env;
    while true
      invariant env'.waitResult == env.waitResult
      invariant HostSize(env') <= HostSize(env)
      invariant forall k :: 0 <= k < mbox.Length && k != i ==> mbox[k] == old(mbox[k])
      decreases HostSize(env')
    {
      if |env'.stores| == 0 {
        return HostStalled, env';
      }
      var store := env'.stores[0];
      env' := env'.(stores := env'.stores[1..]);
      if store.Some? {
        mbox[i] := store.value;
      }
      var v := mbox[i];
      if (v == 0) == wantEmpty {
        return HostReady(v), env';
      }
      if |env'.peeks| == 0 {
        return HostStalled, env';
      }
      var peek := env'.peeks[0];
      env' := env'.(peeks := env'.peeks[1..]);
      if peek.Finished? && peek.retval != len {
        return Bailed(peek.retval), env';
      }
    }
  }
}
