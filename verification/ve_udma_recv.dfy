/** ve_udma_recv of libveo_udma_ve.c: the VE end of a host-to-VE transfer.

    The host copies a chunk of its source into slot j of its send data area
    (`area`) and then stores the chunk's length into mailbox word j (`mbox`).
    The VE waits for the word to become nonzero, checks the length, posts a
    DMA from the slot into slot j of its receive mirror (`buff`), remembers
    where in the destination the chunk goes, and once the DMA is complete
    copies the chunk from the mirror to the destination and clears the word.
    As on the send side, a DMA is modelled as taking effect when it is
    posted. The host's source is `payload`: the host sends its bytes in
    order, so the chunk announced while the VE is at destination offset pos
    is the next bytes of `payload` from pos. */
module VeUdmaRecv {
  import opened UdmaConst
  import opened Oracle
  import opened Ring
  import opened Memory
  import opened Slots
  import opened VeUdma

  // ---------------------------------------------------------------------
  // The length check

  /** The check of ve_udma_recv as written: the mailbox word is read into
      the int64_t tlen, and a length is refused only when it is larger than
      what is left of the destination. */
  predicate RecvAcceptsAsWritten(word: nat, lenp: int)
  {
    !(ToI64(word) > lenp)
  }

  /** The check the rest of the model uses, on the word as the unsigned
      length the host stores: a length must also fit a slot, since it is
      the length of a DMA into slot j of the mirror buffer. */
  predicate RecvAccepts(tlen: int, lenp: int, size: nat)
  {
    !(tlen > lenp || tlen > size)
  }

  /** With two slots of 8 bytes and 100 bytes to go, the check as written
      lets a length of 50 through, and the DMA into slot 1 then runs 42 bytes
      past the end of the 16-byte mirror buffer. */
  lemma RecvCheckTooLoose()
    ensures RecvAcceptsAsWritten(50, 100) && !RecvAccepts(50, 100, 8)
    ensures Offset(8, 1) + 50 == 2 * 8 + 42
  {
  }

  /** A word of 2^63 or more is a negative tlen, which the check as written
      lets through; `lenp -= tlen` then raises what is left (10 becomes 11
      for the word 2^64 - 1). The corrected check refuses every such word. */
  lemma RecvNegativeLengthAccepted()
    ensures RecvAcceptsAsWritten(U64 - 1, 10) && ToI64(U64 - 1) == -1 && 10 - ToI64(U64 - 1) == 11
    ensures forall w: nat, lenp: int, size: nat :: I64 <= w && size < I64 ==> !RecvAccepts(w, lenp, size)
  {
  }

  /** A length the corrected check accepts fits slot j of a buffer of `n`
      bytes that holds `split` slots, and what is left of the destination. */
  lemma RecvAcceptedFits(split: nat, size: nat, n: nat, j: nat, tlen: nat, lenp: int)
    requires j < split && split * size <= n
    requires RecvAccepts(tlen, lenp, size)
    ensures Offset(size, j) + tlen <= n && tlen <= lenp
  {
    OffsetFits(split, size, n, j);
  }

  // ---------------------------------------------------------------------
  // The receive invariant

  /** Every slot with a length `tl[s] > 0` in flight holds, in its first
      tl[s] bytes of the mirror buffer `b`, the payload bytes that go to
      destination offset dr[s]. */
  ghost predicate Lands(b: seq<Byte>, payload: seq<Byte>, split: nat, size: nat, tl: seq<int>, dr: seq<nat>)
    requires split <= |tl| && split <= |dr|
  {
    forall s :: 0 <= s < split && tl[s] > 0 ==>
      && tl[s] <= size
      && Offset(size, s) + tl[s] <= |b| && dr[s] + tl[s] <= |payload|
      && b[Offset(size, s)..Offset(size, s) + tl[s]] == payload[dr[s]..dr[s] + tl[s]]
  }

  /** Posting the DMA of the payload bytes from `pos` into the free slot j
      keeps every other slot in flight intact and makes slot j hold them. */
  lemma LandsPost(b: seq<Byte>, payload: seq<Byte>, split: nat, size: nat, tl: seq<int>, dr: seq<nat>,
                  j: nat, pos: nat, tlen: nat)
    requires split <= |tl| && split <= |dr| && split * size <= |b|
    requires Lands(b, payload, split, size, tl, dr)
    requires j < split && tl[j] == 0 && 0 < tlen <= size && pos + tlen <= |payload|
    ensures End(Write(Offset(size, j), payload[pos..pos + tlen])) <= |b|
    ensures Lands(Overwrite(b, Write(Offset(size, j), payload[pos..pos + tlen])), payload, split, size,
                  tl[j := tlen], dr[j := pos])
  {
    OffsetFits(split, size, |b|, j);
    var w := Write(Offset(size, j), payload[pos..pos + tlen]);
    var b' := Overwrite(b, w);
    var tl', dr' := tl[j := tlen], dr[j := pos];
    forall s | 0 <= s < split && tl'[s] > 0
      ensures tl'[s] <= size && Offset(size, s) + tl'[s] <= |b'| && dr'[s] + tl'[s] <= |payload|
      ensures b'[Offset(size, s)..Offset(size, s) + tl'[s]] == payload[dr'[s]..dr'[s] + tl'[s]]
    {
      if s == j {
        OverwriteInside(b, w);
      } else {
        OffsetsApart(size, s, j);
        OverwriteElsewhere(b, w, Offset(size, s), Offset(size, s) + tl[s]);
      }
    }
  }

  /** What Lands says about slot s. */
  lemma LandsAt(b: seq<Byte>, payload: seq<Byte>, split: nat, size: nat, tl: seq<int>, dr: seq<nat>, s: nat)
    requires split <= |tl| && split <= |dr|
    requires Lands(b, payload, split, size, tl, dr)
    requires s < split && tl[s] > 0
    ensures tl[s] <= size && Offset(size, s) + tl[s] <= |b| && dr[s] + tl[s] <= |payload|
    ensures b[Offset(size, s)..Offset(size, s) + tl[s]] == payload[dr[s]..dr[s] + tl[s]]
  {
  }

  /** The destination after the copy `w` of a completed chunk; a packed
      transfer leaves the copy to its unpacking step, which is not modelled. */
  function Deliver(d: seq<Byte>, pack: bool, w: Write): (r: seq<Byte>)
    requires End(w) <= |d|
    ensures |r| == |d|
    ensures !pack ==> r[w.offset..End(w)] == w.bytes
  {
    if pack then d else (OverwriteInside(d, w); Overwrite(d, w))
  }

  /** The destination, `d0` before the call, once its first n bytes are
      delivered from the payload. */
  function Filled(payload: seq<Byte>, d0: seq<Byte>, pack: bool, n: nat): (r: seq<Byte>)
    requires n <= |payload| && n <= |d0|
    ensures |r| == |d0|
    ensures !pack ==> r[..n] == payload[..n] && r[n..] == d0[n..]
  {
    if pack then d0 else payload[..n] + d0[n..]
  }

  /** The ghost history of a receive: the chunk lengths accepted and posted,
      and how many of them have completed. */
  datatype RecvLog = RecvLog(lens: seq<nat>, done: nat)

  /** Bytes of the destination filled by the completed chunks. */
  function Landed(g: RecvLog): nat
    requires g.done <= |g.lens|
  {
    Sum(g.lens[..g.done])
  }

  /** The bookkeeping of ve_udma_recv between iterations, with `dr` the
      dstr array: the ring invariant over the chunks posted; each is at most
      a slot long; lenp and the destination offset agree with them; every
      slot in flight remembers where in the destination its chunk starts. */
  ghost predicate RecvShape(len: nat, size: nat, split: nat, c: Cursor, dr: seq<nat>, g: RecvLog)
  {
    && |c.tl| == UDMA_MAX_SPLIT && |dr| == UDMA_MAX_SPLIT
    && 1 <= split <= UDMA_MAX_SPLIT && size >= 1
    && RingInv(split, c.j, c.jr, c.tl, g.lens, g.done)
    && (forall k :: 0 <= k < |g.lens| ==> g.lens[k] <= size)
    && c.pos == Sum(g.lens) <= len && c.lenp == len - c.pos
    && Landed(g) <= Sum(g.lens)
    && Carries(split, dr, Starts(g.lens), g.done)
  }

  /** The bytes of ve_udma_recv between iterations, with `b` the mirror
      buffer, `d` the destination and `d0` the destination before the call:
      every slot in flight holds the payload bytes from where its chunk
      starts, and the completed chunks fill the destination from its start
      (unpacking leaves it alone). */
  ghost predicate RecvBytes(payload: seq<Byte>, len: nat, size: nat, split: nat, pack: bool,
                            c: Cursor, dr: seq<nat>, g: RecvLog, b: seq<Byte>, d: seq<Byte>, d0: seq<Byte>)
    requires RecvShape(len, size, split, c, dr, g)
  {
    && split * size <= |b| && len <= |payload| && len <= |d0| && |d| == |d0|
    && Lands(b, payload, split, size, c.tl, dr)
    && d == Filled(payload, d0, pack, Landed(g))
  }

  /** The state of ve_udma_recv between iterations. */
  ghost predicate RecvInv(payload: seq<Byte>, len: nat, size: nat, split: nat, pack: bool,
                          c: Cursor, dr: seq<nat>, g: RecvLog, b: seq<Byte>, d: seq<Byte>, d0: seq<Byte>)
  {
    RecvShape(len, size, split, c, dr, g) && RecvBytes(payload, len, size, split, pack, c, dr, g, b, d, d0)
  }

  /** What the invariant says about the destination and the chunks: the
      chunks posted are nonempty, at most a slot long, and together at most
      len bytes; a chunk is in flight exactly while some have not completed;
      and the completed chunks have delivered the first payload bytes to the
      destination (nothing, when packed), the rest of it untouched. */
  lemma RecvInvMeans(payload: seq<Byte>, len: nat, size: nat, split: nat, pack: bool,
                     c: Cursor, dr: seq<nat>, g: RecvLog, b: seq<Byte>, d: seq<Byte>, d0: seq<Byte>)
    requires RecvInv(payload, len, size, split, pack, c, dr, g, b, d, d0)
    ensures c.lenp == len - Sum(g.lens) && Sum(g.lens) <= len && g.done <= |g.lens|
    ensures forall k :: 0 <= k < |g.lens| ==> 1 <= g.lens[k] <= size
    ensures (c.jr >= 0 && c.tl[c.jr] > 0) <==> g.done < |g.lens|
    ensures pack ==> d == d0
    ensures !pack ==> Sum(g.lens[..g.done]) <= Sum(g.lens)
    ensures !pack ==> d == payload[..Sum(g.lens[..g.done])] + d0[Sum(g.lens[..g.done])..]
  {
    RingFacts(split, c.j, c.jr, c.tl, g.lens, g.done);
  }

  /** Posting an accepted chunk of `tlen` bytes into the free slot j keeps the
      invariant, with the chunk's destination offset recorded in dstr[j]. */
  lemma RecvInvPost(payload: seq<Byte>, len: nat, size: nat, split: nat, pack: bool,
                    c: Cursor, dr: seq<nat>, g: RecvLog, b: seq<Byte>, d: seq<Byte>, d0: seq<Byte>, tlen: nat)
    requires RecvInv(payload, len, size, split, pack, c, dr, g, b, d, d0)
    requires c.tl[c.j] == 0 && 0 < tlen && RecvAccepts(tlen, c.lenp, size)
    ensures c.pos + tlen <= len && Offset(size, c.j) + tlen <= |b|
    ensures RecvInv(payload, len, size, split, pack,
                    Cursor((c.j + 1) % split, if c.jr == -1 then c.j else c.jr, c.tl[c.j := tlen], c.lenp - tlen, c.pos + tlen),
                    dr[c.j := c.pos], g.(lens := g.lens + [tlen]),
                    Overwrite(b, Write(Offset(size, c.j), payload[c.pos..c.pos + tlen])), d, d0)
  {
    PostShape(len, size, split, c, dr, g, tlen);
    PostBytes(payload, len, size, split, pack, c, dr, g, b, d, d0, tlen);
  }

  /** The bookkeeping part of RecvInvPost. */
  lemma PostShape(len: nat, size: nat, split: nat, c: Cursor, dr: seq<nat>, g: RecvLog, tlen: nat)
    requires RecvShape(len, size, split, c, dr, g)
    requires c.tl[c.j] == 0 && 0 < tlen && RecvAccepts(tlen, c.lenp, size)
    ensures c.pos + tlen <= len
    ensures RecvShape(len, size, split,
                      Cursor((c.j + 1) % split, if c.jr == -1 then c.j else c.jr, c.tl[c.j := tlen], c.lenp - tlen, c.pos + tlen),
                      dr[c.j := c.pos], g.(lens := g.lens + [tlen]))
    ensures Landed(g.(lens := g.lens + [tlen])) == Landed(g)
  {
    PostCursor(len, size, split, c, g.lens, g.done, tlen);
    RingFacts(split, c.j, c.jr, c.tl, g.lens, g.done);
    PostStarts(split, dr, g.lens, g.done, tlen);
    var g' := g.(lens := g.lens + [tlen]);
    assert g'.lens[..g.done] == g.lens[..g.done];
  }

  /** The bytes part of RecvInvPost. */
  lemma PostBytes(payload: seq<Byte>, len: nat, size: nat, split: nat, pack: bool,
                  c: Cursor, dr: seq<nat>, g: RecvLog, b: seq<Byte>, d: seq<Byte>, d0: seq<Byte>, tlen: nat)
    requires RecvShape(len, size, split, c, dr, g)
    requires RecvBytes(payload, len, size, split, pack, c, dr, g, b, d, d0)
    requires c.tl[c.j] == 0 && 0 < tlen && c.pos + tlen <= len && tlen <= size
    requires RecvShape(len, size, split,
                       Cursor((c.j + 1) % split, if c.jr == -1 then c.j else c.jr, c.tl[c.j := tlen], c.lenp - tlen, c.pos + tlen),
                       dr[c.j := c.pos], g.(lens := g.lens + [tlen]))
    requires Landed(g.(lens := g.lens + [tlen])) == Landed(g)
    ensures Offset(size, c.j) + tlen <= |b|
    ensures RecvBytes(payload, len, size, split, pack,
                      Cursor((c.j + 1) % split, if c.jr == -1 then c.j else c.jr, c.tl[c.j := tlen], c.lenp - tlen, c.pos + tlen),
                      dr[c.j := c.pos], g.(lens := g.lens + [tlen]),
                      Overwrite(b, Write(Offset(size, c.j), payload[c.pos..c.pos + tlen])), d, d0)
  {
    LandsPost(b, payload, split, size, c.tl, dr, c.j, c.pos, tlen);
  }

  /** The cursor part of RecvInvPost. */
  lemma PostCursor(len: nat, size: nat, split: nat, c: Cursor, lens: seq<nat>, done: nat, tlen: nat)
    requires RingInv(split, c.j, c.jr, c.tl, lens, done)
    requires forall k :: 0 <= k < |lens| ==> lens[k] <= size
    requires c.pos == Sum(lens) <= len && c.lenp == len - c.pos
    requires c.tl[c.j] == 0 && 0 < tlen && RecvAccepts(tlen, c.lenp, size)
    ensures RingInv(split, (c.j + 1) % split, if c.jr == -1 then c.j else c.jr, c.tl[c.j := tlen], lens + [tlen], done)
    ensures forall k :: 0 <= k < |lens + [tlen]| ==> (lens + [tlen])[k] <= size
    ensures c.pos + tlen == Sum(lens + [tlen]) <= len && c.lenp - tlen == len - (c.pos + tlen)
  {
    RingPost(split, c.j, c.jr, c.tl, lens, done, tlen);
    SumAppend(lens, tlen);
  }

  /** Recording where a newly posted chunk goes in dstr. */
  lemma PostStarts(split: nat, dr: seq<nat>, lens: seq<nat>, done: nat, tlen: nat)
    requires 1 <= split <= |dr| && done <= |lens| < done + split
    requires Carries(split, dr, Starts(lens), done)
    ensures Carries(split, dr[|lens| % split := Sum(lens)], Starts(lens + [tlen]), done)
  {
    StartsAppend(lens, tlen);
    CarriesPost(split, dr, Starts(lens), done, Sum(lens));
  }

  /** The oldest chunk in flight: its length is in slot jr, dstr[jr] is where
      the completed chunks end, and slot jr of the mirror holds the payload
      bytes from there. */
  lemma RecvInvOldest(payload: seq<Byte>, len: nat, size: nat, split: nat, pack: bool,
                      c: Cursor, dr: seq<nat>, g: RecvLog, b: seq<Byte>, d: seq<Byte>, d0: seq<Byte>)
    requires RecvInv(payload, len, size, split, pack, c, dr, g, b, d, d0)
    requires c.jr >= 0 && c.tl[c.jr] > 0
    ensures g.done < |g.lens| && c.tl[c.jr] == g.lens[g.done] <= size
    ensures dr[c.jr] == Landed(g) && dr[c.jr] + c.tl[c.jr] <= Sum(g.lens) <= len <= |d|
    ensures Offset(size, c.jr) + c.tl[c.jr] <= |b|
    ensures b[Offset(size, c.jr)..Offset(size, c.jr) + c.tl[c.jr]] == payload[dr[c.jr]..dr[c.jr] + c.tl[c.jr]]
  {
    RingFacts(split, c.j, c.jr, c.tl, g.lens, g.done);
    CompleteStarts(split, dr, g.lens, g.done);
    LandsAt(b, payload, split, size, c.tl, dr, c.jr);
  }

  /** Completing the oldest chunk, whose `x` bytes go where the completed
      chunks end, and copying them there (unless unpacking) keeps the
      invariant with one more chunk completed. */
  lemma RecvInvComplete(payload: seq<Byte>, len: nat, size: nat, split: nat, pack: bool,
                        c: Cursor, dr: seq<nat>, g: RecvLog, b: seq<Byte>, d: seq<Byte>, d0: seq<Byte>)
    requires RecvInv(payload, len, size, split, pack, c, dr, g, b, d, d0)
    requires c.jr >= 0 && c.tl[c.jr] > 0 && g.done < |g.lens|
    ensures Landed(g) + g.lens[g.done] <= len
    ensures var l, x := Landed(g), g.lens[g.done];
      RecvInv(payload, len, size, split, pack, c.(jr := (c.jr + 1) % split, tl := c.tl[c.jr := 0]),
              dr, g.(done := g.done + 1), b, Deliver(d, pack, Write(l, payload[l..l + x])), d0)
  {
    CompleteShape(len, size, split, c, dr, g);
    CompleteBytes(payload, len, size, split, pack, c, dr, g, b, d, d0);
  }

  /** The bookkeeping part of RecvInvComplete. */
  lemma CompleteShape(len: nat, size: nat, split: nat, c: Cursor, dr: seq<nat>, g: RecvLog)
    requires RecvShape(len, size, split, c, dr, g)
    requires c.jr >= 0 && c.tl[c.jr] > 0 && g.done < |g.lens|
    ensures Landed(g) + g.lens[g.done] == Landed(g.(done := g.done + 1)) <= len
    ensures RecvShape(len, size, split, c.(jr := (c.jr + 1) % split, tl := c.tl[c.jr := 0]), dr, g.(done := g.done + 1))
  {
    RingComplete(split, c.j, c.jr, c.tl, g.lens, g.done);
    CompleteStarts(split, dr, g.lens, g.done);
  }

  /** The bytes part of RecvInvComplete. */
  lemma CompleteBytes(payload: seq<Byte>, len: nat, size: nat, split: nat, pack: bool,
                      c: Cursor, dr: seq<nat>, g: RecvLog, b: seq<Byte>, d: seq<Byte>, d0: seq<Byte>)
    requires RecvShape(len, size, split, c, dr, g)
    requires RecvBytes(payload, len, size, split, pack, c, dr, g, b, d, d0)
    requires c.jr >= 0 && c.jr < split && g.done < |g.lens|
    requires Landed(g) + g.lens[g.done] == Landed(g.(done := g.done + 1)) <= len
    requires RecvShape(len, size, split, c.(jr := (c.jr + 1) % split, tl := c.tl[c.jr := 0]), dr, g.(done := g.done + 1))
    ensures var l, x := Landed(g), g.lens[g.done];
      RecvBytes(payload, len, size, split, pack, c.(jr := (c.jr + 1) % split, tl := c.tl[c.jr := 0]),
                dr, g.(done := g.done + 1), b, Deliver(d, pack, Write(l, payload[l..l + x])), d0)
  {
    LandsClear(b, payload, split, size, c.tl, dr, c.jr);
    FillStep(d, d0, payload, pack, Landed(g), g.lens[g.done]);
  }

  /** Copying the next chunk of `x` payload bytes to where the completed
      chunks end extends the filled part of the destination. */
  lemma FillStep(d: seq<Byte>, d0: seq<Byte>, payload: seq<Byte>, pack: bool, l: nat, x: nat)
    requires l + x <= |payload| && l + x <= |d0| && |d| == |d0|
    requires d == Filled(payload, d0, pack, l)
    ensures Deliver(d, pack, Write(l, payload[l..l + x])) == Filled(payload, d0, pack, l + x)
  {
    if !pack {
      OverwriteExtend(d0, payload, l, x);
    }
  }

  /** A slot that completes no longer constrains the mirror buffer. */
  lemma LandsClear(b: seq<Byte>, payload: seq<Byte>, split: nat, size: nat, tl: seq<int>, dr: seq<nat>, s: nat)
    requires split <= |tl| && split <= |dr| && s < split
    requires Lands(b, payload, split, size, tl, dr)
    ensures Lands(b, payload, split, size, tl[s := 0], dr)
  {
  }

  /** The dstr part of RecvInvComplete: the oldest chunk goes right after the
      bytes of the chunks completed before it. */
  lemma CompleteStarts(split: nat, dr: seq<nat>, lens: seq<nat>, done: nat)
    requires 1 <= split <= |dr| && done < |lens| <= done + split
    requires Carries(split, dr, Starts(lens), done)
    ensures dr[done % split] == Sum(lens[..done])
    ensures dr[done % split] + lens[done] == Sum(lens[..done + 1]) <= Sum(lens)
    ensures Carries(split, dr, Starts(lens), done + 1)
  {
    CarriesComplete(split, dr, Starts(lens), done);
    StartsChain(lens, done);
  }

  // ---------------------------------------------------------------------
  // The pipeline

  /** The producer half of an iteration of ve_udma_recv: wait until mailbox
      word j is nonzero, check the length `seen` found there, and post the
      DMA of slot j of the host's area into slot j of the receive mirror.
      The host's copy of the chunk into its slot, which precedes its store
      of the length, is modelled here, once the length is accepted. EAGAIN
      leaves the mirror as it was; another post error clears word j. */
  method RecvProduce(payload: seq<Byte>, size: nat, split: nat, j: nat, pos: nat, lenp: int, v: Variant,
                     mbox: array<nat>, area: array<Byte>, buff: array<Byte>, env: VeEnv)
    returns (st: Step, seen: nat, env': VeEnv)
    requires 0 < lenp && pos + lenp <= |payload|
    requires j < split <= mbox.Length && split * size <= area.Length && split * size <= buff.Length
    requires mbox as object != area && mbox as object != buff && area != buff
    modifies mbox, area, buff
    ensures Size(env') <= Size(env)
    ensures Size(env') < Size(env) || st == Halt(NoAnswer)
    ensures seen > 0 && RecvAccepts(seen, lenp, size) ==>
      Offset(size, j) + seen <= area.Length &&
      area[..] == Overwrite(old(area[..]), Write(Offset(size, j), payload[pos..pos + seen]))
    ensures !(seen > 0 && RecvAccepts(seen, lenp, size)) ==> area[..] == old(area[..])
    ensures st.Moved? ==> st.tlen == seen > 0 && RecvAccepts(seen, lenp, size)
    ensures st.Moved? ==> Offset(size, j) + seen <= buff.Length && pos + seen <= |payload|
    ensures st.Moved? ==> buff[..] == Overwrite(old(buff[..]), Write(Offset(size, j), payload[pos..pos + seen]))
    ensures !st.Moved? ==> buff[..] == old(buff[..])
    ensures st.Halt? ==> st.how.TimeUp? || st.how.Rejected? || st.how.PostFailed? || st.how.NoAnswer?
    ensures st.Halt? && st.how.Rejected? ==> st.how.tlen == seen > 0 && !RecvAccepts(seen, lenp, size)
    ensures st.Halt? && st.how.TimeUp? ==> v.Library?
    ensures st.Halt? && st.how.PostFailed? ==> mbox[j] == 0
  {
    var w;
    w, env' := AwaitMailbox(mbox, j, false, v.Library?, env);
    if w.TimedOut? {
      return Halt(TimeUp), 0, env';
    } else if w.Stalled? {
      return Halt(NoAnswer), 0, env';
    }
    seen := w.value;
    if !RecvAccepts(seen, lenp, size) {
      return Halt(Rejected(seen)), seen, env';
    }
    var off := Offset(size, j);
    RecvAcceptedFits(split, size, area.Length, j, seen, lenp);
    RecvAcceptedFits(split, size, buff.Length, j, seen, lenp);
    var piece := payload[pos..pos + seen];
    // the host's copy of its next bytes into slot j of its data area
    Copy(area, off, piece);
    OverwriteInside(old(area[..]), Write(off, piece));
    if |env'.posts| == 0 {
      return Halt(NoAnswer), seen, env';
    }
    var p := env'.posts[0];
    env' := env'.(posts := env'.posts[1..]);
    if p.DmaAgain? {
      return Idle, seen, env';
    } else if p.DmaError? {
      mbox[j] := 0;
      return Halt(PostFailed(p.code)), seen, env';
    }
    // the DMA from slot j of the host's area to slot j of the receive mirror
    Copy(buff, off, area[off..off + seen]);
    return Moved(seen), seen, env';
  }

  /** The consumer half of an iteration of ve_udma_recv: poll the DMA of
      slot jr; once it is complete, copy the slot's `tlen` bytes to the
      destination offset `dstOff` recorded for it (unless the transfer is
      packed, whose unpacking is not modelled) and clear mailbox word jr,
      which hands the slot back to the host. In the library, EAGAIN is
      followed by the timeout test. */
  method RecvConsume(dst: array<Byte>, pack: bool, size: nat, split: nat, jr: nat, dstOff: nat, tlen: nat,
                     v: Variant, mbox: array<nat>, buff: array<Byte>, env: VeEnv)
    returns (st: Step, env': VeEnv)
    requires jr < split <= mbox.Length && split * size <= buff.Length && tlen <= size
    requires dstOff + tlen <= dst.Length
    requires mbox as object != dst && mbox as object != buff && dst != buff
    modifies mbox, dst
    ensures Size(env') <= Size(env)
    ensures Size(env') < Size(env) || st == Halt(NoAnswer)
    ensures Offset(size, jr) + tlen <= buff.Length
    ensures st.Moved? ==> st.tlen == tlen && mbox[..] == old(mbox[..])[jr := 0]
    ensures st.Moved? ==>
      dst[..] == Deliver(old(dst[..]), pack, Write(dstOff, buff[Offset(size, jr)..Offset(size, jr) + tlen]))
    ensures !st.Moved? ==> mbox[..] == old(mbox[..]) && dst[..] == old(dst[..])
    ensures st.Halt? ==> st.how.TimeUp? || st.how.PollFailed? || st.how.NoAnswer?
    ensures st.Halt? && st.how.TimeUp? ==> v.Library?
  {
    OffsetFits(split, size, buff.Length, jr);
    env' := env;
    if |env'.polls| == 0 {
      return Halt(NoAnswer), env';
    }
    var p := env'.polls[0];
    env' := env'.(polls := env'.polls[1..]);
    if p.DmaOk? {
      if !pack {
        var off := Offset(size, jr);
        Copy(dst, dstOff, buff[off..off + tlen]);
      }
      mbox[jr] := 0;
      return Moved(tlen), env';
    } else if p.DmaError? {
      return Halt(PollFailed(p.code)), env';
    }
    if v.Prototype? {
      return Idle, env';
    }
    if |env'.clock| == 0 {
      return Halt(NoAnswer), env';
    }
    var late := env'.clock[0];
    env' := env'.(clock := env'.clock[1..]);
    if late {
      return Halt(TimeUp), env';
    }
    return Idle, env';
  }

  /** The producer half of an iteration of ve_udma_recv on the receive
      state: an accepted chunk posted into slot j is recorded in the cursor,
      in dstr and in the history; anything else leaves them alone. */
  method RecvPostStep(payload: seq<Byte>, len: nat, size: nat, split: nat, pack: bool, v: Variant,
                      c: Cursor, dr: seq<nat>, ghost g: RecvLog, ghost d0: seq<Byte>,
                      dst: array<Byte>, mbox: array<nat>, area: array<Byte>, buff: array<Byte>, env: VeEnv)
    returns (st: Step, c': Cursor, dr': seq<nat>, ghost g': RecvLog, env': VeEnv)
    requires RecvInv(payload, len, size, split, pack, c, dr, g, buff[..], dst[..], d0)
    requires c.tl[c.j] == 0 && c.lenp > 0
    requires split <= mbox.Length && split * size <= area.Length
    requires mbox as object != area && mbox as object != buff && area != buff
    requires mbox as object != dst && dst != area && dst != buff
    modifies mbox, area, buff
    ensures RecvInv(payload, len, size, split, pack, c', dr', g', buff[..], dst[..], d0)
    ensures Size(env') <= Size(env)
    ensures Size(env') < Size(env) || st == Halt(NoAnswer)
    ensures st.Moved? ==> g'.lens == g.lens + [st.tlen] && g'.done == g.done
    ensures !st.Moved? ==> c' == c && dr' == dr && g' == g
    ensures st.Halt? ==> st.how.TimeUp? || st.how.Rejected? || st.how.PostFailed? || st.how.NoAnswer?
    ensures st.Halt? && st.how.TimeUp? ==> v.Library?
    ensures st.Halt? && st.how.Rejected? ==> !RecvAccepts(st.how.tlen, c.lenp, size)
  {
    ghost var b0, d1 := buff[..], dst[..];
    var seen;
    st, seen, env' := RecvProduce(payload, size, split, c.j, c.pos, c.lenp, v, mbox, area, buff, env);
    c', dr', g' := c, dr, g;
    if st.Moved? {
      RecvInvPost(payload, len, size, split, pack, c, dr, g, b0, d1, d0, seen);
      c' := Cursor((c.j + 1) % split, if c.jr == -1 then c.j else c.jr, c.tl[c.j := seen],
                   c.lenp - seen, c.pos + seen);
      dr' := dr[c.j := c.pos];
      g' := g.(lens := g.lens + [seen]);
      assert buff[..] == Overwrite(b0, Write(Offset(size, c.j), payload[c.pos..c.pos + seen]));
    } else {
      assert buff[..] == b0;
    }
    assert dst[..] == d1;
  }

  /** The consumer half of an iteration of ve_udma_recv on the receive
      state: once the oldest chunk completes, its bytes are delivered where
      the completed chunks end and it leaves the ring. */
  method RecvCompleteStep(payload: seq<Byte>, len: nat, size: nat, split: nat, pack: bool, v: Variant,
                          c: Cursor, dr: seq<nat>, ghost g: RecvLog, ghost d0: seq<Byte>,
                          dst: array<Byte>, mbox: array<nat>, buff: array<Byte>, env: VeEnv)
    returns (st: Step, c': Cursor, ghost g': RecvLog, env': VeEnv)
    requires RecvInv(payload, len, size, split, pack, c, dr, g, buff[..], dst[..], d0)
    requires c.jr >= 0 && c.tl[c.jr] > 0
    requires split <= mbox.Length
    requires mbox as object != dst && mbox as object != buff && dst != buff
    modifies dst, mbox
    ensures RecvInv(payload, len, size, split, pack, c', dr, g', buff[..], dst[..], d0)
    ensures Size(env') <= Size(env)
    ensures Size(env') < Size(env) || st == Halt(NoAnswer)
    ensures g'.lens == g.lens && g.done < |g.lens|
    ensures st.Moved? ==> g'.done == g.done + 1
    ensures !st.Moved? ==> c' == c && g' == g
    ensures st.Halt? ==> st.how.TimeUp? || st.how.PollFailed? || st.how.NoAnswer?
    ensures st.Halt? && st.how.TimeUp? ==> v.Library?
  {
    ghost var b1, d1 := buff[..], dst[..];
    RecvInvOldest(payload, len, size, split, pack, c, dr, g, b1, d1, d0);
    st, env' := RecvConsume(dst, pack, size, split, c.jr, dr[c.jr], c.tl[c.jr], v, mbox, buff, env);
    assert buff[..] == b1;
    c', g' := c, g;
    if st.Moved? {
      ghost var l, x := Landed(g), g.lens[g.done];
      assert Write(dr[c.jr], b1[Offset(size, c.jr)..Offset(size, c.jr) + c.tl[c.jr]]) == Write(l, payload[l..l + x]);
      assert dst[..] == Deliver(d1, pack, Write(l, payload[l..l + x]));
      RecvInvComplete(payload, len, size, split, pack, c, dr, g, b1, d1, d0);
      c' := c.(jr := (c.jr + 1) % split, tl := c.tl[c.jr := 0]);
      g' := g.(done := g.done + 1);
    } else {
      assert dst[..] == d1;
    }
  }

  /** One iteration of the loop of ve_udma_recv: take the chunk announced in
      slot j when the slot is free and bytes remain, then, unless the post
      answered EAGAIN, poll slot jr when a chunk is in flight. */
  method RecvRound(payload: seq<Byte>, len: nat, size: nat, split: nat, pack: bool, v: Variant,
                   c: Cursor, dr: seq<nat>, ghost g: RecvLog, ghost d0: seq<Byte>,
                   dst: array<Byte>, mbox: array<nat>, area: array<Byte>, buff: array<Byte>, env: VeEnv)
    returns (st: Step, c': Cursor, dr': seq<nat>, ghost g': RecvLog, env': VeEnv)
    requires RecvInv(payload, len, size, split, pack, c, dr, g, buff[..], dst[..], d0)
    requires c.lenp > 0 || (c.jr >= 0 && c.tl[c.jr] > 0)
    requires split <= mbox.Length && split * size <= area.Length
    requires mbox as object != area && mbox as object != buff && area != buff
    requires mbox as object != dst && dst != area && dst != buff
    modifies dst, mbox, area, buff
    ensures RecvInv(payload, len, size, split, pack, c', dr', g', buff[..], dst[..], d0)
    ensures Size(env') < Size(env) || (Size(env') == Size(env) && st.Halt?)
    ensures st.Halt? ==> c'.lenp > 0 || g'.done < |g'.lens|
    ensures st.Halt? ==>
      st.how.TimeUp? || st.how.Rejected? || st.how.PostFailed? || st.how.PollFailed? || st.how.NoAnswer?
    ensures st.Halt? && st.how.TimeUp? ==> v.Library?
    ensures st.Halt? && st.how.Rejected? ==> !RecvAccepts(st.how.tlen, c'.lenp, size)
  {
    c', dr', g', env' := c, dr, g, env;
    st := Idle;
    var idle := false;
    if c.tl[c.j] == 0 && c.lenp > 0 {
      st, c', dr', g', env' := RecvPostStep(payload, len, size, split, pack, v, c, dr, g, d0, dst, mbox, area, buff, env);
      idle := st.Idle?;
    }
    if !st.Halt? && !idle && c'.jr >= 0 && c'.tl[c'.jr] > 0 {
      st, c', g', env' := RecvCompleteStep(payload, len, size, split, pack, v, c', dr', g', d0, dst, mbox, buff, env');
    }
  }

  /** ve_udma_recv(dst, len, split, split_size, pack) from the host's send
      sub-channel (`mbox`, `area`) through the receive mirror `buff`, with
      the corrected length check. `count` is the returned len - lenp, the
      bytes of the chunks posted; `lens` lists their lengths and `done` how
      many of them completed. */
  method Recv(payload: seq<Byte>, dst: array<Byte>, len: nat, split: nat, size: nat, pack: bool, v: Variant,
              mbox: array<nat>, area: array<Byte>, buff: array<Byte>, env: VeEnv)
    returns (count: nat, ghost how: Ending, ghost lens: seq<nat>, ghost done: nat)
    requires |payload| >= len && dst.Length >= len
    requires 1 <= split <= UDMA_MAX_SPLIT && size >= 1
    requires split <= mbox.Length && split * size <= area.Length && split * size <= buff.Length
    requires mbox as object != area && mbox as object != buff && area != buff
    requires mbox as object != dst && dst != area && dst != buff
    modifies dst, mbox, area, buff
    ensures v.Library? && len >= I64 ==> count == 0 && lens == [] && how.Done? && dst[..] == old(dst[..])
    ensures count == Sum(lens) <= len && done <= |lens|
    ensures forall k :: 0 <= k < |lens| ==> 1 <= lens[k] <= size
    ensures pack ==> dst[..] == old(dst[..])
    ensures !pack ==> Sum(lens[..done]) <= count
    ensures !pack ==> dst[..] == payload[..Sum(lens[..done])] + old(dst[..])[Sum(lens[..done])..]
    ensures how.Done? <==> done == |lens| && (count == len || (v.Library? && len >= I64))
    ensures how.Rejected? ==> how.tlen > len - count || how.tlen > size
    ensures how.Done? || how.TimeUp? || how.Rejected? || how.PostFailed? || how.PollFailed? || how.NoAnswer?
    ensures how.TimeUp? ==> v.Library?
  {
    if v.Library? && len >= I64 {
      // (int64_t)len is negative: the loop does not run and len - lenp is 0
      return 0, Done, [], 0;
    }
    var c := Cursor(0, -1, seq(UDMA_MAX_SPLIT, _ => 0), len, 0);
    var dr: seq<nat> := seq(UDMA_MAX_SPLIT, _ => 0);
    ghost var g := RecvLog([], 0);
    ghost var d0 := dst[..];
    var e := env;
    var going := true;
    var res := Done;
    RingInit(split, c.tl);
    assert RecvInv(payload, len, size, split, pack, c, dr, g, buff[..], dst[..], d0);
    while going && (c.lenp > 0 || (c.jr >= 0 && c.tl[c.jr] > 0))
      invariant RecvInv(payload, len, size, split, pack, c, dr, g, buff[..], dst[..], d0)
      invariant going <==> res.Done?
      invariant !going ==> c.lenp > 0 || g.done < |g.lens|
      invariant res.Done? || res.TimeUp? || res.Rejected? || res.PostFailed? || res.PollFailed? || res.NoAnswer?
      invariant res.Rejected? ==> !RecvAccepts(res.tlen, c.lenp, size)
      invariant res.TimeUp? ==> v.Library?
      decreases Size(e), going
    {
      var st;
      st, c, dr, g, e := RecvRound(payload, len, size, split, pack, v, c, dr, g, d0, dst, mbox, area, buff, e);
      if st.Halt? {
        res, going := st.how, false;
      }
    }
    RecvInvMeans(payload, len, size, split, pack, c, dr, g, buff[..], dst[..], d0);
    count, how, lens, done := len - c.lenp, res, g.lens, g.done;
  }
}
