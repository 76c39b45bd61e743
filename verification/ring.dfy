/** The slot ring shared by every split transfer: how a transfer of `len` bytes
    is cut into chunks, and the cursor discipline of the VE-side pipelines
    (ve_udma_send / ve_udma_recv and the prototype's two-slot versions).

    The pipeline keeps a producer cursor `j` (next slot to post), a consumer
    cursor `jr` (oldest slot still in flight, -1 before the first post) and an
    array `tlenr` with the length in flight in each slot. RingInv states, in
    terms of the chunks posted so far and the number of them completed, that
    the slots holding a nonzero length are exactly the cyclic run of slots
    from `jr` up to (not including) `j` -- all slots when the ring is full --
    and that chunk k occupies slot k mod split. */
module Ring {
  import opened UdmaConst

  // ---------------------------------------------------------------------
  // Chunking: every sender takes MIN(split_size, lenp) bytes per chunk.

  /** Length of chunk `k` of a transfer of `len` bytes cut into chunks of
      MIN(size, remaining) bytes; 0 once the whole length is covered. */
  function ChunkLen(len: nat, size: nat, k: nat): nat
  {
    if k * size < len then Min(size, len - k * size) else 0
  }

  /** Bytes covered by the first `n` chunks. */
  function Covered(len: nat, size: nat, n: nat): nat
  {
    Min(len, n * size)
  }

  /** Posting one more chunk covers exactly its length more, and a chunk taken
      while bytes remain is nonempty and at most `size` long. */
  lemma CoveredStep(len: nat, size: nat, n: nat)
    requires size > 0 && Covered(len, size, n) < len
    ensures n * size < len
    ensures 0 < ChunkLen(len, size, n) <= size
    ensures ChunkLen(len, size, n) == Min(size, len - Covered(len, size, n))
    ensures Covered(len, size, n + 1) == Covered(len, size, n) + ChunkLen(len, size, n)
  {
    assert (n + 1) * size == n * size + size;
  }

  /** Chunk `k` starts at byte k*size of the transfer whenever it exists. */
  lemma ChunkStart(len: nat, size: nat, k: nat)
    requires ChunkLen(len, size, k) > 0
    ensures Covered(len, size, k) == k * size
    ensures k * size + ChunkLen(len, size, k) <= len
  {
  }

  /** Every chunk lies inside the transfer, right after the bytes covered
      before it. */
  lemma ChunkInside(len: nat, size: nat, k: nat)
    ensures Covered(len, size, k) + ChunkLen(len, size, k) <= len
  {
  }

  /** The lengths of the first `n` chunks. */
  function Plan(len: nat, size: nat, n: nat): (p: seq<nat>)
    ensures |p| == n
    ensures forall k :: 0 <= k < n ==> p[k] == ChunkLen(len, size, k)
  {
    if n == 0 then [] else Plan(len, size, n - 1) + [ChunkLen(len, size, n - 1)]
  }

  /** The first `n` chunks together cover Covered(len, size, n) bytes. */
  lemma {:induction false} SumPlan(len: nat, size: nat, n: nat)
    ensures Sum(Plan(len, size, n)) == Covered(len, size, n)
  {
    if n > 0 {
      SumPlan(len, size, n - 1);
      SumAppend(Plan(len, size, n - 1), ChunkLen(len, size, n - 1));
      assert n * size == (n - 1) * size + size;
    }
  }

  /** With chunk size 0 no chunk carries a byte: a transfer never progresses. */
  lemma ZeroSizeNoProgress(len: nat, n: nat)
    ensures ChunkLen(len, 0, n) == 0 && Covered(len, 0, n) == 0
  {
  }

  /** Sum of a sequence of lengths, peeled from the end so that appending a
      length is one unfolding. */
  function Sum(s: seq<nat>): nat
  {
    if s == [] then 0 else Sum(s[..|s| - 1]) + s[|s| - 1]
  }

  lemma SumAppend(s: seq<nat>, x: nat)
    ensures Sum(s + [x]) == Sum(s) + x
  {
    assert (s + [x])[..|s|] == s;
  }

  /** A prefix never sums to more than the whole. */
  lemma {:induction false} SumPrefix(s: seq<nat>, i: nat)
    requires i <= |s|
    ensures Sum(s[..i]) <= Sum(s)
    decreases |s|
  {
    if i < |s| {
      assert s[..|s| - 1][..i] == s[..i];
      SumPrefix(s[..|s| - 1], i);
    } else {
      assert s[..i] == s;
    }
  }

  /** Where each chunk of a transfer with chunk lengths `lens` starts: the
      sum of the lengths before it. */
  function Starts(lens: seq<nat>): (st: seq<nat>)
    ensures |st| == |lens|
  {
    if |lens| == 0 then [] else Starts(lens[..|lens| - 1]) + [Sum(lens[..|lens| - 1])]
  }

  lemma StartsAppend(lens: seq<nat>, x: nat)
    ensures Starts(lens + [x]) == Starts(lens) + [Sum(lens)]
  {
    assert (lens + [x])[..|lens|] == lens;
  }

  /** Chunk k starts after the lengths before it and ends where chunk k + 1
      starts, inside the whole transfer. */
  lemma {:induction false} StartsChain(lens: seq<nat>, k: nat)
    requires k < |lens|
    ensures Starts(lens)[k] == Sum(lens[..k])
    ensures Starts(lens)[k] + lens[k] == Sum(lens[..k + 1]) <= Sum(lens)
    decreases |lens|
  {
    var init := lens[..|lens| - 1];
    if k < |lens| - 1 {
      StartsChain(init, k);
      assert init[..k] == lens[..k] && init[..k + 1] == lens[..k + 1];
    } else {
      assert init == lens[..k];
    }
    assert lens[..k + 1][..k] == lens[..k];
    SumPrefix(lens, k + 1);
  }

  /** The bytes of chunk k of `src`. */
  function ChunkBytes(src: seq<Byte>, len: nat, size: nat, k: nat): (b: seq<Byte>)
    requires |src| >= len
    ensures |b| == ChunkLen(len, size, k)
  {
    ChunkInside(len, size, k);
    src[Covered(len, size, k)..Covered(len, size, k) + ChunkLen(len, size, k)]
  }

  /** The bytes of the first n chunks. */
  function Chunks(src: seq<Byte>, len: nat, size: nat, n: nat): (cs: seq<seq<Byte>>)
    requires |src| >= len
    ensures |cs| == n
  {
    if n == 0 then [] else Chunks(src, len, size, n - 1) + [ChunkBytes(src, len, size, n - 1)]
  }

  /** Entry k of the first n chunks is chunk k. */
  lemma {:induction false} ChunksAt(src: seq<Byte>, len: nat, size: nat, n: nat, k: nat)
    requires |src| >= len && k < n
    ensures Chunks(src, len, size, n)[k] == ChunkBytes(src, len, size, k)
  {
    if k < n - 1 {
      ChunksAt(src, len, size, n - 1, k);
    }
  }

  // ---------------------------------------------------------------------
  // Modular cursor arithmetic.

  /** The slot after `s` in a ring of `split` slots. */
  function Next(s: nat, split: nat): (t: nat)
    requires s < split
    ensures t < split
  {
    if s + 1 == split then 0 else s + 1
  }

  /** Cyclic distance from slot `head` forward to slot `s`. */
  function Dist(s: nat, head: nat, split: nat): (d: nat)
    requires s < split && head < split
    ensures d < split
  {
    if s >= head then s - head else s + split - head
  }

  lemma ModUnique(a: int, m: int, q: int, r: int)
    requires m > 0 && a == q * m + r && 0 <= r < m
    ensures a % m == r && a / m == q
  {
    var q', r' := a / m, a % m;
    var d := q - q';
    assert d * m == r' - r by {
      assert q * m - q' * m == (q - q') * m;
    }
    if d >= 1 {
      MulAtLeast(d, m);
    } else if d <= -1 {
      MulAtLeast(-d, m);
    }
  }

  lemma MulAtLeast(d: int, m: int)
    requires d >= 1 && m > 0
    ensures d * m >= m
  {
    assert d * m == (d - 1) * m + m;
  }

  /** `(j + 1) % split`, the cursor advance of the C code, is Next. */
  lemma ModNext(n: nat, split: nat)
    requires split > 0
    ensures (n + 1) % split == Next(n % split, split)
  {
    var q, r := n / split, n % split;
    if r + 1 < split {
      ModUnique(n + 1, split, q, r + 1);
    } else {
      assert n + 1 == (q + 1) * split + 0;
      ModUnique(n + 1, split, q + 1, 0);
    }
  }

  /** Advancing a cursor that tracks n % split with (i + 1) % split keeps it
      tracking n + 1. */
  lemma CursorStep(n: nat, i: nat, split: nat)
    requires split > 0 && i == n % split
    ensures (i + 1) % split == (n + 1) % split
  {
    ModNext(n, split);
    if i + 1 < split {
      ModUnique(i + 1, split, 0, i + 1);
    } else {
      ModUnique(i + 1, split, 1, 0);
    }
  }

  /** The slot of chunk `n` lies `n - done` slots after the slot of chunk
      `done`, counting cyclically (0 when the two coincide after a full turn). */
  lemma {:induction false} DistOfMod(n: nat, done: nat, split: nat)
    requires split > 0 && done <= n <= done + split
    ensures Dist(n % split, done % split, split) == if n - done == split then 0 else n - done
    decreases n - done
  {
    if n > done {
      DistOfMod(n - 1, done, split);
      ModNext(n - 1, split);
    }
  }

  /** Two slots at the same distance from the head are the same slot. */
  lemma DistInjective(s: nat, t: nat, head: nat, split: nat)
    requires s < split && t < split && head < split
    requires Dist(s, head, split) == Dist(t, head, split)
    ensures s == t
  {
  }

  // ---------------------------------------------------------------------
  // The ring invariant.

  /** Length in flight in slot `s` when `lens` lists the lengths of every
      chunk posted so far and the first `done` of them have completed:
      chunk done + d sits in the slot d places after the head. */
  function InFlightLen(split: nat, lens: seq<nat>, done: nat, s: nat): nat
    requires s < split && done <= |lens|
  {
    var d := Dist(s, done % split, split);
    if d < |lens| - done then lens[done + d] else 0
  }

  /** The cursor invariant of the VE pipelines. */
  ghost predicate RingInv(split: nat, j: int, jr: int, tl: seq<int>, lens: seq<nat>, done: nat)
  {
    && 1 <= split <= |tl|
    && done <= |lens| <= done + split
    && 0 <= j < split && j == |lens| % split
    && (if |lens| == 0 then jr == -1 else 0 <= jr < split && jr == done % split)
    && (forall k :: 0 <= k < |lens| ==> lens[k] > 0)
    && (forall s :: 0 <= s < split ==> tl[s] == InFlightLen(split, lens, done, s))
  }

  /** A zeroed length array is an empty ring with both cursors at the start. */
  lemma RingInit(split: nat, tl: seq<int>)
    requires 1 <= split <= |tl|
    requires forall s :: 0 <= s < |tl| ==> tl[s] == 0
    ensures RingInv(split, 0, -1, tl, [], 0)
  {
  }

  /** Slot j is free exactly when fewer than split chunks are in flight, and
      the consumer has something to poll exactly when a chunk is in flight,
      namely the oldest one. */
  lemma RingFacts(split: nat, j: int, jr: int, tl: seq<int>, lens: seq<nat>, done: nat)
    requires RingInv(split, j, jr, tl, lens, done)
    ensures tl[j] == 0 <==> |lens| - done < split
    ensures (jr >= 0 && tl[jr] > 0) <==> done < |lens|
    ensures done < |lens| ==> jr >= 0 && tl[jr] == lens[done]
    ensures forall s :: 0 <= s < split ==> 0 <= tl[s]
  {
    DistOfMod(|lens|, done, split);
    if |lens| > 0 {
      assert Dist(jr, done % split, split) == 0;
    }
  }

  /** Posting a chunk of length x > 0 into the free slot j: the ring grows by
      one at the producer end, j advances, and jr is set on the first post. */
  lemma RingPost(split: nat, j: int, jr: int, tl: seq<int>, lens: seq<nat>, done: nat, x: nat)
    requires RingInv(split, j, jr, tl, lens, done)
    requires tl[j] == 0 && x > 0
    ensures RingInv(split, (j + 1) % split, if jr == -1 then j else jr, tl[j := x], lens + [x], done)
  {
    RingFacts(split, j, jr, tl, lens, done);
    var n := |lens|;
    var lens' := lens + [x];
    var tl' := tl[j := x];
    var head := done % split;
    DistOfMod(n, done, split);
    ModNext(n, split);
    ModUnique(j + 1, split, if j + 1 == split then 1 else 0, Next(j, split));
    forall s | 0 <= s < split
      ensures tl'[s] == InFlightLen(split, lens', done, s)
    {
      if s != j {
        if Dist(s, head, split) == n - done {
          DistInjective(s, j, head, split);
        }
      }
    }
  }

  /** Completing the oldest chunk: its length was in slot jr, the slot is
      cleared and jr advances, so completions follow posting order. */
  lemma RingComplete(split: nat, j: int, jr: int, tl: seq<int>, lens: seq<nat>, done: nat)
    requires RingInv(split, j, jr, tl, lens, done)
    requires done < |lens|
    ensures jr == done % split && tl[jr] == lens[done]
    ensures RingInv(split, j, (jr + 1) % split, tl[jr := 0], lens, done + 1)
  {
    RingFacts(split, j, jr, tl, lens, done);
    ModNext(done, split);
    ModUnique(jr + 1, split, if jr + 1 == split then 1 else 0, Next(jr, split));
    var tl' := tl[jr := 0];
    forall s | 0 <= s < split
      ensures tl'[s] == InFlightLen(split, lens, done + 1, s)
    {
    }
  }

  /** Per-slot companions of tlenr (the source pointer, the destination
      pointer, the staged bytes): slot s holds the value recorded for the
      chunk in flight there. */
  ghost predicate Carries<T>(split: nat, slots: seq<T>, per: seq<T>, done: nat)
    requires 1 <= split <= |slots| && done <= |per|
  {
    forall s :: 0 <= s < split && Dist(s, done % split, split) < |per| - done ==>
      slots[s] == per[done + Dist(s, done % split, split)]
  }

  /** Recording the value of a newly posted chunk in its slot. */
  lemma CarriesPost<T>(split: nat, slots: seq<T>, per: seq<T>, done: nat, v: T)
    requires 1 <= split <= |slots| && done <= |per| < done + split
    requires Carries(split, slots, per, done)
    ensures Carries(split, slots[|per| % split := v], per + [v], done)
  {
    var n := |per|;
    var j := n % split;
    var head := done % split;
    DistOfMod(n, done, split);
    forall s | 0 <= s < split && Dist(s, head, split) < |per + [v]| - done
      ensures slots[j := v][s] == (per + [v])[done + Dist(s, head, split)]
    {
      if s != j {
        if Dist(s, head, split) == n - done {
          DistInjective(s, j, head, split);
        }
      }
    }
  }

  /** Completing the oldest chunk: the value in its slot was that chunk's, and
      whatever the slot holds afterwards no longer matters. */
  lemma CarriesComplete<T>(split: nat, slots: seq<T>, per: seq<T>, done: nat)
    requires 1 <= split <= |slots| && done < |per| <= done + split
    requires Carries(split, slots, per, done)
    ensures slots[done % split] == per[done]
    ensures Carries(split, slots, per, done + 1)
  {
    ModNext(done, split);
    assert Dist(done % split, done % split, split) == 0;
  }
}
