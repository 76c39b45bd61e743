/** Byte buffers and memcpy. A copy into a buffer is a `Write` (offset and
    bytes); a sequence of copies is applied in order. */
module Memory {
  import opened UdmaConst

  datatype Write = Write(offset: nat, bytes: seq<Byte>)

  function End(w: Write): nat
  {
    w.offset + |w.bytes|
  }

  /** The buffer `a` after copying `w.bytes` to `w.offset`. */
  function Overwrite(a: seq<Byte>, w: Write): (r: seq<Byte>)
    requires End(w) <= |a|
    ensures |r| == |a|
  {
    a[..w.offset] + w.bytes + a[End(w)..]
  }

  /** Byte x after the copy: from the copied bytes inside the written range,
      unchanged outside it. */
  lemma OverwriteAt(a: seq<Byte>, w: Write, x: nat)
    requires End(w) <= |a| && x < |a|
    ensures Overwrite(a, w)[x] == if w.offset <= x < End(w) then w.bytes[x - w.offset] else a[x]
  {
  }

  /** After the copy, the written range holds the copied bytes. */
  lemma OverwriteInside(a: seq<Byte>, w: Write)
    requires End(w) <= |a|
    ensures Overwrite(a, w)[w.offset..End(w)] == w.bytes
  {
    var r := Overwrite(a, w);
    assert r == a[..w.offset] + w.bytes + a[End(w)..];
  }

  /** A range that does not meet the written one keeps its bytes. */
  lemma OverwriteElsewhere(a: seq<Byte>, w: Write, lo: nat, hi: nat)
    requires End(w) <= |a| && lo <= hi <= |a|
    requires hi <= w.offset || End(w) <= lo
    ensures Overwrite(a, w)[lo..hi] == a[lo..hi]
  {
    var r := Overwrite(a, w);
    forall x | lo <= x < hi
      ensures r[x] == a[x]
    {
      OverwriteAt(a, w, x);
    }
    assert r[lo..hi] == a[lo..hi];
  }

  /** Every write lands inside a buffer of `n` bytes. */
  ghost predicate Fit(ws: seq<Write>, n: nat)
  {
    forall k :: 0 <= k < |ws| ==> End(ws[k]) <= n
  }

  /** The buffer after all writes, in order. */
  function Apply(a: seq<Byte>, ws: seq<Write>): (r: seq<Byte>)
    requires Fit(ws, |a|)
    ensures |r| == |a|
  {
    if |ws| == 0 then a else Overwrite(Apply(a, ws[..|ws| - 1]), ws[|ws| - 1])
  }

  lemma ApplyAppend(a: seq<Byte>, ws: seq<Write>, w: Write)
    requires Fit(ws, |a|) && End(w) <= |a|
    ensures Fit(ws + [w], |a|)
    ensures Apply(a, ws + [w]) == Overwrite(Apply(a, ws), w)
  {
    assert (ws + [w])[..|ws|] == ws;
  }

  /** A byte no write covers keeps its value. */
  lemma {:induction false} ApplyOutside(a: seq<Byte>, ws: seq<Write>, x: nat)
    requires Fit(ws, |a|) && x < |a|
    requires forall k :: 0 <= k < |ws| ==> !(ws[k].offset <= x < End(ws[k]))
    ensures Apply(a, ws)[x] == a[x]
    decreases |ws|
  {
    if |ws| > 0 {
      ApplyOutside(a, ws[..|ws| - 1], x);
      OverwriteAt(Apply(a, ws[..|ws| - 1]), ws[|ws| - 1], x);
    }
  }

  /** A byte last covered by write k holds that write's byte. */
  lemma {:induction false} ApplyLast(a: seq<Byte>, ws: seq<Write>, k: nat, x: nat)
    requires Fit(ws, |a|) && x < |a| && k < |ws|
    requires ws[k].offset <= x < End(ws[k])
    requires forall m :: k < m < |ws| ==> !(ws[m].offset <= x < End(ws[m]))
    ensures Apply(a, ws)[x] == ws[k].bytes[x - ws[k].offset]
    decreases |ws|
  {
    if k < |ws| - 1 {
      ApplyLast(a, ws[..|ws| - 1], k, x);
    }
    OverwriteAt(Apply(a, ws[..|ws| - 1]), ws[|ws| - 1], x);
  }

  /** Copying the next `l` bytes of `src` to the same offset extends a
      buffer that holds the first `s` bytes of `src` in front of the rest of
      `a` to one that holds the first s + l. */
  lemma OverwriteExtend(a: seq<Byte>, src: seq<Byte>, s: nat, l: nat)
    requires s + l <= |src| && s + l <= |a|
    ensures Overwrite(src[..s] + a[s..], Write(s, src[s..s + l])) == src[..s + l] + a[s + l..]
  {
    var lhs := Overwrite(src[..s] + a[s..], Write(s, src[s..s + l]));
    var rhs := src[..s + l] + a[s + l..];
    assert |lhs| == |rhs|;
    forall x | 0 <= x < |lhs|
      ensures lhs[x] == rhs[x]
    {
      OverwriteAt(src[..s] + a[s..], Write(s, src[s..s + l]), x);
    }
  }

  /** memcpy(dst + off, bytes, |bytes|). */
  method Copy(dst: array<Byte>, off: nat, bytes: seq<Byte>)
    requires off + |bytes| <= dst.Length
    modifies dst
    ensures dst[..] == Overwrite(old(dst[..]), Write(off, bytes))
  {
    forall t | 0 <= t < |bytes| {
      dst[off + t] := bytes[t];
    }
  }
}
