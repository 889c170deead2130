/** Circular slot arithmetic shared by both ring-buffer variants: a memory of
    `slots` cells in which the stored units start one slot past the read
    position, and the two-piece copies that go round its end. */
module Circular {
  import opened Common
  import RingMacros

  /** `len` consecutive slots of a circular memory of `slots` cells, the
      first at slot `from % slots`. */
  function Window<T>(mem: seq<T>, from: nat, slots: nat, len: nat): (r: seq<T>)
    requires 0 < slots <= |mem|
    ensures |r| == len
  {
    seq(len, k => mem[(from + k) % slots])
  }

  /** The stored units of a header over the memory `mem`. */
  ghost function Stored<T>(mem: seq<T>, posRead: nat, posWrite: nat, slots: nat): (r: seq<T>)
    requires 0 < slots <= |mem| && posRead < slots
    ensures |r| == RingMacros.Size(posRead, posWrite, slots)
  {
    Window(mem, posRead + 1, slots, RingMacros.Size(posRead, posWrite, slots))
  }

  /** The two contiguous pieces rbuf_peek_cb hands out for `n` units at
      `offset`: the first runs from the slot after the virtual read position
      to the end of the memory, the second restarts at slot 0. */
  function PeekSegments<T>(mem: seq<T>, posRead: nat, slots: nat, offset: nat, n: nat)
    : (segs: (seq<T>, seq<T>))
    requires 0 < slots <= |mem| && posRead < slots && n < slots
    ensures |segs.0| + |segs.1| == n
  {
    var virt := (posRead + offset) % slots;
    var first := Min(slots - 1 - virt, n);
    var start := (virt + 1) % slots;
    Mod2(virt + 1, slots);
    (mem[start .. start + first], mem[0 .. n - first])
  }

  /** The two pieces together are exactly the stored units offset..offset+n,
      including when the virtual read position is the last slot and the first
      piece is empty. */
  lemma PeekSegmentsCover<T>(mem: seq<T>, posRead: nat, slots: nat, size: nat, offset: nat, n: nat)
    requires 0 < slots <= |mem| && posRead < slots && size < slots
    requires offset + n <= size
    ensures var segs := PeekSegments(mem, posRead, slots, offset, n);
            segs.0 + segs.1 == Window(mem, posRead + 1, slots, size)[offset .. offset + n]
  {
    var segs := PeekSegments(mem, posRead, slots, offset, n);
    var w := Window(mem, posRead + 1, slots, size)[offset .. offset + n];
    var virt := (posRead + offset) % slots;
    var first := Min(slots - 1 - virt, n);
    Mod2(posRead + offset, slots);
    Mod2(virt + 1, slots);
    assert |segs.0| == first;
    forall k | 0 <= k < n
      ensures (segs.0 + segs.1)[k] == w[k]
    {
      Mod2(posRead + 1 + offset + k, slots);
      if k < first {
        assert (segs.0 + segs.1)[k] == mem[(virt + 1) % slots + k];
      } else {
        assert (segs.0 + segs.1)[k] == mem[k - first];
      }
    }
  }

  /** How many slots past `from` slot `j` lies, going round the memory. */
  function Dist(from: nat, j: nat, slots: nat): nat
    requires from < slots
  {
    (j + slots - from) % slots
  }

  /** Writing `src` at the write slot and leaving every other slot alone
      appends `src` to the stored units. */
  lemma WriteAppends<T>(before: seq<T>, after: seq<T>, posRead: nat, posWrite: nat,
                     slots: nat, size: nat, src: seq<T>)
    requires 0 < slots <= |before| && |after| == |before|
    requires posRead < slots && size + |src| < slots
    requires posWrite == (posRead + 1 + size) % slots
    requires forall i :: 0 <= i < |src| ==> after[(posWrite + i) % slots] == src[i]
    requires forall j :: 0 <= j < slots && Dist(posWrite, j, slots) >= |src| ==> after[j] == before[j]
    ensures Window(after, posRead + 1, slots, size + |src|)
            == Window(before, posRead + 1, slots, size) + src
  {
    var a := Window(after, posRead + 1, slots, size + |src|);
    var b := Window(before, posRead + 1, slots, size) + src;
    Mod2(posRead + 1 + size, slots);
    forall k | 0 <= k < size + |src|
      ensures a[k] == b[k]
    {
      Mod2(posRead + 1 + k, slots);
      var j := (posRead + 1 + k) % slots;
      if k < size {
        Mod2(j + slots - posWrite, slots);
        assert Dist(posWrite, j, slots) == slots - size + k;
      } else {
        Mod2(posWrite + (k - size), slots);
        assert after[(posWrite + (k - size)) % slots] == src[k - size];
      }
    }
  }

  /** memmove's effect on a snapshot of the memory: `src` over the cells
      from `off` on. */
  function Splice<T>(mem: seq<T>, off: nat, src: seq<T>): (r: seq<T>)
    requires off + |src| <= |mem|
    ensures |r| == |mem|
    ensures forall i :: 0 <= i < |r| ==> r[i] == if off <= i < off + |src| then src[i - off] else mem[i]
  {
    mem[..off] + src + mem[off + |src|..]
  }

  /** `after` is `before` with `src` in the |src| slots from `at` on, going
      round the memory, and every other cell as it was. */
  ghost predicate WrittenAround<T>(before: seq<T>, after: seq<T>, at: nat, slots: nat, src: seq<T>)
    requires 0 < slots <= |before| && at < slots
  {
    |after| == |before|
    && (forall i :: 0 <= i < |src| ==> after[(at + i) % slots] == src[i])
    && (forall j :: 0 <= j < slots && Dist(at, j, slots) >= |src| ==> after[j] == before[j])
    && (forall j :: slots <= j < |after| ==> after[j] == before[j])
  }

  /** rbuf_write's two memmove calls, the first up to the end of the memory
      and the second from slot 0, write `src` round the memory from `at`. */
  lemma TwoPieceWrite<T>(before: seq<T>, mid: seq<T>, after: seq<T>,
                      at: nat, slots: nat, first: nat, src: seq<T>)
    requires 0 < slots <= |before| && at < slots && |src| < slots
    requires first == Min(slots - at, |src|)
    requires mid == Splice(before, at, src[..first])
    requires after == if first < |src| then Splice(mid, 0, src[first..]) else mid
    ensures WrittenAround(before, after, at, slots, src)
  {
    var rest := |src| - first;
    assert rest > 0 ==> first == slots - at;
    forall i | 0 <= i < |src|
      ensures after[(at + i) % slots] == src[i]
    {
      Mod2(at + i, slots);
      if i < first {
        assert mid[at + i] == src[..first][i];
        assert after[at + i] == mid[at + i];
      } else {
        assert after[i - first] == src[first..][i - first];
      }
    }
    forall j | 0 <= j < slots && Dist(at, j, slots) >= |src|
      ensures after[j] == before[j]
    {
      Mod2(j + slots - at, slots);
      assert !(at <= j < at + first) && !(j < rest);
      assert after[j] == mid[j];
    }
  }

  /** The write position after the two pieces: the first ends at the last
      slot whenever a second one follows, and the two updates together
      advance the position by the whole count. */
  lemma WritePositions(at: nat, slots: nat, first: nat, n: nat)
    requires at < slots && n < slots && first == Min(slots - at, n)
    ensures first < n ==> (at + first) % slots == 0
    ensures first < n ==> ((at + first) % slots + (n - first)) % slots == (at + n) % slots
    ensures first == n ==> (at + first) % slots == (at + n) % slots
  {
    Mod2(at + first, slots);
    Mod2(at + n, slots);
    Mod2(n - first, slots);
  }

  /** The header and the stored units after rbuf_write stored `src`. */
  lemma WriteResult<T>(before: seq<T>, after: seq<T>, posRead: nat, posWrite: nat,
                    slots: nat, size: nat, src: seq<T>)
    requires 0 < slots <= |before| && |after| == |before|
    requires posRead < slots && posWrite < slots
    requires size == RingMacros.Size(posRead, posWrite, slots)
    requires |src| <= RingMacros.Spare(posRead, posWrite, slots)
    requires WrittenAround(before, after, posWrite, slots, src)
    ensures RingMacros.Size(posRead, (posWrite + |src|) % slots, slots) == size + |src|
    ensures Stored(after, posRead, (posWrite + |src|) % slots, slots)
            == Stored(before, posRead, posWrite, slots) + src
  {
    RingMacros.WriteSlot(posRead, posWrite, slots);
    WriteAppends(before, after, posRead, posWrite, slots, size, src);
    AdvanceSize(posRead, posWrite, slots, 0, |src|);
  }

  /** Advancing the read position by `r` drops the first `r` stored units. */
  lemma ForwardDrops<T>(mem: seq<T>, posRead: nat, posWrite: nat, slots: nat, r: nat)
    requires 0 < slots <= |mem| && posRead < slots && posWrite < slots
    requires r <= RingMacros.Size(posRead, posWrite, slots)
    ensures RingMacros.Size((posRead + r) % slots, posWrite, slots)
            == RingMacros.Size(posRead, posWrite, slots) - r
    ensures Stored(mem, (posRead + r) % slots, posWrite, slots)
            == Stored(mem, posRead, posWrite, slots)[r..]
  {
    var size := RingMacros.Size(posRead, posWrite, slots);
    AdvanceSize(posRead, posWrite, slots, r, 0);
    var a := Window(mem, (posRead + r) % slots + 1, slots, size - r);
    var b := Window(mem, posRead + 1, slots, size)[r..];
    Mod2(posRead + r, slots);
    forall k | 0 <= k < size - r
      ensures a[k] == b[k]
    {
      Mod2((posRead + r) % slots + 1 + k, slots);
      Mod2(posRead + 1 + r + k, slots);
    }
  }

  /** Advancing either position by `k` changes the size by `k`. */
  lemma AdvanceSize(posRead: nat, posWrite: nat, slots: nat, r: nat, w: nat)
    requires posRead < slots && posWrite < slots
    requires r <= RingMacros.Size(posRead, posWrite, slots)
    requires w <= RingMacros.Spare(posRead, posWrite, slots)
    ensures RingMacros.Size((posRead + r) % slots, posWrite, slots)
            == RingMacros.Size(posRead, posWrite, slots) - r
    ensures RingMacros.Size(posRead, (posWrite + w) % slots, slots)
            == RingMacros.Size(posRead, posWrite, slots) + w
  {
    var s := RingMacros.Size(posRead, posWrite, slots);
    RingMacros.WriteSlot(posRead, posWrite, slots);
    Mod2(posRead + 1 + s, slots);
    Mod2(posRead + r, slots);
    var pr := (posRead + r) % slots;
    Mod2(pr + 1 + (s - r), slots);
    RingMacros.SizeAfterAdvance(pr, s - r, slots);
    Mod2(posWrite + w, slots);
    Mod2(posRead + 1 + s + w, slots);
    RingMacros.SizeAfterAdvance(posRead, s + w, slots);
  }

  /** memmove of a snapshot into `dst` at `dstOff`. */
  method MemMove<T>(dst: array<T>, dstOff: nat, src: seq<T>)
    requires dstOff + |src| <= dst.Length
    modifies dst
    ensures dst[..] == Splice(old(dst[..]), dstOff, src)
  {
    forall i | 0 <= i < |src| {
      dst[dstOff + i] := src[i];
    }
    assert dst[..] == Splice(old(dst[..]), dstOff, src);
  }


  /** The two memmove calls of a peek into a caller's buffer: the first
      piece at the start, the second one right after it when there is one. */
  method CopyOut<T>(dst: array<T>, s1: seq<T>, s2: seq<T>)
    requires |s1| + |s2| <= dst.Length
    modifies dst
    ensures dst[..|s1| + |s2|] == s1 + s2
    ensures dst[|s1| + |s2|..] == old(dst[|s1| + |s2|..])
  {
    MemMove(dst, 0, s1);
    if 0 < |s2| {
      MemMove(dst, |s1|, s2);
    }
  }
}
