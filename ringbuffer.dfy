/** The byte ring buffer (rbuf_*): bounded FIFO storage inside a
    caller-supplied region, a header followed by `szBuf` data slots of which
    one is the sentinel between writer and reader. */
module RingBuffer {
  import opened Common
  import RingMacros
  import opened Circular

  /** The outcome of rbuf_init's size check: -1, or the data slot count. */
  function InitSlots(byteSize: nat, header: nat): (r: int)
    ensures r == -1 <==> byteSize <= header
    ensures r != -1 ==> 1 <= r && r + header == byteSize
  {
    if byteSize <= header then -1 else byteSize - header
  }

  /** The return value of rbuf_peek_cb once its bounds checks pass, given the
      consumer's answers for the two segments: a negative answer gives -1, an
      answer other than the segment length gives 0 (retry with more room) and
      the second segment is offered only when the first fell short of `n`. */
  function ConsumerOutcome(accept: (nat, nat, seq<Byte>) -> int, n: nat,
                           s1: seq<Byte>, s2: seq<Byte>): (r: int)
    ensures r == -1 || r == 0 || r == n
    ensures r == -1 <==> accept(n, 0, s1) < 0
                         || (accept(n, 0, s1) == |s1| < n && accept(n, |s1|, s2) < 0)
    ensures n != 0 ==> (r == n <==> accept(n, 0, s1) == |s1|
                                    && (|s1| < n ==> accept(n, |s1|, s2) == |s2|))
  {
    var a := accept(n, 0, s1);
    if a < 0 then -1
    else if a != |s1| then 0
    else if |s1| < n then
      var b := accept(n, |s1|, s2);
      if b < 0 then -1 else if b != |s2| then 0 else n
    else n
  }

  // ---------------------------------------------------------------------
  // The peek consumers.

  /** struct _rbuf_peek_cb_t: the record rbuf_peek hands to cb_write_peek. */
  class PeekRecord {
    const target: array?<Byte>
    const szBuf: nat      // the size of `target`
    var szRet: nat        // bytes delivered so far
    var szMore: nat       // how much larger `target` would need to be

    ghost predicate Valid()
    {
      target != null ==> szBuf <= target.Length
    }

    /** memset(&rec, 0, ...) followed by setting target and sz_buf. */
    constructor(target: array?<Byte>, szBuf: nat)
      requires target != null ==> szBuf <= target.Length
      ensures Valid() && this.target == target && this.szBuf == szBuf
      ensures szRet == 0 && szMore == 0
    {
      this.target := target;
      this.szBuf := szBuf;
      szRet := 0;
      szMore := 0;
    }

    /** cb_write_peek: copy one segment to target + offTarget, or report how
        much room is missing and accept nothing. */
    method WriteSegment(szMax: nat, offTarget: nat, seg: seq<Byte>) returns (ret: int)
      requires Valid() && target != null && offTarget == szRet
      modifies this, target
      ensures Valid()
      ensures offTarget + |seg| > szBuf ==>
                ret == 0 && szMore == offTarget + |seg| - szBuf && szRet == old(szRet)
                && target[..] == old(target[..])
      ensures offTarget + |seg| <= szBuf ==>
                ret == |seg| && szRet == offTarget + |seg| && szMore == old(szMore)
                && target[offTarget .. offTarget + |seg|] == seg
                && (forall j :: 0 <= j < target.Length && !(offTarget <= j < offTarget + |seg|)
                      ==> target[j] == old(target[j]))
    {
      if offTarget + |seg| > szBuf {
        szMore := offTarget + |seg| - szBuf;
        return 0;
      }
      MemMove(target, offTarget, seg);
      if szRet < offTarget + |seg| {
        szRet := offTarget + |seg|;
      }
      ret := |seg|;
    }
  }

  /** The callback argument of rbuf_peek_cb: absent (NULL), an arbitrary
      consumer seen only through its return values, or cb_write_peek with
      its record. */
  datatype Callback =
    | NoCallback
    | Consumer(accept: (nat, nat, seq<Byte>) -> int)
    | CopyToTarget(rec: PeekRecord)
  {
    function Footprint(): set<object>
    {
      if CopyToTarget? then
        {rec} + (if rec.target != null then {rec.target} else {})
      else {}
    }
  }

  /** The hand-over loop of rbuf_peek_cb: offers the first segment at offset
      0 and, when it fell short of `n`, the second one after it; stops with
      -1 on a negative answer and with 0 on a partial one. */
  method OfferSegments(n: nat, s1: seq<Byte>, s2: seq<Byte>, cb: Callback) returns (r: int)
    requires !cb.NoCallback? && |s1| + |s2| == n
    requires cb.CopyToTarget? ==> cb.rec.Valid() && cb.rec.szRet == 0 && cb.rec.target != null
    modifies cb.Footprint()
    ensures cb.Consumer? ==> r == ConsumerOutcome(cb.accept, n, s1, s2)
    ensures cb.CopyToTarget? ==>
              var target := cb.rec.target;
              (n <= cb.rec.szBuf ==>
                 r == n && cb.rec.szRet == n && target[..n] == s1 + s2
                 && forall j :: n <= j < target.Length ==> target[j] == old(target[j]))
              && (n > cb.rec.szBuf ==>
                    r == 0 && 0 < cb.rec.szMore
                    && forall j :: cb.rec.szBuf <= j < target.Length ==> target[j] == old(target[j]))
  {
    var ret: int;
    if cb.Consumer? {
      ret := cb.accept(n, 0, s1);
    } else {
      ret := cb.rec.WriteSegment(n, 0, s1);
    }
    if ret < 0 {
      return -1;
    }
    if ret != |s1| {
      return 0;
    }
    if |s1| < n {
      if cb.Consumer? {
        ret := cb.accept(n, |s1|, s2);
      } else {
        ghost var mid := cb.rec.target[..];
        ret := cb.rec.WriteSegment(n, |s1|, s2);
        if ret == |s2| {
          assert cb.rec.target[..n] == mid[..|s1|] + s2;
        }
      }
      if ret < 0 {
        return -1;
      }
      if ret != |s2| {
        return 0;
      }
    }
    r := n;
  }

  // ---------------------------------------------------------------------
  // The ring buffer.

  /** A ring_buffer_t together with the caller's memory behind its header. */
  class Ring {
    const wordSize: nat        // sizeof(size_t)
    const ptrSize: nat         // sizeof(unsigned char *)
    const data: array<Byte>    // the region after the header; buf1 points here
    var posRead: nat           // one slot before the first stored byte
    var posWrite: nat          // the next slot to fill
    var szBuf: nat             // slot count, sentinel included

    function Header(): nat
    {
      RingMacros.HeaderBytes(wordSize, ptrSize)
    }

    /** The header after a successful rbuf_init. A region of one byte past
        the header leaves posWrite == szBuf == 1 and no usable slot. */
    ghost predicate Valid()
      reads this
    {
      0 < szBuf <= data.Length && posRead < szBuf
      && (posWrite < szBuf || posWrite == szBuf == 1)
    }

    function Max(): int
      reads this
    {
      RingMacros.Max(szBuf)
    }

    function Size(): nat
      reads this
      requires Valid()
    {
      RingMacros.Size(posRead, posWrite, szBuf)
    }

    function Spare(): nat
      reads this
      requires Valid()
    {
      RingMacros.Spare(posRead, posWrite, szBuf)
    }

    /** The stored bytes, oldest first. */
    ghost function Contents(): seq<Byte>
      reads this, data
      requires Valid()
    {
      Stored(data[..], posRead, posWrite, szBuf)
    }

    /** The caller's region: a header and `dataBytes` bytes behind it,
        not yet initialised. */
    constructor(wordSize: nat, ptrSize: nat, dataBytes: nat)
      ensures this.wordSize == wordSize && this.ptrSize == ptrSize
      ensures fresh(data) && data.Length == dataBytes
      ensures posRead == 0 && posWrite == 0 && szBuf == 0
    {
      this.wordSize := wordSize;
      this.ptrSize := ptrSize;
      data := new Byte[dataBytes];
      posRead, posWrite, szBuf := 0, 0, 0;
    }

    /** rbuf_init: fails when the region cannot hold the header and one
        slot; otherwise the buffer is empty with every byte after the header
        as a slot. */
    method Init(byteSize: nat) returns (r: int)
      requires byteSize <= Header() + data.Length
      modifies this
      ensures r == -1 <==> byteSize <= Header()
      ensures r == -1 ==> posRead == old(posRead) && posWrite == old(posWrite) && szBuf == old(szBuf)
      ensures r != -1 ==> r == 0 && Valid() && posRead == 0 && posWrite == 1
                          && szBuf == InitSlots(byteSize, Header())
                          && Size() == 0 && Contents() == []
    {
      if byteSize <= Header() {
        return -1;
      }
      posRead := 0;
      posWrite := 1;
      szBuf := byteSize - Header();
      r := 0;
    }

    /** rbuf_reset as written: it re-runs rbuf_init with sz_buf plus three
        size_t, one pointer short of the header it subtracts again. */
    method Reset() returns (r: int)
      requires Valid()
      modifies this
      ensures r == -1 <==> old(szBuf) <= ptrSize
      ensures r == -1 ==> posRead == old(posRead) && posWrite == old(posWrite) && szBuf == old(szBuf)
      ensures r != -1 ==> Valid() && posRead == 0 && posWrite == 1 && szBuf == old(szBuf) - ptrSize
                          && Contents() == []
    {
      r := Init(RingMacros.ResetByteSize(szBuf, wordSize));
    }

    /** rbuf_reset as intended: re-initialise over the same region size,
        which keeps the capacity. */
    method ResetCorrected() returns (r: int)
      requires Valid()
      modifies this
      ensures r == 0 && Valid() && posRead == 0 && posWrite == 1
      ensures szBuf == old(szBuf) && Max() == old(Max())
      ensures Contents() == []
    {
      r := Init(szBuf + Header());
    }

    /** rbuf_write: rejects an empty or absent source and a full buffer;
        otherwise stores min(sz, spare) bytes after the existing ones, in at
        most two pieces split at the end of the memory. */
    method Write(src: array?<Byte>, sz: nat) returns (r: int)
      requires Valid()
      requires src != null ==> sz <= src.Length && src != data
      modifies this, data
      ensures Valid() && szBuf == old(szBuf) && posRead == old(posRead)
      ensures r == -1 <==> sz < 1 || src == null || old(Spare()) == 0
      ensures r == -1 ==> posWrite == old(posWrite) && data[..] == old(data[..])
      ensures r != -1 ==> 1 <= r == Min(sz, old(Spare())) && src != null
      ensures r != -1 ==> Size() == old(Size()) + r
      ensures r != -1 ==> Contents() == old(Contents()) + old(src[..r])
      ensures r != -1 ==> posWrite == (old(posWrite) + r) % szBuf
      ensures r != -1 ==> WrittenAround(old(data[..]), data[..], old(posWrite), szBuf, old(src[..r]))
    {
      if sz < 1 || src == null {
        return -1;
      }
      var spare := Spare();
      if spare < 1 {
        return -1;
      }
      var n := sz;
      if n > spare {
        n := spare;
      }
      Store(src[..n]);
      r := n;
    }

    /** The copying half of rbuf_write: `bytes` go to the slots from the
        write position on, up to the end of the memory and then from slot 0,
        and become the newest stored bytes. */
    method Store(bytes: seq<Byte>)
      requires Valid() && 1 <= |bytes| <= Spare()
      modifies this, data
      ensures Valid() && szBuf == old(szBuf) && posRead == old(posRead)
      ensures Size() == old(Size()) + |bytes|
      ensures Contents() == old(Contents()) + bytes
      ensures posWrite == (old(posWrite) + |bytes|) % szBuf
      ensures WrittenAround(old(data[..]), data[..], old(posWrite), szBuf, bytes)
    {
      ghost var before := data[..];
      ghost var pw := posWrite;
      ghost var w0 := Contents();
      assert w0 == Stored(before, posRead, pw, szBuf);
      CopyAround(bytes);
      WriteResult(before, data[..], posRead, pw, szBuf, old(Size()), bytes);
    }

    /** The two memmove calls of rbuf_write and the write position update
        after each. */
    method CopyAround(bytes: seq<Byte>)
      requires Valid() && 1 <= |bytes| <= Spare()
      modifies this, data
      ensures Valid() && szBuf == old(szBuf) && posRead == old(posRead)
      ensures posWrite == (old(posWrite) + |bytes|) % szBuf
      ensures WrittenAround(old(data[..]), data[..], old(posWrite), szBuf, bytes)
    {
      var n := |bytes|;
      ghost var before := data[..];
      ghost var pw := posWrite;
      // the first part, up to the end of the memory
      var first := szBuf - posWrite;
      if first > n {
        first := n;
      }
      WritePositions(pw, szBuf, first, n);
      MemMove(data, posWrite, bytes[..first]);
      posWrite := (posWrite + first) % szBuf;
      ghost var mid := data[..];
      // the second part, from slot 0
      if first < n {
        MemMove(data, posWrite, bytes[first..]);
        posWrite := (posWrite + (n - first)) % szBuf;
      }
      TwoPieceWrite(before, mid, data[..], pw, szBuf, first, bytes);
    }

    /** rbuf_peek_cb: after its bounds checks, clamps the request to the
        stored bytes at `offset` and offers them to the consumer in the two
        pieces of PeekSegments; the header and the memory never change. */
    method PeekCb(offset: nat, sz: nat, cb: Callback) returns (r: int)
      requires Valid()
      requires cb.CopyToTarget? ==> cb.rec.Valid() && cb.rec.szRet == 0 && cb.rec.target != data
      requires cb.CopyToTarget? && cb.rec.target == null ==> sz < 1 || Size() <= offset
      modifies cb.Footprint()
      ensures unchanged(this) && unchanged(data)
      ensures Rejected(offset, sz, cb) ==> r == -1 && unchanged(cb.Footprint())
      ensures cb.Consumer? && !Rejected(offset, sz, cb) ==>
                var n := Clamp(offset, sz);
                var segs := PeekSegments(data[..], posRead, szBuf, offset, n);
                r == ConsumerOutcome(cb.accept, n, segs.0, segs.1)
      ensures cb.CopyToTarget? && !Rejected(offset, sz, cb) ==>
                var n := Clamp(offset, sz);
                var target := cb.rec.target;
                target != null
                && (n <= cb.rec.szBuf ==>
                      r == n && cb.rec.szRet == n
                      && target[..n] == Contents()[offset .. offset + n]
                      && forall j :: n <= j < target.Length ==> target[j] == old(target[j]))
                && (n > cb.rec.szBuf ==>
                      r == 0 && 0 < cb.rec.szMore
                      && forall j :: cb.rec.szBuf <= j < target.Length ==> target[j] == old(target[j]))
    {
      if sz < 1 || cb.NoCallback? {
        return -1;
      }
      var size := Size();
      if size < 1 {
        return -1;
      }
      if offset >= size {
        return -1;
      }
      var n := sz;
      if n + offset > size {
        n := size - offset;
      }
      assert n == Clamp(offset, sz);
      var segs := PeekSegments(data[..], posRead, szBuf, offset, n);
      PeekSegmentsCover(data[..], posRead, szBuf, size, offset, n);
      assert Contents() == Window(data[..], posRead + 1, szBuf, size);
      r := OfferSegments(n, segs.0, segs.1, cb);
    }

    /** The four cases in which rbuf_peek_cb returns -1 before touching the
        consumer. */
    ghost predicate Rejected(offset: nat, sz: nat, cb: Callback)
      reads this
      requires Valid()
    {
      sz < 1 || cb.NoCallback? || Size() == 0 || offset >= Size()
    }

    /** The request clamped to the stored bytes at `offset`. */
    function Clamp(offset: nat, sz: nat): (n: nat)
      reads this
      requires Valid() && offset < Size()
      ensures n == Min(sz, Size() - offset) && offset + n < szBuf
    {
      if sz + offset > Size() then Size() - offset else sz
    }

    /** rbuf_peek: rbuf_peek_cb with cb_write_peek into `buf` of `sz` bytes,
        so the consumer never runs short of room. */
    method Peek(offset: nat, buf: array?<Byte>, sz: nat) returns (r: int)
      requires Valid()
      requires buf != null ==> sz <= buf.Length && buf != data
      requires buf == null ==> sz < 1 || Size() <= offset
      modifies buf
      ensures r == -1 <==> sz < 1 || Size() == 0 || offset >= Size()
      ensures r != -1 ==> 1 <= r == Min(sz, Size() - offset) && buf != null
      ensures r != -1 ==> buf[..r] == Contents()[offset .. offset + r]
                          && buf[r..] == old(buf[r..])
      ensures r == -1 && buf != null ==> buf[..] == old(buf[..])
    {
      var rec := new PeekRecord(buf, sz);
      r := PeekCb(offset, sz, CopyToTarget(rec));
      if r != -1 {
        assert buf[r..] == old(buf[r..]);
      }
    }

    /** rbuf_read: a peek at offset 0 followed by forwarding exactly what was
        peeked, so bytes come out in the order they were written. */
    method Read(buf: array?<Byte>, sz: nat) returns (r: int)
      requires Valid()
      requires buf != null ==> sz <= buf.Length && buf != data
      requires buf == null ==> sz < 1 || Size() == 0
      modifies this, buf
      ensures Valid() && szBuf == old(szBuf) && posWrite == old(posWrite) && data[..] == old(data[..])
      ensures r == -1 <==> sz < 1 || old(Size()) == 0
      ensures r == -1 ==> posRead == old(posRead)
      ensures r == -1 && buf != null ==> buf[..] == old(buf[..])
      ensures r != -1 ==> 1 <= r == Min(sz, old(Size())) && buf != null
      ensures r != -1 ==> buf[..r] == old(Contents())[..r] && buf[r..] == old(buf[r..])
      ensures r != -1 ==> Contents() == old(Contents())[r..]
    {
      r := Peek(0, buf, sz);
      if r > 0 {
        var _ := Forward(r);
      }
    }

    /** rbuf_forward: discards min(sz, size) bytes by moving the read
        position; an empty buffer gives 0. */
    method Forward(sz: nat) returns (r: nat)
      requires Valid()
      modifies this
      ensures Valid() && szBuf == old(szBuf) && posWrite == old(posWrite)
      ensures r == if old(Size()) == 0 then 0 else Min(sz, old(Size()))
      ensures posRead == (old(posRead) + r) % szBuf
      ensures Size() == old(Size()) - r
      ensures Contents() == old(Contents())[r..]
    {
      var size := Size();
      if size < 1 {
        Mod2(posRead, szBuf);
        return 0;
      }
      r := sz;
      if r > size {
        r := size;
      }
      // the new header and contents, worked out on a snapshot
      ghost var mem := data[..];
      ghost var pr := posRead;
      var np := (posRead + r) % szBuf;
      Mod2(pr + r, szBuf);
      ForwardDrops(mem, pr, posWrite, szBuf, r);
      if r > 0 {
        posRead := np;
      }
      assert posRead == np && data[..] == mem;
    }
  }

  /** The size rbuf_reset passes to rbuf_init loses sizeof(pointer) slots
      each time: with 8-byte size_t and pointers a 73-slot buffer comes back
      with 65 slots. */
  lemma ResetShrinks(slots: nat, wordSize: nat, ptrSize: nat)
    requires ptrSize < slots
    ensures InitSlots(RingMacros.ResetByteSize(slots, wordSize),
                      RingMacros.HeaderBytes(wordSize, ptrSize)) == slots - ptrSize
    ensures InitSlots(RingMacros.ResetByteSize(73, 8), RingMacros.HeaderBytes(8, 8)) == 65
  {
  }

  /** Re-initialising with the slot count plus the whole header gives the
      slot count back. */
  lemma ResetCorrectedKeepsSlots(slots: nat, header: nat)
    requires 0 < slots
    ensures InitSlots(slots + header, header) == slots
  {
  }
}
