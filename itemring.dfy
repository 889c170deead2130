/** The item ring buffer (RBUF_* macros and macro_rbuf_*): the same FIFO
    discipline as the byte ring, over MAX_ITEMS slots of ITEM_SIZE bytes
    each, behind a header of four ints. */
module ItemRing {
  import opened Common
  import RingMacros
  import opened Circular

  /** The ITEM_SIZE bytes of one slot. */
  type Item = seq<Byte>

  /** A region laid out by RBUF_INIT: the four header ints and the slots. */
  class ItemBuffer {
    const intSize: nat          // sizeof(int)
    const slots: array<Item>    // the slots from RBUF_ITEM_ADDR(prb, 0) on
    var posRd: nat              // RBUF_POS_RD
    var posWr: nat              // RBUF_POS_WR
    var itemSize: nat           // RBUF_ITEM_SIZE
    var maxItems: nat           // RBUF_MAX_ITEMS, sentinel included

    /** The header after an RBUF_INIT that found room for at least one
        slot; with exactly one, RD == 0, WR == MAX_ITEMS == 1 and nothing
        fits. */
    ghost predicate Valid()
      reads this
    {
      0 < itemSize && 0 < maxItems <= slots.Length && posRd < maxItems
      && (posWr < maxItems || posWr == maxItems == 1)
    }

    /** RBUF_MAX */
    function Max(): int
      reads this
    {
      RingMacros.Max(maxItems)
    }

    /** RBUF_SIZE */
    function Size(): nat
      reads this
      requires Valid()
    {
      RingMacros.Size(posRd, posWr, maxItems)
    }

    /** RBUF_SPARE */
    function Spare(): nat
      reads this
      requires Valid()
    {
      RingMacros.Spare(posRd, posWr, maxItems)
    }

    /** The stored items, oldest first. */
    ghost function Contents(): seq<Item>
      reads this, slots
      requires Valid()
    {
      Stored(slots[..], posRd, posWr, maxItems)
    }

    /** Every stored item is ITEM_SIZE bytes long, which is all memmove
        moves per slot. */
    ghost predicate Sized()
      reads this, slots
      requires Valid()
    {
      forall k :: 0 <= k < |Contents()| ==> |Contents()[k]| == itemSize
    }

    /** `items` all have ITEM_SIZE bytes. */
    ghost predicate ItemsOfSize(items: seq<Item>)
      reads this
    {
      forall k :: 0 <= k < |items| ==> |items[k]| == itemSize
    }

    /** The caller's region with room for `capacity` slots behind the
        header, not yet initialised. */
    constructor(intSize: nat, capacity: nat)
      ensures this.intSize == intSize
      ensures fresh(slots) && slots.Length == capacity
      ensures posRd == 0 && posWr == 0 && itemSize == 0 && maxItems == 0
    {
      this.intSize := intSize;
      slots := new Item[capacity];
      posRd, posWr, itemSize, maxItems := 0, 0, 0, 0;
    }

    /** RBUF_INIT: an empty buffer whose slot count RBUF_CALC_DATA_NUM
        derives from the region size. It checks nothing: a region without
        room for one slot behind the header leaves MAX_ITEMS == 0, which
        the other macros divide by. */
    method Init(byteSize: nat, itemSize: nat)
      requires 0 < itemSize && RingMacros.ItemHeaderBytes(intSize) <= byteSize
      requires RingMacros.CalcDataNum(intSize, byteSize, itemSize) <= slots.Length
      modifies this
      ensures posRd == 0 && posWr == 1 && this.itemSize == itemSize
      ensures maxItems == RingMacros.CalcDataNum(intSize, byteSize, itemSize)
      ensures RingMacros.ItemOccupiedBytes(intSize, maxItems, itemSize) <= byteSize
      ensures Valid() <==> 0 < maxItems
      ensures Valid() ==> Size() == 0 && Contents() == [] && Sized()
    {
      posRd := 0;
      posWr := 1;
      this.itemSize := itemSize;
      maxItems := RingMacros.CalcDataNum(intSize, byteSize, itemSize);
    }

    /** RBUF_RESET: RBUF_INIT over RBUF_OCCUPIED_BYTES of the current slot
        count, which empties the buffer and keeps its capacity. */
    method Reset()
      requires Valid()
      modifies this
      ensures Valid() && posRd == 0 && posWr == 1
      ensures itemSize == old(itemSize) && maxItems == old(maxItems)
      ensures Size() == 0 && Contents() == [] && Sized()
    {
      RingMacros.CalcDataNumOfOccupied(intSize, maxItems, itemSize);
      Init(RingMacros.ItemOccupiedBytes(intSize, maxItems, itemSize), itemSize);
    }

    /** macro_rbuf_write: rejects an empty or absent source and a full
        buffer; otherwise stores min(numItems, spare) items after the
        existing ones, in at most two pieces split at the last slot. */
    method Write(buf: array?<Item>, numItems: nat) returns (r: int)
      requires Valid()
      requires Sized()
      requires buf != null ==> numItems <= buf.Length && buf != slots && ItemsOfSize(buf[..numItems])
      modifies this, slots
      ensures Valid() && maxItems == old(maxItems) && itemSize == old(itemSize) && posRd == old(posRd)
      ensures r == -1 <==> numItems < 1 || buf == null || old(Spare()) == 0
      ensures r == -1 ==> posWr == old(posWr) && slots[..] == old(slots[..])
      ensures r != -1 ==> 1 <= r == Min(numItems, old(Spare())) && buf != null
      ensures r != -1 ==> Size() == old(Size()) + r
      ensures r != -1 ==> Contents() == old(Contents()) + old(buf[..r])
      ensures r != -1 ==> posWr == (old(posWr) + r) % maxItems
      ensures r != -1 ==> WrittenAround(old(slots[..]), slots[..], old(posWr), maxItems, old(buf[..r]))
      ensures Sized()
    {
      if numItems < 1 || buf == null {
        return -1;
      }
      var spare := Spare();
      if spare < 1 {
        return -1;
      }
      var n := numItems;
      if n > spare {
        n := spare;
      }
      assert buf[..n] == buf[..numItems][..n];
      Store(buf[..n]);
      r := n;
    }

    /** The copying half of macro_rbuf_write: `items` become the newest
        stored items. */
    method Store(items: seq<Item>)
      requires Valid() && 1 <= |items| <= Spare()
      requires Sized() && ItemsOfSize(items)
      modifies this, slots
      ensures Valid() && maxItems == old(maxItems) && itemSize == old(itemSize) && posRd == old(posRd)
      ensures Sized()
      ensures Size() == old(Size()) + |items|
      ensures Contents() == old(Contents()) + items
      ensures posWr == (old(posWr) + |items|) % maxItems
      ensures WrittenAround(old(slots[..]), slots[..], old(posWr), maxItems, items)
    {
      ghost var before := slots[..];
      ghost var pw := posWr;
      ghost var w0 := Contents();
      assert w0 == Stored(before, posRd, pw, maxItems);
      CopyAround(items);
      WriteResult(before, slots[..], posRd, pw, maxItems, old(Size()), items);
    }

    /** The two memmove calls of macro_rbuf_write and the write position
        update after each. */
    method CopyAround(items: seq<Item>)
      requires Valid() && 1 <= |items| <= Spare() && ItemsOfSize(items)
      modifies this, slots
      ensures Valid() && maxItems == old(maxItems) && itemSize == old(itemSize) && posRd == old(posRd)
      ensures posWr == (old(posWr) + |items|) % maxItems
      ensures WrittenAround(old(slots[..]), slots[..], old(posWr), maxItems, items)
    {
      var n := |items|;
      ghost var before := slots[..];
      ghost var pw := posWr;
      // the first part, up to the last slot
      var first := maxItems - posWr;
      if first > n {
        first := n;
      }
      WritePositions(pw, maxItems, first, n);
      MemMove(slots, posWr, items[..first]);
      posWr := (posWr + first) % maxItems;
      ghost var mid := slots[..];
      // the second part, from slot 0
      if first < n {
        MemMove(slots, posWr, items[first..]);
        posWr := (posWr + (n - first)) % maxItems;
      }
      TwoPieceWrite(before, mid, slots[..], pw, maxItems, first, items);
    }

    /** macro_rbuf_peek: rejects an empty request, an absent target, an
        empty buffer and an offset past the stored items; otherwise copies
        min(numItems, size - offset) items from `offset` on into `buf`, in
        the two pieces of PeekSegments, and changes nothing in the ring. */
    method Peek(offset: nat, buf: array?<Item>, numItems: nat) returns (r: int)
      requires Valid()
      requires Sized()
      requires buf != null ==> numItems <= buf.Length && buf != slots
      modifies buf
      ensures r == -1 <==> numItems < 1 || buf == null || Size() == 0 || offset >= Size()
      ensures r != -1 ==> 1 <= r == Min(numItems, Size() - offset) && buf != null
      ensures r != -1 ==> buf[..r] == Contents()[offset .. offset + r]
                          && buf[r..] == old(buf[r..])
      ensures r == -1 && buf != null ==> buf[..] == old(buf[..])
      ensures r != -1 ==> ItemsOfSize(buf[..r])
    {
      if numItems < 1 || buf == null {
        return -1;
      }
      var size := Size();
      if size < 1 {
        return -1;
      }
      if offset >= size {
        return -1;
      }
      var n := numItems;
      if n + offset > size {
        n := size - offset;
      }
      ghost var c := Contents();
      var segs := PeekSegments(slots[..], posRd, maxItems, offset, n);
      PeekSegmentsCover(slots[..], posRd, maxItems, size, offset, n);
      assert c == Window(slots[..], posRd + 1, maxItems, size);
      assert segs.0 + segs.1 == c[offset .. offset + n];
      CopyOut(buf, segs.0, segs.1);
      assert Contents() == c;
      r := n;
    }

    /** macro_rbuf_read: a peek at offset 0 followed by forwarding exactly
        what was peeked. */
    method Read(buf: array?<Item>, numItems: nat) returns (r: int)
      requires Valid()
      requires Sized()
      requires buf != null ==> numItems <= buf.Length && buf != slots
      modifies this, buf
      ensures Valid() && Sized() && maxItems == old(maxItems) && itemSize == old(itemSize)
      ensures posWr == old(posWr) && slots[..] == old(slots[..])
      ensures r == -1 <==> numItems < 1 || buf == null || old(Size()) == 0
      ensures r == -1 ==> posRd == old(posRd)
      ensures r == -1 && buf != null ==> buf[..] == old(buf[..])
      ensures r != -1 ==> 1 <= r == Min(numItems, old(Size())) && buf != null
      ensures r != -1 ==> buf[..r] == old(Contents())[..r] && buf[r..] == old(buf[r..])
      ensures r != -1 ==> ItemsOfSize(buf[..r])
      ensures r != -1 ==> Contents() == old(Contents())[r..]
    {
      r := Peek(0, buf, numItems);
      if r > 0 {
        var _ := Forward(r);
      }
    }

    /** macro_rbuf_forward: discards min(numItems, size) items by moving the
        read position; an empty buffer gives 0. */
    method Forward(numItems: nat) returns (r: nat)
      requires Valid() && Sized()
      modifies this
      ensures Valid() && Sized() && maxItems == old(maxItems) && itemSize == old(itemSize) && posWr == old(posWr)
      ensures r == if old(Size()) == 0 then 0 else Min(numItems, old(Size()))
      ensures posRd == (old(posRd) + r) % maxItems
      ensures Size() == old(Size()) - r
      ensures Contents() == old(Contents())[r..]
    {
      var size := Size();
      if size < 1 {
        Mod2(posRd, maxItems);
        return 0;
      }
      r := numItems;
      if r > size {
        r := size;
      }
      // the new header and contents, worked out on a snapshot
      ghost var mem := slots[..];
      ghost var pr := posRd;
      ghost var c0 := Contents();
      var np := (posRd + r) % maxItems;
      Mod2(pr + r, maxItems);
      ForwardDrops(mem, pr, posWr, maxItems, r);
      if r > 0 {
        posRd := np;
      }
      assert posRd == np && slots[..] == mem;
      assert Contents() == c0[r..];
    }
  }
}
