/** The occupancy and layout macros of the ring buffer header: pure
    expressions over the header fields, shared by the byte API (rbuf_*) and
    the item API (RBUF_*). */
module RingMacros {
  import opened Common

  // ---------------------------------------------------------------------
  // Byte API: a ring_buffer_t header { pos_read, pos_write, sz_buf, buf1 }
  // followed by sz_buf data slots.

  /** sizeof(ring_buffer_t): the three size_t fields pos_read, pos_write and
      sz_buf, then the pointer buf1, with no padding between them. */
  function HeaderBytes(wordSize: nat, ptrSize: nat): nat
  {
    3 * wordSize + ptrSize
  }

  /** rbuf_max / RBUF_MAX: one slot is the sentinel between writer and reader. */
  function Max(slots: nat): (m: int)
    ensures 0 < slots ==> 0 <= m < slots
  {
    slots - 1
  }

  /** rbuf_size / RBUF_SIZE: the number of stored units. */
  function Size(posRead: nat, posWrite: nat, slots: nat): (r: nat)
    requires 0 < slots && posRead < slots
    ensures r <= Max(slots)
  {
    (posWrite + slots - posRead - 1) % slots
  }

  /** rbuf_spare / RBUF_SPARE: the free units; never negative. */
  function Spare(posRead: nat, posWrite: nat, slots: nat): (r: nat)
    requires 0 < slots && posRead < slots
    ensures Size(posRead, posWrite, slots) + r == Max(slots)
  {
    Max(slots) - Size(posRead, posWrite, slots)
  }

  /** rbuf_occupied_bytes: the region size that holds `dataSize` units. It
      is larger than the header, and the slots behind the header give a
      capacity of exactly `dataSize`. */
  function OccupiedBytes(header: nat, dataSize: nat): (b: nat)
    ensures header < b && Max(b - header) == dataSize
  {
    header + 1 + dataSize
  }

  /** The region size rbuf_reset hands back to rbuf_init: the slot count
      plus a header that lacks its pointer. */
  function ResetByteSize(slots: nat, wordSize: nat): nat
  {
    slots + 3 * wordSize
  }

  /** A write position `k + 1` slots past the read position means `k` stored
      units: the reader's slot is the sentinel. */
  lemma SizeAfterAdvance(posRead: nat, k: nat, slots: nat)
    requires posRead < slots && k < slots
    ensures Size(posRead, (posRead + 1 + k) % slots, slots) == k
  {
    var w := (posRead + 1 + k) % slots;
    Mod2(posRead + 1 + k, slots);
    Mod2(w + slots - posRead - 1, slots);
  }

  /** Conversely the write position is always the slot just past the stored
      units, so it never needs to be stored separately from the size. */
  lemma WriteSlot(posRead: nat, posWrite: nat, slots: nat)
    requires posRead < slots && posWrite < slots
    ensures posWrite == (posRead + 1 + Size(posRead, posWrite, slots)) % slots
  {
    var s := Size(posRead, posWrite, slots);
    Mod2(posWrite + slots - posRead - 1, slots);
    Mod2(posRead + 1 + s, slots);
  }

  // ---------------------------------------------------------------------
  // Item API: four int fields RD, WR, ITEM_SIZE, MAX_ITEMS at fixed offsets,
  // followed by MAX_ITEMS slots of ITEM_SIZE bytes each.

  /** The item header: the four ints RBUF_POS_RD, RBUF_POS_WR,
      RBUF_ITEM_SIZE and RBUF_MAX_ITEMS at int offsets 0 to 3. */
  function ItemHeaderBytes(intSize: nat): nat
  {
    4 * intSize
  }

  /** RBUF_ITEM_ADDR: the byte offset of slot x from the start of the region. */
  function ItemAddr(intSize: nat, itemSize: nat, x: nat): nat
  {
    ItemHeaderBytes(intSize) + itemSize * x
  }

  /** Slots lie ITEM_SIZE bytes apart, so a slot ends no later than any
      later slot begins and no two slots overlap. */
  lemma ItemSlotsDisjoint(intSize: nat, itemSize: nat, x: nat, y: nat)
    requires x < y
    ensures ItemAddr(intSize, itemSize, x + 1) == ItemAddr(intSize, itemSize, x) + itemSize
    ensures ItemAddr(intSize, itemSize, x) + itemSize <= ItemAddr(intSize, itemSize, y)
  {
    MulMonotone(itemSize, x + 1, y);
    assert itemSize * (x + 1) == itemSize * x + itemSize;
  }

  /** RBUF_OCCUPIED_BYTES: header plus `items` slots (the sentinel included). */
  function ItemOccupiedBytes(intSize: nat, items: nat, itemSize: nat): (b: nat)
    ensures ItemHeaderBytes(intSize) <= b
    ensures 0 < itemSize ==> (b - ItemHeaderBytes(intSize)) % itemSize == 0
  {
    MulMod(itemSize, items);
    ItemHeaderBytes(intSize) + itemSize * items
  }

  /** RBUF_CALC_DATA_NUM: the largest slot count whose layout fits in
      `byteSize` bytes. */
  function CalcDataNum(intSize: nat, byteSize: nat, itemSize: nat): (r: nat)
    requires 0 < itemSize && ItemHeaderBytes(intSize) <= byteSize
    ensures ItemOccupiedBytes(intSize, r, itemSize) <= byteSize
    ensures byteSize < ItemOccupiedBytes(intSize, r + 1, itemSize)
  {
    var d := byteSize - ItemHeaderBytes(intSize);
    assert (d / itemSize) * itemSize + d % itemSize == d;
    assert itemSize * (d / itemSize + 1) == itemSize * (d / itemSize) + itemSize;
    d / itemSize
  }

  /** Every slot below MAX_ITEMS lies inside the region RBUF_OCCUPIED_BYTES
      describes. */
  lemma ItemInsideRegion(intSize: nat, itemSize: nat, items: nat, x: nat)
    requires x < items
    ensures ItemAddr(intSize, itemSize, x) + itemSize
            <= ItemOccupiedBytes(intSize, items, itemSize)
  {
    MulMonotone(itemSize, x + 1, items);
    assert itemSize * (x + 1) == itemSize * x + itemSize;
  }

  /** RBUF_RESET rebuilds the exact size from MAX_ITEMS, so re-deriving the
      slot count gives MAX_ITEMS back. */
  lemma CalcDataNumOfOccupied(intSize: nat, items: nat, itemSize: nat)
    requires 0 < itemSize
    ensures CalcDataNum(intSize, ItemOccupiedBytes(intSize, items, itemSize), itemSize) == items
  {
    var r := CalcDataNum(intSize, ItemOccupiedBytes(intSize, items, itemSize), itemSize);
    MulCancel(itemSize, r, items);
    MulStrict(itemSize, items, r + 1);
  }

  /** A multiple of `a` leaves no remainder. */
  lemma MulMod(a: nat, n: nat)
    ensures 0 < a ==> (a * n) % a == 0
  {
    if a == 0 {
      return;
    }
    var q := (a * n) / a;
    var r := (a * n) % a;
    assert a * n == q * a + r;
    assert r == a * (n - q);
    if n - q >= 1 {
      assert a * (n - q) == a + a * (n - q - 1);
    } else if n - q < 0 {
      assert a * (n - q) == -(a * (q - n));
    }
  }

  lemma MulMonotone(a: nat, x: nat, y: nat)
    requires x <= y
    ensures a * x <= a * y
  {
    assert a * y == a * x + a * (y - x);
  }

  lemma MulStrict(a: nat, x: nat, y: nat)
    requires 0 < a && a * x < a * y
    ensures x < y
  {
    if x >= y {
      MulMonotone(a, y, x);
    }
  }

  lemma MulCancel(a: nat, x: nat, y: nat)
    requires 0 < a && a * x <= a * y
    ensures x <= y
  {
    if x > y {
      MulMonotone(a, y + 1, x);
    }
  }
}
