# cpp-osporting core in Dafny

A model of the portable C helpers of cpp-osporting, with proofs about them:

- **The byte ring buffer** (`rbuf_*`, src/ringbuffer.c and src/ringbuffer.h).
  It is a bounded FIFO inside a caller-supplied memory region. A
  `ring_buffer_t` header holds `pos_read`, `pos_write` and `sz_buf`, and the
  data slots follow it. One slot is the sentinel between reader and writer.
  - `rbuf_write` stores `min(sz, spare)` bytes in at most two pieces around
    the end of the memory.
  - `rbuf_peek_cb` hands the stored bytes at an offset to a consumer, again
    in at most two pieces. `rbuf_peek` uses the built-in consumer
    `cb_write_peek`, which copies into the caller's buffer.
  - `rbuf_read` is a peek followed by `rbuf_forward`.
- **The item ring buffer** (`RBUF_*` macros and `macro_rbuf_*`). It is the
  same discipline over `MAX_ITEMS` slots of `ITEM_SIZE` bytes, behind a
  header of four `int`s.
- **Unicode transcoding** (src/getutf8.c):
  - `to_utf8` and `to_utf16` encode a code point. UTF-8 follows section 3 of
    RFC 3629. UTF-16 uses the surrogate pairs of section 2.1 of RFC 2781.
  - `get_val_utf8_uni` and `get_utf8_value` decode UTF-8 and also accept
    the legacy 5- and 6-byte forms. On a byte that starts no form (a stray
    continuation byte, 0xFE or 0xFF), `get_val_utf8_uni` returns 0, and
    `get_utf8_value` gives 0 and skips the whole run of such bytes.
  - `get_val_utf16_uni` and `get_utf16_value` decode UTF-16.
- **String helpers** (src/ugstring.c): `my_strlen_P`, the overlap-safe
  `my_memmove_P`, the bounded three-way compare `my_strncmp_via_callback`
  with its readers `read_byte_ram`/`read_byte_rom`, and `program_to_ram`,
  which has two rotating static buffers.

Modules, one per source concept:

| file | module | models |
|---|---|---|
| common.dfy | `Common` | `uint8_t`, an option type, `min`, modular facts |
| ringbuffer_h.dfy | `RingMacros` | the occupancy and layout macros of ringbuffer.h |
| circular.dfy | `Circular` | the circular window both buffers store in, and the two-piece copies |
| ringbuffer.dfy | `RingBuffer` | class `Ring` (the `rbuf_*` functions), class `PeekRecord` (`cb_write_peek`) and the callback dispatch |
| itemring.dfy | `ItemRing` | class `ItemBuffer` (`RBUF_INIT`, `RBUF_RESET`, `macro_rbuf_*`) |
| getutf8.dfy | `Unicode` | encoders, decoders and round-trip lemmas |
| ugstring.dfy | `UgString` | the string helpers and the reference compare |

How the model represents the system:

- **Ring buffers.** Each buffer is a class. Its header fields are mutable
  fields, and the caller's memory after the header is a `const` array. Every
  operation is a method with `modifies`, and its `ensures` ties the new state
  to the old one through the ghost `Contents()`, the stored units in order.
  Header widths (`sizeof(size_t)`, `sizeof(void *)`, `sizeof(int)`) are
  parameters. `HeaderBytes` is `sizeof(ring_buffer_t)`: three `size_t`
  fields and a pointer, without padding. `ItemHeaderBytes` is the item
  header: four `int`s. `ResetByteSize` is the region size that `rbuf_reset`
  passes to `rbuf_init` (src/ringbuffer.h:81): the slot count plus three
  `size_t`s. All three are plain definitions. `ResetShrinks` states what
  that size does to the slot count. An item is a `seq<Byte>`. The ghost
  predicate `Sized()` says every stored item has exactly `ITEM_SIZE` bytes,
  and the item methods keep it.
- **Peek callbacks.** The callback of `rbuf_peek_cb` is a closed choice:
  - NULL;
  - `cb_write_peek` with its record;
  - an arbitrary consumer, seen only through the value it returns for each
    segment.
- **UTF-8 and UTF-16 decoding.** The decoders read a `seq` of bytes or of
  16-bit units at an index. A pointer result becomes an index, and NULL
  becomes `None`.
- **String memory.** Memory is a sequence (ROM, read-only) or an array (RAM,
  written) of signed chars. `pgm_read_byte` is an ordinary read.
  `read_byte_ram`/`read_byte_rom` become the choice of the address space
  that the plain definition `ReadByte` indexes: RAM for `read_byte_ram`,
  ROM for `read_byte_rom`.
- **Integers.** `size_t` and `int` quantities are unbounded naturals. Code
  points are `bv32`, UTF-16 units `bv16` and bytes `bv8`, so the C shifts,
  masks and truncating stores are the bit-vector operations.

Where the code and its description disagree, the model follows the code:

- **Region of header plus one byte.** `rbuf_init` on such a region succeeds,
  with `sz_buf == 1`, capacity 0 and `pos_write == sz_buf`. `Valid()` admits
  exactly this state.
- **Oversized code points.** `to_utf8` has no upper bound on the code point.
  It encodes U+110000 and beyond as a 4-byte form, and its tests expect 4
  for 0x110000. From 0x200000 on, the lead byte loses the top bits.
- **`get_utf8_value` skip loops.** They stop only at a byte that does not
  continue the run. A run that reaches the end of the input needs a
  terminator after it, such as the NUL of a C string.

## Model

| member | source | states |
|---|---|---|
| RingMacros.Size | src/ringbuffer.h:57 | the stored count never exceeds `rbuf_max`, the slot count minus the sentinel |
| RingMacros.Spare | src/ringbuffer.h:61 | size plus spare is exactly `rbuf_max`, so spare is never negative |
| RingMacros.SizeAfterAdvance | src/ringbuffer.h:57 | a write position k+1 slots past the read position means exactly k stored units |
| RingMacros.WriteSlot | src/ringbuffer.h:57 | the write position is always the slot just past the stored units |
| RingMacros.Max | src/ringbuffer.h:49 | `rbuf_max`: a buffer with at least one slot has a capacity that is never negative and always below its slot count |
| RingMacros.OccupiedBytes | src/ringbuffer.h:32 | a region of `rbuf_occupied_bytes(n)` bytes is larger than the header and gives a buffer of capacity exactly n |
| RingMacros.ItemSlotsDisjoint | src/ringbuffer.h:96 | `RBUF_ITEM_ADDR` places consecutive slots `ITEM_SIZE` bytes apart, and a slot ends no later than any later slot begins, so slots never overlap |
| RingMacros.ItemOccupiedBytes | src/ringbuffer.h:100 | `RBUF_OCCUPIED_BYTES` covers the header and a slot area that is a whole number of items |
| RingMacros.CalcDataNum | src/ringbuffer.h:104 | `RBUF_CALC_DATA_NUM` is the largest slot count whose layout fits in the region |
| RingMacros.ItemInsideRegion | src/ringbuffer.h:96-100 | every slot address below `MAX_ITEMS` lies inside `RBUF_OCCUPIED_BYTES` |
| RingMacros.CalcDataNumOfOccupied | src/ringbuffer.h:185 | recomputing the slot count from `RBUF_OCCUPIED_BYTES(MAX_ITEMS)` gives `MAX_ITEMS` back |
| Circular.PeekSegments | src/ringbuffer.c:153-186 | the two peek segments together are exactly n units long |
| Circular.PeekSegmentsCover | src/ringbuffer.c:161-186 | the first segment (up to the last slot) followed by the second (from slot 0) is exactly the stored units offset..offset+n, also when the first is empty |
| Circular.WriteAppends | src/ringbuffer.c:95-111 | writing at the write slot and leaving every other slot alone appends to the stored units |
| Circular.Splice | src/ringbuffer.c:101 | the memory after a memmove holds the source over the target range and is unchanged elsewhere |
| Circular.TwoPieceWrite | src/ringbuffer.c:95-111 | the two memmove calls, the second from slot 0, write the bytes round the memory from the write position and touch nothing else |
| Circular.WriteResult | src/ringbuffer.c:95-113 | after the copy, the size grows by the count written and the contents are the old contents followed by the new bytes |
| Circular.ForwardDrops | src/ringbuffer.c:285-290 | advancing the read position by r drops exactly the first r stored units |
| Circular.AdvanceSize | src/ringbuffer.h:57 | advancing the read (write) position by k lowers (raises) the size by k |
| Circular.MemMove | src/ringbuffer.c:101 | memmove of a block into an array is a Splice of the old contents |
| Circular.CopyOut | src/ringbuffer.c:398-411 | the two memmove calls of a peek place both segments at the start of the target and leave the rest alone |
| RingBuffer.InitSlots | src/ringbuffer.c:50-56 | the size check fails exactly when the region cannot hold the header and one byte, otherwise the slot count is the rest |
| RingBuffer.PeekRecord.constructor | src/ringbuffer.c:246-249 | the zeroed record with target and size set |
| RingBuffer.PeekRecord.WriteSegment | src/ringbuffer.c:215-233 | a segment that does not fit records the missing room and accepts nothing; one that fits is copied to its offset, `sz_ret` moves past it and nothing else in the target changes |
| RingBuffer.ConsumerOutcome | src/ringbuffer.c:170-195 | a consumer's answers give -1, 0 or the full count; -1 exactly when an offered segment is answered negatively; for a non-empty request, the full count exactly when every offered segment was taken whole |
| RingBuffer.OfferSegments | src/ringbuffer.c:170-195 | a negative answer gives -1 and a partial one 0; the second segment is offered only after the first was taken whole; with `cb_write_peek` into enough room the target receives both segments in order |
| RingBuffer.Ring.constructor | src/ringbuffer.h:24-30 | a fresh region of the given size behind the header |
| RingBuffer.Ring.Init | src/ringbuffer.c:47-59 | -1 exactly when the region is no larger than the header, with the header untouched; otherwise an empty buffer with read 0, write 1 and every remaining byte a slot |
| RingBuffer.Ring.Reset | src/ringbuffer.h:81 | as written: the buffer is emptied with read 0 and write 1, but loses `sizeof(pointer)` slots, and fails when that leaves none |
| RingBuffer.Ring.ResetCorrected | src/ringbuffer.h:81 | as intended: the buffer is emptied with read 0 and write 1, and keeps its capacity |
| RingBuffer.ResetShrinks | src/ringbuffer.h:81 | `rbuf_reset` re-derives `sz_buf - sizeof(pointer)` slots; a 73-slot buffer with 8-byte words comes back with 65 |
| RingBuffer.ResetCorrectedKeepsSlots | src/ringbuffer.h:81 | re-initialising over slot count plus header gives the slot count back |
| RingBuffer.Ring.Write | src/ringbuffer.c:69-114 | -1 exactly for an empty request, a NULL source or a full buffer, changing nothing; otherwise `min(sz, spare)` bytes, the contents become old contents followed by `src[0..r)`, the read position stays |
| RingBuffer.Ring.Store | src/ringbuffer.c:95-111 | storing the clamped bytes appends them and advances the write position modulo the slot count |
| RingBuffer.Ring.CopyAround | src/ringbuffer.c:95-111 | the first piece up to the last slot, the second from slot 0, write position updated after each |
| RingBuffer.Ring.PeekCb | src/ringbuffer.c:126-196 | -1 in the four rejected cases touching nothing; otherwise the consumer gets the clamped request's two segments, `cb_write_peek` fills its target with `contents[offset..offset+n)`; the header and memory never change |
| RingBuffer.Ring.Clamp | src/ringbuffer.c:149-152 | the request is cut to `min(sz, size - offset)` |
| RingBuffer.Ring.Peek | src/ringbuffer.c:244-251 | -1 exactly for an empty request, an empty buffer or an offset past the data; otherwise `min(sz, size - offset)` bytes equal to the contents from the offset on, the rest of the buffer unchanged |
| RingBuffer.Ring.Read | src/ringbuffer.c:261-270 | -1 exactly for an empty request or an empty buffer, with buffer and target unchanged; otherwise the bytes read are the oldest stored ones and they leave the buffer: FIFO order |
| RingBuffer.Ring.Forward | src/ringbuffer.c:279-292 | 0 on an empty buffer; otherwise drops `min(sz, size)` bytes from the front |
| ItemRing.ItemBuffer.constructor | src/ringbuffer.h:88-96 | a fresh region for the header and the given number of slots |
| ItemRing.ItemBuffer.Init | src/ringbuffer.h:113-117 | read 0, write 1, the item size, and the slot count of `RBUF_CALC_DATA_NUM`; valid exactly when a slot fits, and then empty |
| ItemRing.ItemBuffer.Reset | src/ringbuffer.h:185 | the buffer is emptied with RD 0 and WR 1, and keeps item size and slot count |
| ItemRing.ItemBuffer.Write | src/ringbuffer.c:303-347 | -1 exactly for an empty request, a NULL source or a full buffer, changing nothing; otherwise `min(n, spare)` items of `ITEM_SIZE` bytes each appended in order |
| ItemRing.ItemBuffer.Store | src/ringbuffer.c:326-344 | the clamped items, each of `ITEM_SIZE` bytes, become the newest stored items, and every stored item keeps that size |
| ItemRing.ItemBuffer.CopyAround | src/ringbuffer.c:326-344 | the two memmove calls write the items round the slots from the write position |
| ItemRing.ItemBuffer.Peek | src/ringbuffer.c:359-413 | -1 exactly for an empty request, a NULL target, an empty buffer or an offset past the data; otherwise the stored items from the offset on, clamped, each of `ITEM_SIZE` bytes, and the ring unchanged |
| ItemRing.ItemBuffer.Read | src/ringbuffer.c:424-432 | -1 exactly for an empty request, a NULL target or an empty buffer, with buffer and target unchanged; otherwise the oldest items are delivered and removed |
| ItemRing.ItemBuffer.Forward | src/ringbuffer.c:441-453 | 0 on an empty buffer; otherwise drops `min(n, size)` items from the front |
| Unicode.Utf8Length | src/getutf8.c:41-44 | the form has 1 to 4 bytes, chosen by the thresholds 0x80, 0x800 and 0x10000 |
| Unicode.Utf8Encode | src/getutf8.c:41-51 | the bytes produced are as many as the form length |
| Unicode.Utf8EncodeShape | src/getutf8.c:41-51 | the lead byte announces exactly the continuation bytes that follow, and each of them is 10xxxxxx |
| Unicode.ToUtf8 | src/getutf8.c:24-54 | -1 exactly for an empty or NULL buffer, a surrogate or a buffer shorter than the form; the first two leave the buffer alone, a short buffer keeps the bytes written so far; otherwise the form is written and its length returned |
| Unicode.PutContinuations | src/getutf8.c:45-51 | the `bits` loop completes the form, or fails as soon as the buffer is full with the prefix written |
| Unicode.Extra | src/getutf8.c:104-127 | a lead byte announces at most 5 continuation bytes |
| Unicode.LeadBits | src/getutf8.c:104-127 | the lead payload has at most five bits |
| Unicode.RunEnd | src/getutf8.c:211-215 | the skip stops at the first byte that does not continue the run, and every byte before it does |
| Unicode.Utf8Next | src/getutf8.c:148-220 | the decoder always moves forward and never past the input |
| Unicode.GetValUtf8Uni | src/getutf8.c:99-135 | the `cntleft` loop computes the value of the form at the index |
| Unicode.GetUtf8Value | src/getutf8.c:149-220 | the unrolled decoder agrees with `get_val_utf8_uni` and moves to the end of the form or of the skipped run, a skipped run having value 0 |
| Unicode.SkipRun | src/getutf8.c:211-215 | the two skip loops stop at the end of the run |
| Unicode.Form1 | src/getutf8.c:157-159 | an ASCII byte is its own value and form |
| Unicode.NoForm | src/getutf8.c:211-215 | a byte passing no lead test starts a skipped run with value 0 |
| Unicode.LeadForm | src/getutf8.c:104-127 | each lead test gives its continuation count and mask; a byte passing none is exactly a byte that starts a skipped run |
| Unicode.Form2 | src/getutf8.c:160-166 | the 2-byte branch's shifts give the form's value and end |
| Unicode.Form3 | src/getutf8.c:167-174 | the 3-byte branch's shifts give the form's value and end |
| Unicode.Form4 | src/getutf8.c:175-184 | the 4-byte branch's shifts give the form's value and end |
| Unicode.Form5 | src/getutf8.c:185-196 | the 5-byte branch's shifts give the form's value and end |
| Unicode.Form6 | src/getutf8.c:197-210 | the 6-byte branch's shifts give the form's value and end |
| Unicode.AccumulateIsShifted | src/getutf8.c:129-133 | shifting the continuation bytes in one by one from the front equals peeling them off the back |
| Unicode.Utf8RoundTrip | src/getutf8.c:427-446 | every code point below 0x200000 decodes back from `to_utf8`'s form, whatever follows, and the decoder moves past exactly that form |
| Unicode.Utf8DecoderExamples | src/getutf8.c:384-397 | 0xFE then NUL is skipped with value 0 and one byte; NUL decodes as itself |
| Unicode.Utf16DecoderExamples | src/getutf8.c:473-502 | a high surrogate followed by NUL or by another high surrogate gives 0 and NULL; D800 DC00 gives U+10000, two units on |
| Unicode.Utf16Encode | src/getutf8.c:87-94 | a pair for values from 0x10000 on, one unit otherwise |
| Unicode.ToUtf16 | src/getutf8.c:69-95 | -1 exactly for an empty or NULL buffer, a pair in a one-unit buffer or a surrogate, leaving the buffer alone; otherwise the units are written and counted |
| Unicode.Pair | src/getutf8.c:243-245 | a surrogate pair always combines to a supplementary code point, 0x10000 to 0x10FFFF |
| Unicode.GetValUtf16Uni | src/getutf8.c:234-255 | a high-low pair gives a supplementary code point, a high surrogate without a low one 0, any other unit itself |
| Unicode.GetUtf16Value | src/getutf8.c:269-291 | NULL exactly for a high surrogate not followed by a low one; otherwise the same value as `get_val_utf16_uni`, one or two units on |
| Unicode.Utf16RoundTrip | src/getutf8.c:69-95 | every non-surrogate code point below 0x110000 decodes back from `to_utf16`'s units, moving past exactly those units |
| Unicode.SplitPair | src/getutf8.c:87-90 | a supplementary code point splits into a high and a low surrogate that join back to it |
| Unicode.JoinPair | src/getutf8.c:243-245 | a high and a low surrogate are what `to_utf16` writes for the code point they combine to |
| Unicode.Utf16ReEncode | src/getutf8.c:269-291 | conversely every pair the decoder accepts, and every single unit other than a lone low surrogate, is exactly `to_utf16` of the decoded code point, which is no surrogate |
| Unicode.BmpUnit | src/getutf8.c:93 | a non-surrogate below 0x10000 is one unit that is no surrogate |
| Unicode.UnitBack | src/getutf8.c:289-290 | a unit that is no surrogate is a code point `to_utf16` writes as itself |
| UgString.CStrLen | src/ugstring.c:52-60 | the length is the index of the first NUL: a NUL there, none before |
| UgString.StrLenP | src/ugstring.c:52-60 | the pointer loop returns the length of the string |
| UgString.MemMove | src/ugstring.c:62-87 | the destination receives the bytes the source held before the call, as if through a temporary buffer, and nothing else changes |
| UgString.MemMoveP | src/ugstring.c:62-87 | returns `dest`; the memory afterwards is `MemMove` of the memory before, overlap or not; an empty move or identical ends change nothing |
| UgString.CopyDown | src/ugstring.c:78-84 | with the destination inside the source, the backward loop performs exactly the memmove |
| UgString.CopyUp | src/ugstring.c:85-86 | in every other case the forward loop performs exactly the memmove |
| UgString.Cmp | src/ugstring.c:101-126 | the reference compare answers -1, 0 or 1 |
| UgString.StrNCmpViaCallback | src/ugstring.c:92-127 | the callback loop computes the reference compare |
| UgString.CmpAtMismatch | src/ugstring.c:101-106 | at the first difference within the bound and before any NUL, the result is the sign of that difference |
| UgString.CmpNonZeroHasMismatch | src/ugstring.c:101-117 | a non-zero result only comes from such a difference |
| UgString.CmpZeroIff | src/ugstring.c:99-126 | 0 exactly when there is no difference within the bound before a NUL both strings share |
| UgString.CmpAntisymmetric | src/ugstring.h:62 | swapping the operands and their readers negates the result |
| UgString.CmpReflexive | src/ugstring.c:187-189 | a string compares equal to itself under any bound |
| UgString.IdnAfterHelp | src/ugstring.c:235-239 | "*IDN?" compares after the six bytes of "*HELP?" within 5 chars, and "*HELP?" before "*IDN?" |
| UgString.CopyString | src/ugstring.c:29 | copies the string and its NUL into the buffer and leaves the rest of it alone |
| UgString.Scratch.constructor | src/ugstring.c:18-24 | two distinct 50-byte buffers and index 0 |
| UgString.Scratch.ProgramToRam | src/ugstring.c:26-33 | copies into the buffer the index names and returns that buffer; the index flips and stays 0 or 1; the other buffer, with the previous result, is untouched |

## Left out

- Concurrency: the `volatile` positions and the single-producer,
  single-consumer use of the byte ring are not modelled. Every call runs alone.
- The trace macros (`TD`, `TE`, `TW`), `assert`, the hex dumps and the test
  harness have no effect on results and are not modelled. Tests appear only
  as the lemmas cited above.
- The header layout through pointer casts (`(int *)prb + k`, `p + 1`) is
  not modelled. Headers are fields, and their byte width is a parameter.
- Arithmetic is unbounded: `size_t` and `int` overflow are not modelled.
- RingBuffer.Ring.Init: requires that the caller's region really holds
  `byte_size` bytes, which the C code trusts without checking.
- RingBuffer.Ring.Peek: requires a non-NULL target whenever data would be
  copied. `rbuf_peek` would otherwise memmove through NULL.
- RingBuffer.Ring.Read: requires a non-NULL target whenever data would be
  copied, for the same reason as `Peek`.
- ItemRing.ItemBuffer.Write: requires every source item to have
  `ITEM_SIZE` bytes. The C code copies `item_size * n` bytes from a raw
  pointer, so the items are only a view of those bytes and there is no
  shorter or longer item to model.
- RingBuffer.Ring.PeekCb: requires the `cb_write_peek` target to be
  separate from the ring's own memory. The same holds for `Peek` and `Read`,
  and for `ItemRing.ItemBuffer.Peek` and `Read`. The C code would still
  memmove when they overlap, and that aliasing is not modelled.
- RingBuffer.Ring.Write: requires the source to be separate from the
  ring's own memory, and so does `ItemRing.ItemBuffer.Write`. The model
  copies a snapshot of the source. The C code's two memmoves run in
  sequence, and the second would read source bytes the first has already
  overwritten. That aliasing is not modelled.
- RingBuffer.Ring.PeekCb: an arbitrary consumer is a pure function of
  `(sz_max, off_target, bytes)`. A consumer with side effects beyond its
  return value is not modelled.
- ItemRing.ItemBuffer.Init: requires a non-zero item size and a region at
  least as large as the header. `RBUF_INIT` divides by the item size, and
  subtracts the header size as `size_t`, without checking either.
- The `RBUF_PEEK`/`RBUF_READ`/`RBUF_WRITE`/`RBUF_FORWARD` aliases are the
  `macro_rbuf_*` methods themselves.
- Unicode.ToUtf8: the buffer is an array and the loop is an index. Pointer
  comparison against `outend` is not modelled.
- Unicode.GetValUtf8Uni: requires that the announced continuation bytes lie
  inside the input. The C code reads them unchecked.
- Unicode.GetUtf8Value: requires that the announced continuation bytes lie
  inside the input.
  - A skipped run must also be followed by a byte that ends it.
  - The optional `pval` is always written.
- Unicode.GetValUtf16Uni: requires a readable unit after a high surrogate.
- Unicode.GetUtf16Value: requires a readable unit after a high surrogate.
- Unicode.Utf8RoundTrip: stated below 0x200000. Larger values lose bits in
  the lead byte, exactly as `to_utf8` writes them.
- UgString.StrNCmpViaCallback: requires that each string either ends in a
  NUL or has `max_sz + 1` readable chars, checked for each side on its own.
  The C loop may stop earlier at a difference, so this asks slightly more
  than the code needs.
  - `char` is signed (-128..127).
- UgString.MemMoveP: source and destination are positions in one flat
  memory. `pgm_read_byte` is an ordinary read, so a move between separate
  ROM and RAM spaces is not modelled separately.
- UgString.StrLenP: the always-true `p &&` test is not modelled. The result
  is a natural number, not an `int`.
- UgString.Scratch.ProgramToRam: requires the string and its NUL to fit in
  the 50-byte buffer. `strcpy_P` would overflow it.
  - `strcpy_P` is a platform routine, modelled as `CopyString`.
  - On platforms where `program_to_ram(a)` is `(a)` (src/ugstring.h:34)
    there is nothing to model.
- The declarations and alias macros of src/getutf8.h and src/ugstring.h,
  `my_strcpy_P`, and the platform headers are not part of this model.

## Findings

| source | as written | input that shows it | evidently intended | confidence | as-written member | corrected member |
|---|---|---|---|---|---|---|
| src/ringbuffer.h:81 | `rbuf_reset` re-initialises with `sz_buf + 3*sizeof(size_t)`, but `rbuf_init` subtracts `sizeof(ring_buffer_t)` = `3*sizeof(size_t) + sizeof(unsigned char *)` | a 73-slot buffer with 8-byte `size_t` and pointers comes back with 65 slots; a buffer of at most `sizeof(pointer)` slots makes the reset fail | re-initialise over `sz_buf + sizeof(ring_buffer_t)`, keeping the capacity | not executed | RingBuffer.ResetShrinks | RingBuffer.Ring.ResetCorrected |
