/** The string helpers of ugstring.c: C strings in a flat memory of signed
    chars, where a read from program memory (pgm_read_byte) is an ordinary
    read of the ROM array. */
module UgString {

  /** A signed 8-bit char (the platform choice this model fixes). */
  newtype Char = x: int | -128 <= x < 128

  /** The two address spaces a string can live in. */
  datatype Memory = Memory(ram: seq<Char>, rom: seq<Char>)

  /** read_byte_ram and read_byte_rom, the two read callbacks. */
  datatype Reader = ReadByteRam | ReadByteRom

  /** The memory a reader reads from. */
  function Space(m: Memory, cb: Reader): seq<Char>
  {
    match cb
    case ReadByteRam => m.ram
    case ReadByteRom => m.rom
  }

  /** One call of a read callback: read_byte_ram dereferences RAM and
      read_byte_rom reads program memory. */
  function ReadByte(m: Memory, cb: Reader, p: nat): Char
    requires p < |Space(m, cb)|
  {
    Space(m, cb)[p]
  }

  // ---------------------------------------------------------------------
  // my_strlen_P

  /** A NUL ends the string at `p` inside `s`. */
  predicate Terminated(s: seq<Char>, p: nat)
  {
    p < |s| && exists k :: p <= k < |s| && s[k] == 0
  }

  /** The length of the C string at `p`: the distance to the first NUL. */
  function CStrLen(s: seq<Char>, p: nat): (n: nat)
    requires Terminated(s, p)
    ensures p + n < |s| && s[p + n] == 0
    ensures forall j :: p <= j < p + n ==> s[j] != 0
    decreases |s| - p
  {
    if s[p] == 0 then 0
    else 1 + CStrLen(s, p + 1)
  }

  /** my_strlen_P: walks the ROM string at `p` up to its NUL. */
  method StrLenP(rom: seq<Char>, p: nat) returns (n: nat)
    requires Terminated(rom, p)
    ensures n == CStrLen(rom, p)
  {
    var q := p;
    while rom[q] != 0
      invariant p <= q <= p + CStrLen(rom, p)
      decreases p + CStrLen(rom, p) - q
    {
      q := q + 1;
    }
    n := q - p;
  }

  // ---------------------------------------------------------------------
  // my_memmove_P

  /** memmove's meaning: `dest[0..sz)` receives the bytes `src[0..sz)` held
      before the call, as if through a temporary buffer, and nothing else
      changes. */
  function MemMove(m: seq<Char>, dest: nat, src: nat, sz: nat): (r: seq<Char>)
    requires dest + sz <= |m| && src + sz <= |m|
    ensures |r| == |m|
    ensures r[dest..dest + sz] == m[src..src + sz]
    ensures forall k :: 0 <= k < |m| ==>
              r[k] == if dest <= k < dest + sz then m[k - dest + src] else m[k]
  {
    m[..dest] + m[src..src + sz] + m[dest + sz..]
  }

  /** my_memmove_P over one flat memory: nothing to do for an empty move
      or identical ends; a destination starting inside the source is
      copied from the tail down, anything else from the head up. Returns
      `dest`. */
  method MemMoveP(mem: array<Char>, dest: nat, src: nat, sz: nat) returns (r: nat)
    requires dest + sz <= mem.Length && src + sz <= mem.Length
    modifies mem
    ensures r == dest
    ensures mem[..] == MemMove(old(mem[..]), dest, src, sz)
    ensures sz < 1 || dest == src ==> mem[..] == old(mem[..])
  {
    ghost var m := mem[..];
    if sz < 1 || dest == src {
      assert mem[..] == MemMove(m, dest, src, sz);
      return dest;
    }
    if src < dest && dest < src + sz {
      CopyDown(mem, dest, src, sz);
    } else {
      CopyUp(mem, dest, src, sz);
    }
    assert mem[..] == MemMove(m, dest, src, sz);
    r := dest;
  }

  /** The backward loop: every source byte is read before the copy reaches
      it, because the destination lies above the source. */
  method CopyDown(mem: array<Char>, dest: nat, src: nat, sz: nat)
    requires dest + sz <= mem.Length && src < dest
    modifies mem
    ensures mem[..] == MemMove(old(mem[..]), dest, src, sz)
  {
    ghost var m := mem[..];
    var i: int := sz - 1;
    while i >= 0
      invariant -1 <= i < sz
      invariant forall k :: dest + i < k < dest + sz ==> mem[k] == m[k - dest + src]
      invariant forall k :: 0 <= k < mem.Length && !(dest + i < k < dest + sz) ==> mem[k] == m[k]
    {
      assert mem[src + i] == m[src + i];
      mem[dest + i] := mem[src + i];
      i := i - 1;
    }
    assert mem[..] == MemMove(m, dest, src, sz);
  }

  /** The forward loop: safe whenever the destination does not start
      strictly inside the source. */
  method CopyUp(mem: array<Char>, dest: nat, src: nat, sz: nat)
    requires dest + sz <= mem.Length && src + sz <= mem.Length
    requires !(src < dest < src + sz)
    modifies mem
    ensures mem[..] == MemMove(old(mem[..]), dest, src, sz)
  {
    ghost var m := mem[..];
    var i := 0;
    while i < sz
      invariant 0 <= i <= sz
      invariant forall k :: dest <= k < dest + i ==> mem[k] == m[k - dest + src]
      invariant forall k :: 0 <= k < mem.Length && !(dest <= k < dest + i) ==> mem[k] == m[k]
    {
      assert mem[src + i] == m[src + i];
      mem[dest + i] := mem[src + i];
      i := i + 1;
    }
    assert mem[..] == MemMove(m, dest, src, sz);
  }

  // ---------------------------------------------------------------------
  // my_strncmp_via_callback

  /** The reads of a compare of at most `n` chars from position `p` stay
      inside `s`: either n + 1 chars are readable or a NUL ends the string. */
  predicate Bounded(s: seq<Char>, p: nat, n: nat)
  {
    p < |s| && (p + n < |s| || exists k :: p <= k < |s| && s[k] == 0)
  }

  /** Past a non-NUL char the rest of a bounded string is bounded by one less. */
  lemma BoundedTail(s: seq<Char>, p: nat, n: nat)
    requires Bounded(s, p, n) && 0 < n && s[p] != 0
    ensures Bounded(s, p + 1, n - 1)
  {
    if p + n >= |s| {
      var k :| p <= k < |s| && s[k] == 0;
      assert p + 1 <= k;
    }
  }

  /** The reference three-way compare of at most `n` chars of the strings
      at `p` in `a` and `q` in `b`, stopping after a NUL common to both. */
  function Cmp(a: seq<Char>, p: nat, b: seq<Char>, q: nat, n: nat): (r: int)
    requires Bounded(a, p, n) && Bounded(b, q, n)
    ensures r == -1 || r == 0 || r == 1
    decreases n
  {
    if n == 0 then 0
    else if a[p] < b[q] then -1
    else if a[p] > b[q] then 1
    else if a[p] == 0 || b[q] == 0 then 0
    else
      BoundedTail(a, p, n);
      BoundedTail(b, q, n);
      Cmp(a, p + 1, b, q + 1, n - 1)
  }

  /** my_strncmp_via_callback: reads both first chars even for max_sz == 0,
      then compares char by char, stopping at a difference, at a NUL or
      after max_sz chars. */
  method StrNCmpViaCallback(m: Memory, p1: nat, p2: nat, maxSz: nat, left: Reader, right: Reader)
    returns (r: int)
    requires Bounded(Space(m, left), p1, maxSz) && Bounded(Space(m, right), p2, maxSz)
    ensures r == Cmp(Space(m, left), p1, Space(m, right), p2, maxSz)
  {
    ghost var a := Space(m, left);
    ghost var b := Space(m, right);
    var c1 := ReadByte(m, left, p1);
    var c2 := ReadByte(m, right, p2);
    var i: nat := 0;
    while i < maxSz
      invariant i <= maxSz
      invariant Bounded(a, p1 + i, maxSz - i) && Bounded(b, p2 + i, maxSz - i)
      invariant c1 == a[p1 + i] && c2 == b[p2 + i]
      invariant Cmp(a, p1, b, p2, maxSz) == Cmp(a, p1 + i, b, p2 + i, maxSz - i)
    {
      if c1 < c2 {
        return -1;
      } else if c1 > c2 {
        return 1;
      }
      if c1 == 0 || c2 == 0 {
        break;
      }
      BoundedTail(a, p1 + i, maxSz - i);
      BoundedTail(b, p2 + i, maxSz - i);
      c1 := ReadByte(m, left, p1 + i + 1);
      c2 := ReadByte(m, right, p2 + i + 1);
      i := i + 1;
    }
    if i >= maxSz {
      return 0;
    }
    // the loop stopped at a NUL common to both strings, so the source's
    // remaining comparisons find c1 == c2 == 0
    assert c1 == c2 == 0;
    r := 0;
  }

  /** The first position, within the bound and before any NUL, where the
      strings differ. */
  ghost predicate MismatchAt(a: seq<Char>, p: nat, b: seq<Char>, q: nat, n: nat, k: nat)
  {
    k < n && p + k < |a| && q + k < |b|
    && (forall j :: p <= j < p + k ==> a[j] == b[j - p + q] && a[j] != 0)
    && a[p + k] != b[q + k]
  }

  /** At such a position the result is the sign of the difference. */
  lemma {:induction false} CmpAtMismatch(a: seq<Char>, p: nat, b: seq<Char>, q: nat, n: nat, k: nat)
    requires Bounded(a, p, n) && Bounded(b, q, n) && MismatchAt(a, p, b, q, n, k)
    ensures Cmp(a, p, b, q, n) == if a[p + k] < b[q + k] then -1 else 1
    decreases k
  {
    if k > 0 {
      assert a[p] == b[q] && a[p] != 0;
      BoundedTail(a, p, n);
      BoundedTail(b, q, n);
      assert MismatchAt(a, p + 1, b, q + 1, n - 1, k - 1);
      CmpAtMismatch(a, p + 1, b, q + 1, n - 1, k - 1);
    }
  }

  /** A non-zero result always comes from such a position. */
  lemma {:induction false} CmpNonZeroHasMismatch(a: seq<Char>, p: nat, b: seq<Char>, q: nat, n: nat)
    requires Bounded(a, p, n) && Bounded(b, q, n) && Cmp(a, p, b, q, n) != 0
    ensures exists k :: MismatchAt(a, p, b, q, n, k)
    decreases n
  {
    if a[p] != b[q] {
      assert MismatchAt(a, p, b, q, n, 0);
    } else {
      assert n > 0 && a[p] != 0;
      BoundedTail(a, p, n);
      BoundedTail(b, q, n);
      CmpNonZeroHasMismatch(a, p + 1, b, q + 1, n - 1);
      var k: nat :| MismatchAt(a, p + 1, b, q + 1, n - 1, k);
      assert MismatchAt(a, p, b, q, n, k + 1);
    }
  }

  /** The compare gives 0 exactly when the strings agree on every char up
      to the bound or up to a NUL they share. */
  lemma CmpZeroIff(a: seq<Char>, p: nat, b: seq<Char>, q: nat, n: nat)
    requires Bounded(a, p, n) && Bounded(b, q, n)
    ensures Cmp(a, p, b, q, n) == 0 <==> !exists k :: MismatchAt(a, p, b, q, n, k)
  {
    if Cmp(a, p, b, q, n) != 0 {
      CmpNonZeroHasMismatch(a, p, b, q, n);
    } else if exists k :: MismatchAt(a, p, b, q, n, k) {
      var k: nat :| MismatchAt(a, p, b, q, n, k);
      CmpAtMismatch(a, p, b, q, n, k);
    }
  }

  /** Swapping the operands (and with them the readers) negates the result:
      the relation between my_strncmp_leftstatic and
      my_strncmp_rightstatic. */
  lemma {:induction false} CmpAntisymmetric(a: seq<Char>, p: nat, b: seq<Char>, q: nat, n: nat)
    requires Bounded(a, p, n) && Bounded(b, q, n)
    ensures Cmp(b, q, a, p, n) == -Cmp(a, p, b, q, n)
    decreases n
  {
    if n > 0 && a[p] == b[q] && a[p] != 0 {
      BoundedTail(a, p, n);
      BoundedTail(b, q, n);
      CmpAntisymmetric(a, p + 1, b, q + 1, n - 1);
    }
  }

  /** A string compares equal to itself under any bound. */
  lemma {:induction false} CmpReflexive(a: seq<Char>, p: nat, n: nat)
    requires Bounded(a, p, n)
    ensures Cmp(a, p, a, p, n) == 0
    decreases n
  {
    if n > 0 && a[p] != 0 {
      BoundedTail(a, p, n);
      CmpReflexive(a, p + 1, n - 1);
    }
  }

  /** The second string test: "*IDN?" sorts after the six bytes of
      "*HELP?" (no NUL within the bound) and before them once swapped. */
  lemma IdnAfterHelp()
    ensures Cmp([42, 73, 68, 78, 63, 0], 0, [42, 72, 69, 76, 80, 63], 0, 5) == 1
    ensures Cmp([42, 72, 69, 76, 80, 63, 0], 0, [42, 73, 68, 78, 63, 0], 0, 5) == -1
  {
    var idn: seq<Char> := [42, 73, 68, 78, 63, 0];
    var help: seq<Char> := [42, 72, 69, 76, 80, 63];
    var help0: seq<Char> := help + [0];
    assert MismatchAt(idn, 0, help, 0, 5, 1);
    CmpAtMismatch(idn, 0, help, 0, 5, 1);
    assert MismatchAt(help0, 0, idn, 0, 5, 1);
    CmpAtMismatch(help0, 0, idn, 0, 5, 1);
  }

  // ---------------------------------------------------------------------
  // program_to_ram

  /** Bytes in each of the two static scratch buffers. */
  const ScratchSize := 50

  /** strcpy_P into a RAM buffer: the ROM string at `p` and its NUL. */
  method CopyString(rom: seq<Char>, p: nat, dst: array<Char>) returns (n: nat)
    requires Terminated(rom, p) && CStrLen(rom, p) < dst.Length
    modifies dst
    ensures n == CStrLen(rom, p)
    ensures dst[..n + 1] == rom[p..p + n + 1]
    ensures dst[n + 1..] == old(dst[n + 1..])
  {
    ghost var len := CStrLen(rom, p);
    var i := 0;
    while rom[p + i] != 0
      invariant 0 <= i <= len
      invariant dst[..i] == rom[p..p + i]
      invariant forall j :: i <= j < dst.Length ==> dst[j] == old(dst[j])
      decreases len - i
    {
      dst[i] := rom[p + i];
      assert dst[..i + 1] == dst[..i] + [rom[p + i]];
      assert rom[p..p + i + 1] == rom[p..p + i] + [rom[p + i]];
      i := i + 1;
    }
    dst[i] := 0;
    assert dst[..i + 1] == dst[..i] + [rom[p + i]];
    assert rom[p..p + i + 1] == rom[p..p + i] + [rom[p + i]];
    n := i;
  }

  /** The two static buffers g_p2r_buf_01/02 and the index g_p2r_idx of the
      one the next call fills. */
  class Scratch {
    const buf1: array<Char>
    const buf2: array<Char>
    var idx: int

    ghost predicate Valid()
      reads this
    {
      buf1.Length == ScratchSize && buf2.Length == ScratchSize && buf1 != buf2
      && (idx == 0 || idx == 1)
    }

    /** g_p2r_buffers[g_p2r_idx] */
    function Next(): array<Char>
      reads this
    {
      if idx == 0 then buf1 else buf2
    }

    /** The static initial state: both buffers and index 0. */
    constructor()
      ensures Valid() && idx == 0
      ensures fresh(buf1) && fresh(buf2)
    {
      buf1 := new Char[ScratchSize];
      buf2 := new Char[ScratchSize];
      idx := 0;
    }

    /** program_to_ram: copies the ROM string into the buffer the index
        names, flips the index and returns the buffer just filled. The
        other buffer, holding the previous call's string, is untouched, so
        a result stays valid across exactly one further call. */
    method ProgramToRam(rom: seq<Char>, p: nat) returns (b: array<Char>)
      requires Valid()
      requires Terminated(rom, p) && CStrLen(rom, p) < ScratchSize
      modifies this, buf1, buf2
      ensures Valid() && idx == 1 - old(idx)
      ensures b == old(Next()) && b != Next()
      ensures b[..CStrLen(rom, p) + 1] == rom[p..p + CStrLen(rom, p) + 1]
      ensures b[CStrLen(rom, p) + 1..] == old(b[CStrLen(rom, p) + 1..])
      ensures idx == 0 ==> buf1[..] == old(buf1[..])
      ensures idx == 1 ==> buf2[..] == old(buf2[..])
    {
      var target := Next();
      var _ := CopyString(rom, p, target);
      idx := 1 - idx;
      b := if idx == 1 then buf1 else buf2;
    }
  }
}
