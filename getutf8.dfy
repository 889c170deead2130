/** Unicode transcoding: code points to UTF-8 (section 3 of RFC 3629, with
    the decoder also taking the legacy 5- and 6-byte forms) and to UTF-16
    with surrogate pairs (sections 2.1 and 2.2 of RFC 2781). */
module Unicode {
  import opened Common

  /** utf32_t: an unsigned 32-bit code point. */
  type Utf32 = bv32

  /** One UTF-16 code unit (uint16_t). */
  type Unit16 = bv16

  predicate IsSurrogate(c: Utf32)
  {
    0xD800 <= c <= 0xDFFF
  }

  // ---------------------------------------------------------------------
  // UTF-8 encoding

  /** A continuation byte 10xxxxxx carrying the six bits of `c` from `bits` on. */
  function Cont(c: Utf32, bits: nat): Byte
    requires bits == 0 || bits == 6 || bits == 12
  {
    ((ShiftDown(c, bits) & 0x3F) | 0x80) as Byte
  }

  /** c >> bits for the shift amounts to_utf8 uses. */
  function ShiftDown(c: Utf32, bits: nat): Utf32
    requires bits == 0 || bits == 6 || bits == 12
  {
    if bits == 0 then c else if bits == 6 then c >> 6 else c >> 12
  }

  /** The length of the form to_utf8 picks: one byte below 0x80, two below
      0x800, three below 0x10000 and four for everything else, with no
      upper bound on `c`. */
  function Utf8Length(c: Utf32): (n: nat)
    ensures 1 <= n <= 4
  {
    if c < 0x80 then 1 else if c < 0x800 then 2 else if c < 0x10000 then 3 else 4
  }

  /** The lead byte of an n-byte form: the length marker and the top bits
      of `c` that fit beside it (for n == 4 only bits 18..20, so a value of
      0x200000 or more loses its top bits; for n == 1 the store into a
      byte keeps the low eight bits). */
  function Lead(c: Utf32, n: nat): Byte
    requires 1 <= n <= 4
  {
    if n == 1 then (c & 0xFF) as Byte
    else if n == 2 then (((c >> 6) & 0x1F) | 0xC0) as Byte
    else if n == 3 then (((c >> 12) & 0x0F) | 0xE0) as Byte
    else (((c >> 18) & 0x07) | 0xF0) as Byte
  }

  /** The bytes to_utf8 produces for `c`: the lead byte, then the lower
      bits six at a time, most significant first. */
  function Utf8Encode(c: Utf32): (r: seq<Byte>)
    ensures |r| == Utf8Length(c)
  {
    var n := Utf8Length(c);
    [Lead(c, n)] + seq(n - 1, i requires 0 <= i < n - 1 => Cont(c, 6 * (n - 2 - i)))
  }

  /** The form is well shaped: the lead byte announces exactly the
      continuation bytes that follow it, and each of those is 10xxxxxx. */
  lemma Utf8EncodeShape(c: Utf32)
    ensures Extra(Utf8Encode(c)[0]) == |Utf8Encode(c)| - 1 && !StartsRun(Utf8Encode(c)[0])
    ensures forall i :: 1 <= i < |Utf8Encode(c)| ==> Utf8Encode(c)[i] & 0xC0 == 0x80
  {
    var n := Utf8Length(c);
    LeadShape(c, n);
    forall i | 1 <= i < n
      ensures Utf8Encode(c)[i] & 0xC0 == 0x80
    {
      ContShape(c, 6 * (n - 1 - i));
    }
  }

  lemma LeadShape(c: Utf32, n: nat)
    requires n == Utf8Length(c)
    ensures Extra(Lead(c, n)) == n - 1 && !StartsRun(Lead(c, n))
  {
  }

  lemma ContShape(c: Utf32, bits: nat)
    requires bits == 0 || bits == 6 || bits == 12
    ensures Cont(c, bits) & 0xC0 == 0x80
  {
  }

  /** to_utf8: rejects an empty or absent buffer and a surrogate; otherwise
      writes the lead byte and then one continuation byte per round of the
      `bits` loop, giving up with -1 when the buffer runs out (the bytes
      written so far stay there). */
  method ToUtf8(c: Utf32, buf: array?<Byte>, numItem: nat) returns (r: int)
    requires buf != null ==> numItem <= buf.Length
    modifies buf
    ensures r == -1 <==> numItem < 1 || buf == null || IsSurrogate(c) || numItem < |Utf8Encode(c)|
    ensures r != -1 ==> buf != null && r == |Utf8Encode(c)|
                        && buf[..r] == Utf8Encode(c) && buf[r..] == old(buf[r..])
    ensures r == -1 && buf != null && (numItem < 1 || IsSurrogate(c)) ==> buf[..] == old(buf[..])
    ensures r == -1 && buf != null && 1 <= numItem < |Utf8Encode(c)| && !IsSurrogate(c) ==>
              buf[..numItem] == Utf8Encode(c)[..numItem] && buf[numItem..] == old(buf[numItem..])
  {
    if numItem < 1 {
      return -1;
    }
    if buf == null {
      return -1;
    }
    if 0xD800 <= c && c <= 0xDFFF {
      return -1;
    }
    ghost var e := Utf8Encode(c);
    var bits: int;
    if c < 0x80 {
      buf[0] := Lead(c, 1);
      bits := -6;
    } else if c < 0x800 {
      buf[0] := Lead(c, 2);
      bits := 0;
    } else if c < 0x10000 {
      buf[0] := Lead(c, 3);
      bits := 6;
    } else {
      buf[0] := Lead(c, 4);
      bits := 12;
    }
    r := PutContinuations(c, buf, numItem, bits, e);
  }

  /** The `bits` loop of to_utf8: after the lead byte, one continuation
      byte per round until the form is complete, or -1 as soon as the
      buffer is full. */
  method PutContinuations(c: Utf32, buf: array<Byte>, numItem: nat, bits0: int, ghost e: seq<Byte>)
    returns (r: int)
    requires 1 <= numItem <= buf.Length && 1 <= |e| <= 4 && bits0 == 6 * (|e| - 2)
    requires forall i :: 1 <= i < |e| ==> e[i] == Cont(c, 6 * (|e| - 1 - i))
    requires buf[0] == e[0]
    modifies buf
    ensures r == -1 <==> numItem < |e|
    ensures r != -1 ==> r == |e| && buf[..r] == e && buf[r..] == old(buf[r..])
    ensures r == -1 ==> buf[..numItem] == e[..numItem] && buf[numItem..] == old(buf[numItem..])
  {
    var bits := bits0;
    var out := 1;
    while bits >= 0
      invariant 1 <= out <= |e| && out <= numItem
      invariant bits == 6 * (|e| - 1 - out)
      invariant buf[..out] == e[..out]
      invariant forall j :: out <= j < buf.Length ==> buf[j] == old(buf[j])
    {
      if out >= numItem {
        return -1;
      }
      buf[out] := Cont(c, bits);
      assert buf[..out + 1] == buf[..out] + [e[out]];
      assert e[..out + 1] == e[..out] + [e[out]];
      out := out + 1;
      bits := bits - 6;
    }
    r := out;
  }

  // ---------------------------------------------------------------------
  // UTF-8 decoding

  /** The number of continuation bytes a lead byte announces; 0 for ASCII
      and for a byte that starts no form (10xxxxxx, 0xFE, 0xFF). */
  function Extra(b: Byte): (n: nat)
    ensures n <= 5
  {
    if b & 0x80 == 0 then 0
    else if (b & 0xE0) ^ 0xC0 == 0 then 1
    else if (b & 0xF0) ^ 0xE0 == 0 then 2
    else if (b & 0xF8) ^ 0xF0 == 0 then 3
    else if (b & 0xFC) ^ 0xF8 == 0 then 4
    else if (b & 0xFE) ^ 0xFC == 0 then 5
    else 0
  }

  /** The payload bits of a lead byte (`*pstart & ~mask`). */
  function LeadBits(b: Byte): (v: Utf32)
    ensures v < 0x20
  {
    var e := Extra(b);
    (if e == 1 then b & 0x1F
     else if e == 2 then b & 0x0F
     else if e == 3 then b & 0x07
     else if e == 4 then b & 0x03
     else if e == 5 then b & 0x01
     else 0) as Utf32
  }

  /** A byte that get_utf8_value skips over: a stray continuation byte
      10xxxxxx or one of 0xFE, 0xFF. */
  predicate StartsRun(b: Byte)
  {
    b & 0xC0 == 0x80 || (b & 0xFE) > 0xFC
  }

  /** Whether `b` continues the run that `lead` started. */
  predicate InRun(lead: Byte, b: Byte)
  {
    if lead & 0xC0 == 0x80 then b & 0xC0 == 0x80 else (b & 0xFE) > 0xFC
  }

  /** One step of both decoders: shift the value up and put the six payload
      bits of a continuation byte below it. */
  function Push(v: Utf32, b: Byte): Utf32
  {
    (v << 6) | ((b & 0x3F) as Utf32)
  }

  /** Shifting in six bits from each continuation byte, as the cntleft loop
      of get_val_utf8_uni does. */
  function Accumulate(v: Utf32, cs: seq<Byte>): (r: Utf32)
    decreases |cs|
  {
    if |cs| == 0 then v
    else Accumulate(Push(v, cs[0]), cs[1..])
  }

  /** Whether get_val_utf8_uni's and get_utf8_value's reads at `p` stay in `s`. */
  predicate Readable(s: seq<Byte>, p: nat)
  {
    p < |s| && p + Extra(s[p]) < |s|
  }

  /** The code point get_val_utf8_uni returns for the form at `p`: the byte
      itself for ASCII, 0 for a byte that starts no form, the accumulated
      payload otherwise. Continuation bytes are not checked. */
  function Utf8Value(s: seq<Byte>, p: nat): (v: Utf32)
    requires Readable(s, p)
  {
    if s[p] & 0x80 == 0 then s[p] as Utf32
    else Accumulate(LeadBits(s[p]), s[p + 1 .. p + 1 + Extra(s[p])])
  }

  /** The first index at or after `q` that does not continue `lead`'s run. */
  function RunEnd(s: seq<Byte>, lead: Byte, q: nat): (e: nat)
    requires q <= |s|
    ensures q <= e <= |s|
    ensures forall j :: q <= j < e ==> InRun(lead, s[j])
    ensures e < |s| ==> !InRun(lead, s[e])
    decreases |s| - q
  {
    if q < |s| && InRun(lead, s[q]) then RunEnd(s, lead, q + 1) else q
  }

  /** Where get_utf8_value leaves the pointer: past the form, or past the
      run of skipped bytes. */
  function Utf8Next(s: seq<Byte>, p: nat): (n: nat)
    requires Readable(s, p)
    ensures p < n <= |s|
  {
    if StartsRun(s[p]) then RunEnd(s, s[p], p + 1) else p + 1 + Extra(s[p])
  }

  /** get_val_utf8_uni: the value of the form at `p`, by the cntleft loop. */
  method GetValUtf8Uni(s: seq<Byte>, p: nat) returns (v: Utf32)
    requires Readable(s, p)
    ensures v == Utf8Value(s, p)
  {
    if s[p] & 0x80 == 0 {
      return s[p] as Utf32;
    }
    var cntleft: nat;
    var b := s[p];
    if (b & 0xE0) ^ 0xC0 == 0 {
      cntleft := 1;
      v := (b & 0x1F) as Utf32;
    } else if (b & 0xF0) ^ 0xE0 == 0 {
      cntleft := 2;
      v := (b & 0x0F) as Utf32;
    } else if (b & 0xF8) ^ 0xF0 == 0 {
      cntleft := 3;
      v := (b & 0x07) as Utf32;
    } else if (b & 0xFC) ^ 0xF8 == 0 {
      cntleft := 4;
      v := (b & 0x03) as Utf32;
    } else if (b & 0xFE) ^ 0xFC == 0 {
      cntleft := 5;
      v := (b & 0x01) as Utf32;
    } else {
      cntleft := 0;
      v := 0;
    }
    LeadForm(b, cntleft);
    ghost var end := p + 1 + cntleft;
    assert Utf8Value(s, p) == Accumulate(v, s[p + 1 .. end]);
    var q := p + 1;
    while cntleft > 0
      invariant q + cntleft == end <= |s|
      invariant Accumulate(v, s[q .. end]) == Utf8Value(s, p)
    {
      assert s[q .. end][0] == s[q] && s[q .. end][1..] == s[q + 1 .. end];
      v := Push(v, s[q]);
      q := q + 1;
      cntleft := cntleft - 1;
    }
  }

  /** get_utf8_value: decodes the 1- to 6-byte form at `p` with unrolled
      shifts, or skips a run of stray continuation bytes or of 0xFE/0xFF
      with value 0, and agrees with get_val_utf8_uni throughout. A skipped
      run needs a byte after it that ends it, as a NUL does. */
  method GetUtf8Value(s: seq<Byte>, p: nat) returns (val: Utf32, next: nat)
    requires Readable(s, p)
    requires StartsRun(s[p]) ==> RunEnd(s, s[p], p + 1) < |s|
    ensures val == Utf8Value(s, p) && next == Utf8Next(s, p)
    ensures StartsRun(s[p]) ==> val == 0
  {
    var b := s[p];
    if b & 0x80 == 0 {
      val := b as Utf32;
      next := p + 1;
      Form1(s, p);
    } else if 0xC0 == 0xE0 & b {
      val := (b & 0x1F) as Utf32;
      val := Push(val, s[p + 1]);
      next := p + 2;
      Form2(s, p);
    } else if 0xE0 == 0xF0 & b {
      val := (b & 0x0F) as Utf32;
      val := Push(val, s[p + 1]);
      val := Push(val, s[p + 2]);
      next := p + 3;
      Form3(s, p);
    } else if 0xF0 == 0xF8 & b {
      val := (b & 0x07) as Utf32;
      val := Push(val, s[p + 1]);
      val := Push(val, s[p + 2]);
      val := Push(val, s[p + 3]);
      next := p + 4;
      Form4(s, p);
    } else if 0xF8 == 0xFC & b {
      val := (b & 0x03) as Utf32;
      val := Push(val, s[p + 1]);
      val := Push(val, s[p + 2]);
      val := Push(val, s[p + 3]);
      val := Push(val, s[p + 4]);
      next := p + 5;
      Form5(s, p);
    } else if 0xFC == 0xFE & b {
      val := (b & 0x01) as Utf32;
      val := Push(val, s[p + 1]);
      val := Push(val, s[p + 2]);
      val := Push(val, s[p + 3]);
      val := Push(val, s[p + 4]);
      val := Push(val, s[p + 5]);
      next := p + 6;
      Form6(s, p);
    } else {
      NoForm(s, p);
      next := SkipRun(s, p);
      val := 0;
    }
  }

  /** The two skipping loops of get_utf8_value: past every byte that
      continues the run the byte at `p` starts. */
  method SkipRun(s: seq<Byte>, p: nat) returns (next: nat)
    requires p < |s| && StartsRun(s[p]) && RunEnd(s, s[p], p + 1) < |s|
    ensures next == RunEnd(s, s[p], p + 1)
  {
    var b := s[p];
    if 0x80 == 0xC0 & b {
      next := p;
      while 0x80 == 0xC0 & s[next]
        invariant p <= next <= RunEnd(s, b, p + 1)
        invariant next > p ==> RunEnd(s, b, next) == RunEnd(s, b, p + 1)
        decreases |s| - next
      {
        next := next + 1;
      }
    } else {
      next := p;
      while (0xFE & s[next]) > 0xFC
        invariant p <= next <= RunEnd(s, b, p + 1)
        invariant next > p ==> RunEnd(s, b, next) == RunEnd(s, b, p + 1)
        decreases |s| - next
      {
        next := next + 1;
      }
    }
  }

  /** An ASCII byte is a form of its own. */
  lemma Form1(s: seq<Byte>, p: nat)
    requires p < |s| && s[p] & 0x80 == 0
    ensures Readable(s, p) && !StartsRun(s[p])
    ensures Utf8Value(s, p) == s[p] as Utf32 && Utf8Next(s, p) == p + 1
  {
  }

  /** A byte that fails every lead-byte test of get_utf8_value starts a
      run to skip, with value 0. */
  lemma NoForm(s: seq<Byte>, p: nat)
    requires p < |s| && s[p] & 0x80 != 0
    requires 0xC0 != 0xE0 & s[p] && 0xE0 != 0xF0 & s[p] && 0xF0 != 0xF8 & s[p]
    requires 0xF8 != 0xFC & s[p] && 0xFC != 0xFE & s[p]
    ensures Readable(s, p) && StartsRun(s[p])
    ensures Utf8Value(s, p) == 0 && Utf8Next(s, p) == RunEnd(s, s[p], p + 1)
  {
    assert Extra(s[p]) == 0;
    assert s[p + 1 .. p + 1] == [];
  }

  /** A lead byte that passes the test of an (n+1)-byte form announces n
      continuation bytes and carries the bits its mask leaves; a byte with
      its top bit set that passes none (n == 0) announces none and carries
      nothing. */
  lemma LeadForm(b: Byte, n: nat)
    requires n <= 5
    requires n == 0 ==> b & 0x80 != 0 && (b & 0xE0) ^ 0xC0 != 0 && (b & 0xF0) ^ 0xE0 != 0
                        && (b & 0xF8) ^ 0xF0 != 0 && (b & 0xFC) ^ 0xF8 != 0 && (b & 0xFE) ^ 0xFC != 0
    requires n == 1 ==> (b & 0xE0) ^ 0xC0 == 0
    requires n == 2 ==> (b & 0xF0) ^ 0xE0 == 0
    requires n == 3 ==> (b & 0xF8) ^ 0xF0 == 0
    requires n == 4 ==> (b & 0xFC) ^ 0xF8 == 0
    requires n == 5 ==> (b & 0xFE) ^ 0xFC == 0
    ensures Extra(b) == n && (n == 0 <==> StartsRun(b))
    ensures LeadBits(b) == (b & (if n == 0 then 0 else if n == 1 then 0x1F else if n == 2 then 0x0F
                                 else if n == 3 then 0x07 else if n == 4 then 0x03 else 0x01)) as Utf32
  {
  }

  lemma Unroll1(v: Utf32, s: seq<Byte>, lo: nat)
    requires lo + 1 <= |s|
    ensures Shifted(v, s, lo, lo + 1) == Push(v, s[lo])
  {
  }

  lemma Unroll2(v: Utf32, s: seq<Byte>, lo: nat)
    requires lo + 2 <= |s|
    ensures Shifted(v, s, lo, lo + 2) == Push(Push(v, s[lo]), s[lo + 1])
  {
    assert Shifted(v, s, lo, lo + 1) == Push(v, s[lo]);
  }

  lemma Unroll3(v: Utf32, s: seq<Byte>, lo: nat)
    requires lo + 3 <= |s|
    ensures Shifted(v, s, lo, lo + 3) == Push(Push(Push(v, s[lo]), s[lo + 1]), s[lo + 2])
  {
    assert Shifted(v, s, lo, lo + 1) == Push(v, s[lo]);
    assert Shifted(v, s, lo, lo + 2) == Push(Push(v, s[lo]), s[lo + 1]);
  }

  lemma Unroll4(v: Utf32, s: seq<Byte>, lo: nat)
    requires lo + 4 <= |s|
    ensures Shifted(v, s, lo, lo + 4) == Push(Push(Push(Push(v, s[lo]), s[lo + 1]), s[lo + 2]), s[lo + 3])
  {
    assert Shifted(v, s, lo, lo + 1) == Push(v, s[lo]);
    assert Shifted(v, s, lo, lo + 2) == Push(Push(v, s[lo]), s[lo + 1]);
    assert Shifted(v, s, lo, lo + 3) == Push(Push(Push(v, s[lo]), s[lo + 1]), s[lo + 2]);
  }

  lemma Unroll5(v: Utf32, s: seq<Byte>, lo: nat)
    requires lo + 5 <= |s|
    ensures Shifted(v, s, lo, lo + 5) == Push(Push(Push(Push(Push(v, s[lo]), s[lo + 1]), s[lo + 2]), s[lo + 3]), s[lo + 4])
  {
    assert Shifted(v, s, lo, lo + 1) == Push(v, s[lo]);
    assert Shifted(v, s, lo, lo + 2) == Push(Push(v, s[lo]), s[lo + 1]);
    assert Shifted(v, s, lo, lo + 3) == Push(Push(Push(v, s[lo]), s[lo + 1]), s[lo + 2]);
    assert Shifted(v, s, lo, lo + 4) == Push(Push(Push(Push(v, s[lo]), s[lo + 1]), s[lo + 2]), s[lo + 3]);
  }

  /** The value of an (n+1)-byte form, as get_utf8_value shifts it together. */
  lemma Form2(s: seq<Byte>, p: nat)
    requires p + 1 < |s| && 0xC0 == 0xE0 & s[p]
    ensures Readable(s, p) && !StartsRun(s[p]) && Utf8Next(s, p) == p + 2
    ensures Utf8Value(s, p) == Push((s[p] & 0x1F) as Utf32, s[p + 1])
  {
    LeadForm(s[p], 1);
    Unfold(s, p);
    Unroll1(LeadBits(s[p]), s, p + 1);
  }

  lemma Form3(s: seq<Byte>, p: nat)
    requires p + 2 < |s| && 0xE0 == 0xF0 & s[p]
    ensures Readable(s, p) && !StartsRun(s[p]) && Utf8Next(s, p) == p + 3
    ensures Utf8Value(s, p) == Push(Push((s[p] & 0x0F) as Utf32, s[p + 1]), s[p + 2])
  {
    LeadForm(s[p], 2);
    Unfold(s, p);
    Unroll2(LeadBits(s[p]), s, p + 1);
  }

  lemma Form4(s: seq<Byte>, p: nat)
    requires p + 3 < |s| && 0xF0 == 0xF8 & s[p]
    ensures Readable(s, p) && !StartsRun(s[p]) && Utf8Next(s, p) == p + 4
    ensures Utf8Value(s, p) == Push(Push(Push((s[p] & 0x07) as Utf32, s[p + 1]), s[p + 2]), s[p + 3])
  {
    LeadForm(s[p], 3);
    Unfold(s, p);
    Unroll3(LeadBits(s[p]), s, p + 1);
  }

  lemma Form5(s: seq<Byte>, p: nat)
    requires p + 4 < |s| && 0xF8 == 0xFC & s[p]
    ensures Readable(s, p) && !StartsRun(s[p]) && Utf8Next(s, p) == p + 5
    ensures Utf8Value(s, p) == Push(Push(Push(Push((s[p] & 0x03) as Utf32, s[p + 1]), s[p + 2]), s[p + 3]), s[p + 4])
  {
    LeadForm(s[p], 4);
    Unfold(s, p);
    Unroll4(LeadBits(s[p]), s, p + 1);
  }

  lemma Form6(s: seq<Byte>, p: nat)
    requires p + 5 < |s| && 0xFC == 0xFE & s[p]
    ensures Readable(s, p) && !StartsRun(s[p]) && Utf8Next(s, p) == p + 6
    ensures Utf8Value(s, p) == Push(Push(Push(Push(Push((s[p] & 0x01) as Utf32, s[p + 1]), s[p + 2]), s[p + 3]), s[p + 4]), s[p + 5])
  {
    LeadForm(s[p], 5);
    Unfold(s, p);
    Unroll5(LeadBits(s[p]), s, p + 1);
  }

  /** Accumulate over the continuation bytes of the form at `p`, written out
      one step per byte. */
  lemma Unfold(s: seq<Byte>, p: nat)
    requires Readable(s, p) && 1 <= Extra(s[p])
    ensures Utf8Value(s, p) == Shifted(LeadBits(s[p]), s, p + 1, p + 1 + Extra(s[p]))
  {
    AccumulateIsShifted(LeadBits(s[p]), s, p + 1, p + 1 + Extra(s[p]));
  }

  /** Accumulate over s[lo..hi], with the last byte taken off the end
      instead of the front. */
  function Shifted(v: Utf32, s: seq<Byte>, lo: nat, hi: nat): (r: Utf32)
    requires lo <= hi <= |s|
    decreases hi - lo
  {
    if hi == lo then v
    else Push(Shifted(v, s, lo, hi - 1), s[hi - 1])
  }

  lemma {:induction false} AccumulateIsShifted(v: Utf32, s: seq<Byte>, lo: nat, hi: nat)
    requires lo <= hi <= |s|
    ensures Accumulate(v, s[lo..hi]) == Shifted(v, s, lo, hi)
    decreases hi - lo
  {
    if lo < hi {
      AccumulateIsShifted(v, s, lo, hi - 1);
      AccumulateSnoc(v, s[lo .. hi - 1], s[hi - 1]);
      assert s[lo..hi] == s[lo .. hi - 1] + [s[hi - 1]];
    }
  }

  lemma {:induction false} AccumulateSnoc(v: Utf32, cs: seq<Byte>, b: Byte)
    ensures Accumulate(v, cs + [b]) == Push(Accumulate(v, cs), b)
    decreases |cs|
  {
    if |cs| > 0 {
      var w := Push(v, cs[0]);
      assert (cs + [b])[1..] == cs[1..] + [b];
      AccumulateSnoc(w, cs[1..], b);
    }
  }

  // ---------------------------------------------------------------------
  // UTF-16

  /** The units to_utf16 writes: a surrogate pair for val >= 0x10000, the
      value itself otherwise; each store into a uint16_t keeps the low 16
      bits. */
  function Utf16Encode(val: Utf32): (r: seq<Unit16>)
    ensures |r| == if val >= 0x10000 then 2 else 1
  {
    if val >= 0x10000 then [HighUnit(val), LowUnit(val)] else [val as Unit16]
  }

  /** The first unit of the pair for val >= 0x10000. */
  function HighUnit(val: Utf32): Unit16
  {
    ((0xD800 | ((val - 0x10000) >> 10)) & 0xFFFF) as Unit16
  }

  /** The second unit of the pair for val >= 0x10000. */
  function LowUnit(val: Utf32): Unit16
  {
    ((0xDC00 | ((val - 0x10000) & 0x3FF)) & 0xFFFF) as Unit16
  }

  /** to_utf16: rejects an empty or absent buffer, a pair that does not fit
      and a surrogate; otherwise writes Utf16Encode(val). */
  method ToUtf16(val: Utf32, buf: array?<Unit16>, numItem: nat) returns (r: int)
    requires buf != null ==> numItem <= buf.Length
    modifies buf
    ensures r == -1 <==> numItem < 1 || buf == null || (val >= 0x10000 && numItem < 2) || IsSurrogate(val)
    ensures r == -1 && buf != null ==> buf[..] == old(buf[..])
    ensures r != -1 ==> buf != null && r == |Utf16Encode(val)|
                        && buf[..r] == Utf16Encode(val) && buf[r..] == old(buf[r..])
  {
    if numItem < 1 {
      return -1;
    }
    if buf == null {
      return -1;
    }
    if val >= 0x10000 && numItem < 2 {
      return -1;
    }
    if 0xD800 <= val && val <= 0xDFFF {
      return -1;
    }
    ghost var e := Utf16Encode(val);
    if val >= 0x10000 {
      buf[0] := HighUnit(val);
      buf[1] := LowUnit(val);
      assert buf[..2] == e;
      return 2;
    }
    buf[0] := val as Unit16;
    assert buf[..1] == e;
    r := 1;
  }

  predicate IsHigh(u: Unit16)
  {
    0xD800 <= u <= 0xDBFF
  }

  predicate IsLow(u: Unit16)
  {
    0xDC00 <= u <= 0xDFFF
  }

  /** A high surrogate at `p` is followed by a readable unit. */
  predicate Readable16(s: seq<Unit16>, p: nat)
  {
    p < |s| && (IsHigh(s[p]) ==> p + 1 < |s|)
  }

  /** The code point of a surrogate pair. */
  function Pair(hi: Unit16, lo: Unit16): (c: Utf32)
    ensures 0x10000 <= c < 0x110000
  {
    0x10000 + (((hi & 0x3FF) as Utf32) << 10) + ((lo & 0x3FF) as Utf32)
  }

  /** get_val_utf16_uni: the pair's code point, 0 for a high surrogate not
      followed by a low one, the unit itself otherwise. */
  function GetValUtf16Uni(s: seq<Unit16>, p: nat): (c: Utf32)
    requires Readable16(s, p)
    ensures IsHigh(s[p]) && IsLow(s[p + 1]) ==> 0x10000 <= c < 0x110000
    ensures !IsHigh(s[p]) ==> c == s[p] as Utf32
    ensures IsHigh(s[p]) && !IsLow(s[p + 1]) ==> c == 0
  {
    if IsHigh(s[p]) then
      if IsLow(s[p + 1]) then Pair(s[p], s[p + 1]) else 0
    else s[p] as Utf32
  }

  /** get_utf16_value: the code point and the index after it, or None (the
      NULL pointer) for a high surrogate not followed by a low one. */
  function GetUtf16Value(s: seq<Unit16>, p: nat): (r: Option<(Utf32, nat)>)
    requires Readable16(s, p)
    ensures r.None? <==> IsHigh(s[p]) && !IsLow(s[p + 1])
    ensures r.Some? ==> r.value.0 == GetValUtf16Uni(s, p)
                        && r.value.1 == p + (if IsHigh(s[p]) then 2 else 1)
  {
    if IsHigh(s[p]) then
      if IsLow(s[p + 1]) then Some((Pair(s[p], s[p + 1]), p + 2)) else None
    else Some((s[p] as Utf32, p + 1))
  }

  // ---------------------------------------------------------------------
  // Round trips

  /** Every code point below 0x200000 decodes back from its UTF-8 form,
      whatever follows it, and the decoder moves past exactly that form. */
  lemma Utf8RoundTrip(c: Utf32, rest: seq<Byte>)
    requires c < 0x200000
    ensures Readable(Utf8Encode(c) + rest, 0)
    ensures Utf8Value(Utf8Encode(c) + rest, 0) == c
    ensures Utf8Next(Utf8Encode(c) + rest, 0) == |Utf8Encode(c)|
  {
    var e := Utf8Encode(c);
    var n := |e|;
    var s := e + rest;
    assert s[0] == Lead(c, n);
    LeadShape(c, n);
    if n == 1 {
      assert s[0] as Utf32 == c;
    } else {
      assert s[1 .. n] == e[1..];
      assert forall i :: 1 <= i < n ==> s[i] == Cont(c, 6 * (n - 1 - i));
      AccumulateIsShifted(LeadBits(s[0]), s, 1, n);
      ShiftedForm(c, s);
    }
  }

  /** The decoder's shifts applied to the continuation bytes of c's 2-, 3-
      or 4-byte form give `c` back. */
  lemma ShiftedForm(c: Utf32, s: seq<Byte>)
    requires 0x80 <= c < 0x200000 && Utf8Length(c) <= |s|
    requires forall i :: 1 <= i < Utf8Length(c) ==> s[i] == Cont(c, 6 * (Utf8Length(c) - 1 - i))
    ensures Shifted(LeadBits(Lead(c, Utf8Length(c))), s, 1, Utf8Length(c)) == c
  {
    var n := Utf8Length(c);
    LeadPayload(c, n);
    if n == 2 {
      Shifted2(c, s);
    } else if n == 3 {
      Shifted3(c, s);
    } else {
      Shifted4(c, s);
    }
  }

  lemma Shifted2(c: Utf32, s: seq<Byte>)
    requires c < 0x800 && 2 <= |s| && s[1] == Cont(c, 0)
    ensures Shifted((c >> 6) & 0x1F, s, 1, 2) == c
  {
    Reassemble2(c);
  }

  lemma Shifted3(c: Utf32, s: seq<Byte>)
    requires c < 0x10000 && 3 <= |s| && s[1] == Cont(c, 6) && s[2] == Cont(c, 0)
    ensures Shifted((c >> 12) & 0x0F, s, 1, 3) == c
  {
    Reassemble3(c);
  }

  lemma Shifted4(c: Utf32, s: seq<Byte>)
    requires c < 0x200000 && 4 <= |s|
    requires s[1] == Cont(c, 12) && s[2] == Cont(c, 6) && s[3] == Cont(c, 0)
    ensures Shifted((c >> 18) & 0x07, s, 1, 4) == c
  {
    Reassemble4(c);
  }

  /** The shifts of the decoder put the pieces the encoder cut back together. */
  lemma Reassemble2(c: Utf32)
    requires c < 0x800
    ensures Push((c >> 6) & 0x1F, Cont(c, 0)) == c
  {
    ContPayload(c, 0);
  }

  lemma Reassemble3(c: Utf32)
    requires c < 0x10000
    ensures Push(Push((c >> 12) & 0x0F, Cont(c, 6)), Cont(c, 0)) == c
  {
    ContPayload(c, 6);
    ContPayload(c, 0);
  }

  lemma Reassemble4(c: Utf32)
    requires c < 0x200000
    ensures Push(Push(Push((c >> 18) & 0x07, Cont(c, 12)), Cont(c, 6)), Cont(c, 0)) == c
  {
    ContPayload(c, 12);
    ContPayload(c, 6);
    ContPayload(c, 0);
  }

  lemma ContPayload(c: Utf32, bits: nat)
    requires bits == 0 || bits == 6 || bits == 12
    ensures (Cont(c, bits) & 0x3F) as Utf32 == ShiftDown(c, bits) & 0x3F
  {
  }

  /** The payload get_val_utf8_uni takes from the lead byte to_utf8 wrote. */
  lemma LeadPayload(c: Utf32, n: nat)
    requires n == Utf8Length(c) && 2 <= n
    ensures n == 2 ==> LeadBits(Lead(c, n)) == (c >> 6) & 0x1F
    ensures n == 3 ==> LeadBits(Lead(c, n)) == (c >> 12) & 0x0F
    ensures n == 4 ==> LeadBits(Lead(c, n)) == (c >> 18) & 0x07
  {
  }

  /** Every code point below 0x110000 decodes back from its UTF-16 form and
      the decoder moves past exactly the units written. */
  lemma Utf16RoundTrip(c: Utf32, rest: seq<Unit16>)
    requires c < 0x110000 && !IsSurrogate(c)
    ensures Readable16(Utf16Encode(c) + rest, 0)
    ensures GetUtf16Value(Utf16Encode(c) + rest, 0) == Some((c, |Utf16Encode(c)|))
  {
    var s := Utf16Encode(c) + rest;
    if c >= 0x10000 {
      SplitPair(c);
      assert s[0] == HighUnit(c) && s[1] == LowUnit(c);
    } else {
      BmpUnit(c);
      assert s[0] == c as Unit16;
    }
  }

  /** A supplementary code point splits into a high and a low surrogate
      that Pair joins back. */
  lemma SplitPair(c: Utf32)
    requires 0x10000 <= c < 0x110000
    ensures IsHigh(HighUnit(c)) && IsLow(LowUnit(c)) && Pair(HighUnit(c), LowUnit(c)) == c
  {
    HighUnitIsHigh(c);
    LowUnitIsLow(c);
    PairOfUnits(c);
  }

  lemma HighUnitIsHigh(c: Utf32)
    requires 0x10000 <= c < 0x110000
    ensures IsHigh(HighUnit(c))
  {
  }

  lemma LowUnitIsLow(c: Utf32)
    requires 0x10000 <= c < 0x110000
    ensures IsLow(LowUnit(c))
  {
  }

  lemma PairOfUnits(c: Utf32)
    requires 0x10000 <= c < 0x110000
    ensures Pair(HighUnit(c), LowUnit(c)) == c
  {
  }

  /** A code point below 0x10000 that is not a surrogate is its own unit. */
  lemma BmpUnit(c: Utf32)
    requires c < 0x10000 && !IsSurrogate(c)
    ensures !IsHigh(c as Unit16) && !IsLow(c as Unit16) && (c as Unit16) as Utf32 == c
  {
  }

  /** A high and a low surrogate are what to_utf16 writes for their pair. */
  lemma JoinPair(hi: Unit16, lo: Unit16)
    requires IsHigh(hi) && IsLow(lo)
    ensures HighUnit(Pair(hi, lo)) == hi && LowUnit(Pair(hi, lo)) == lo
  {
    HighOfPair(hi, lo);
    LowOfPair(hi, lo);
  }

  lemma HighOfPair(hi: Unit16, lo: Unit16)
    requires IsHigh(hi) && IsLow(lo)
    ensures HighUnit(Pair(hi, lo)) == hi
  {
  }

  lemma LowOfPair(hi: Unit16, lo: Unit16)
    requires IsHigh(hi) && IsLow(lo)
    ensures LowUnit(Pair(hi, lo)) == lo
  {
  }

  /** Conversely, a unit that is not a surrogate, or a well-formed pair,
      is exactly what to_utf16 writes for the decoded code point. */
  lemma Utf16ReEncode(s: seq<Unit16>, p: nat)
    requires Readable16(s, p) && !IsLow(s[p])
    requires GetUtf16Value(s, p).Some?
    ensures var r := GetUtf16Value(s, p).value;
            !IsSurrogate(r.0) && Utf16Encode(r.0) == s[p .. r.1]
  {
    if IsHigh(s[p]) {
      var c := Pair(s[p], s[p + 1]);
      assert GetUtf16Value(s, p).value == (c, p + 2);
      JoinPair(s[p], s[p + 1]);
      assert s[p .. p + 2] == [s[p], s[p + 1]];
    } else {
      var c := s[p] as Utf32;
      assert GetUtf16Value(s, p).value == (c, p + 1);
      UnitBack(s[p]);
      assert s[p .. p + 1] == [s[p]];
    }
  }

  /** The fixed UTF-8 cases the decoder is specified by: 0xFE then NUL
      skips one byte with value 0, and NUL decodes as itself. */
  lemma Utf8DecoderExamples()
    ensures Utf8Value([0xFE, 0], 0) == 0 && Utf8Next([0xFE, 0], 0) == 1
    ensures Utf8Value([0, 0], 0) == 0 && Utf8Next([0, 0], 0) == 1
  {
    var s: seq<Byte> := [0xFE, 0];
    assert RunEnd(s, 0xFE, 1) == 1;
  }

  /** The fixed UTF-16 cases the decoders are specified by: a high
      surrogate decodes only when a low one follows. */
  lemma Utf16DecoderExamples()
    ensures GetValUtf16Uni([0xD800, 0], 0) == 0 && GetUtf16Value([0xD800, 0], 0).None?
    ensures GetValUtf16Uni([0xD800, 0xD800], 0) == 0 && GetUtf16Value([0xD800, 0xD800], 0).None?
    ensures GetValUtf16Uni([0xD800, 0xDC00], 0) == 0x10000
    ensures GetUtf16Value([0xD800, 0xDC00], 0) == Some((0x10000, 2))
  {
  }

  /** A unit that is not a surrogate is a code point below 0x10000 that
      to_utf16 writes as itself. */
  lemma UnitBack(u: Unit16)
    requires !IsHigh(u) && !IsLow(u)
    ensures !IsSurrogate(u as Utf32) && u as Utf32 < 0x10000 && Utf16Encode(u as Utf32) == [u]
  {
  }
}
