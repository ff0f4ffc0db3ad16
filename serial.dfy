/** The arithmetic of the serialized index: page alignment, the file sizes
    the SerialHeader records, where the FORMAT1 hash tables lie in the file,
    and the test G::serial_can_merge applies before merging into a file. */
module Serial {
  import opened Common

  /** The header flag bits of the two table formats (O2_SERIAL_FILEFORMAT1
      and O2_SERIAL_FILEFORMAT2). */
  const FORMAT1: Uns32 := 1
  const FORMAT2: Uns32 := 2

  /** sizeof(SerialElementT): a (hashValue, pointID) pair of Uns32T. */
  const ELEMENT_SIZE: Uns32 := 8

  /** Bytes per hash function in FORMAT1: d floats of A, one float b and the
      r1, r2 coefficients. */
  function FunctionBytes(d: Uns32): nat {
    4 * d + 2 * 4 + 4
  }

  function Pow2(w: nat): (r: nat)
    ensures r > 0
  {
    if w == 0 then 1 else 2 * Pow2(w - 1)
  }

  /** The low w bits of x are zero: x is a multiple of 2^w. */
  predicate Aligned(x: nat, w: nat) {
    w == 0 || (x % 2 == 0 && Aligned(x / 2, w - 1))
  }

  /** v & ~((1 << w) - 1): v with its low w bits cleared. */
  function ClearLow(v: nat, w: nat): nat {
    if w == 0 then v else 2 * ClearLow(v / 2, w - 1)
  }

  /** Truncation to the 32-bit unsigned argument of align_up. */
  function Wrap32(x: int): (r: Uns32)
    ensures 0 <= x < TWO32 ==> r == x
  {
    x % TWO32
  }

  /** align_up(x, w): (x + 2^w - 1) & ~(2^w - 1) in 32-bit unsigned
      arithmetic; 1 << w is an int shift, so w stays below 31. */
  function AlignUp(x: Uns32, w: nat): (r: Uns32)
    requires w <= 30
  {
    ClearLowBelow(Wrap32(x + Pow2(w) - 1), w);
    ClearLow(Wrap32(x + Pow2(w) - 1), w)
  }

  // ---------------------------------------------------------------------
  // Clearing low bits

  /** Clearing the low w bits lowers v by less than 2^w and leaves a
      multiple of 2^w. */
  lemma {:induction false} ClearLowBelow(v: nat, w: nat)
    ensures ClearLow(v, w) <= v < ClearLow(v, w) + Pow2(w)
    ensures Aligned(ClearLow(v, w), w)
  {
    if w > 0 {
      ClearLowBelow(v / 2, w - 1);
      var c := ClearLow(v / 2, w - 1);
      assert (2 * c) / 2 == c;
    }
  }

  /** No multiple of 2^w lies strictly between ClearLow(v, w) and v. */
  lemma {:induction false} ClearLowGreatest(v: nat, w: nat, m: nat)
    requires Aligned(m, w) && m <= v
    ensures m <= ClearLow(v, w)
  {
    if w > 0 {
      ClearLowGreatest(v / 2, w - 1, m / 2);
    }
  }

  lemma {:induction false} ClearLowSmall(v: nat, w: nat)
    requires v < Pow2(w)
    ensures ClearLow(v, w) == 0
  {
    if w > 0 {
      ClearLowSmall(v / 2, w - 1);
    }
  }

  lemma {:induction false} AlignedAdd(a: nat, b: nat, w: nat)
    requires Aligned(a, w) && Aligned(b, w)
    ensures Aligned(a + b, w)
  {
    if w > 0 {
      AlignedAdd(a / 2, b / 2, w - 1);
      assert (a + b) / 2 == a / 2 + b / 2;
    }
  }

  lemma {:induction false} AlignedTimes(x: nat, a: nat, w: nat)
    requires Aligned(a, w)
    ensures Aligned(x * a, w)
  {
    if x == 0 {
      AlignedZero(w);
    } else {
      AlignedTimes(x - 1, a, w);
      AlignedAdd((x - 1) * a, a, w);
      assert (x - 1) * a + a == x * a;
    }
  }

  lemma {:induction false} AlignedZero(w: nat)
    ensures Aligned(0, w)
  {
    if w > 0 {
      AlignedZero(w - 1);
    }
  }

  lemma {:induction false} AlignedPow2(n: nat, w: nat)
    requires w <= n
    ensures Aligned(Pow2(n), w)
  {
    if w > 0 {
      AlignedPow2(n - 1, w - 1);
    }
  }

  lemma {:induction false} MulMono(x: nat, y: nat, a: nat)
    requires x <= y
    ensures x * a <= y * a
    decreases y
  {
    if x < y {
      MulMono(x, y - 1, a);
      assert (y - 1) * a + a == y * a;
    }
  }

  lemma {:induction false} Pow2Mono(w: nat, n: nat)
    requires w <= n
    ensures Pow2(w) <= Pow2(n)
    decreases n
  {
    if w < n {
      Pow2Mono(w, n - 1);
    }
  }

  lemma Pow2Values()
    ensures Pow2(30) == 0x4000_0000 && Pow2(32) == TWO32
  {
    assert Pow2(10) == 0x400;
    assert Pow2(20) == 0x10_0000;
  }

  /** Two distinct multiples of 2^w are at least 2^w apart. */
  lemma {:induction false} AlignedApart(a: nat, b: nat, w: nat)
    requires Aligned(a, w) && Aligned(b, w) && a < b
    ensures a + Pow2(w) <= b
  {
    if w > 0 {
      AlignedApart(a / 2, b / 2, w - 1);
    }
  }

  // ---------------------------------------------------------------------
  // align_up

  /** The result is page aligned. */
  lemma AlignUpAligned(x: Uns32, w: nat)
    requires w <= 30
    ensures Aligned(AlignUp(x, w), w)
  {
    ClearLowBelow(Wrap32(x + Pow2(w) - 1), w);
  }

  /** Without 32-bit wrap-around, align_up gives the least multiple of 2^w
      that is not below x. */
  lemma AlignUpLeast(x: Uns32, w: nat)
    requires w <= 30 && x + Pow2(w) - 1 < TWO32
    ensures x <= AlignUp(x, w) < x + Pow2(w)
    ensures forall m: nat :: x <= m && Aligned(m, w) ==> AlignUp(x, w) <= m
  {
    var v := x + Pow2(w) - 1;
    var r := ClearLow(v, w);
    ClearLowBelow(v, w);
    assert AlignUp(x, w) == r;
    forall m: nat | x <= m && Aligned(m, w)
      ensures r <= m
    {
      if m < r {
        AlignedApart(m, r, w);
      }
    }
  }

  /** A page-aligned value is left unchanged. */
  lemma AlignUpOfAligned(x: Uns32, w: nat)
    requires w <= 30 && Aligned(x, w)
    ensures AlignUp(x, w) == x
  {
    var p := Pow2(w);
    Pow2Values();
    AlignedPow2(32, w);
    AlignedApart(x, TWO32, w);
    AlignUpLeast(x, w);
  }

  lemma WrapOnce(y: int)
    requires TWO32 <= y < 2 * TWO32
    ensures Wrap32(y) == y - TWO32
  {
  }

  /** With wrap-around (x within 2^w - 1 of 2^32) align_up returns 0. */
  lemma AlignUpWraps(x: Uns32, w: nat)
    requires w <= 30 && x + Pow2(w) - 1 >= TWO32
    ensures AlignUp(x, w) == 0
  {
    Pow2Values();
    Pow2Mono(w, 30);
    var v := Wrap32(x + Pow2(w) - 1);
    WrapOnce(x + Pow2(w) - 1);
    ClearLowSmall(v, w);
  }

  // ---------------------------------------------------------------------
  // Sizes and offsets

  /** G::get_serial_hashtable_offset: the header and the L*k hash functions,
      page aligned; L*numFuns is a 32-bit product. */
  function HashTableOffset(hdr: Uns32, L: Uns32, k: Uns32, d: Uns32, w: nat): Uns32
    requires w <= 30
  {
    AlignUp(Wrap32(hdr + Wrap32(L * k) * FunctionBytes(d)), w)
  }

  /** The bytes of one FORMAT1 table, N rows of numCols elements, held in
      an Uns32T. */
  function HashTableSize(N: Uns32, numCols: Uns32): Uns32 {
    Wrap32(ELEMENT_SIZE * N * numCols)
  }

  /** SerialHeader::size_long for FORMAT1: L page-aligned tables after the
      page-aligned header and hash functions (align_up takes its argument
      as 32 bits). */
  function Format1FileSize(hdr: Uns32, L: Uns32, N: Uns32, C: Uns32, k: Uns32, d: Uns32, w: nat): int
    requires w <= 30
  {
    L * AlignUp(Wrap32(N * C * ELEMENT_SIZE), w) + AlignUp(Wrap32(hdr + L * k * FunctionBytes(d)), w)
  }

  /** SerialHeader::size_long for FORMAT2: header, hash functions (counted
      with 2 + 4 bytes for the two coefficients) and 16 bytes per point. */
  function Format2FileSize(hdr: Uns32, L: Uns32, k: Uns32, d: Uns32, pc: Uns32, w: nat): Uns32
    requires w <= 30
  {
    AlignUp(Wrap32(hdr + L * k * (4 * d + 2 + 4 + 4) + pc * 16), w)
  }

  /** The offset of FORMAT1 table x as the writer, reader and query paths
      compute it: align_up(base + x*hashTableSize) in 32 bits. */
  function TableOffsetAsWritten(base: Uns32, x: Uns32, size: Uns32, w: nat): Uns32
    requires w <= 30
  {
    AlignUp(Wrap32(base + x * size), w)
  }

  /** The layout Format1FileSize reserves: table x at base plus x
      page-aligned table sizes. */
  function TableOffset(base: Uns32, x: nat, size: Uns32, w: nat): int
    requires w <= 30
  {
    base + x * AlignUp(size, w)
  }

  lemma WrapAddMultiple(a: int, t: nat)
    ensures Wrap32(a + TWO32 * t) == Wrap32(a)
  {
    var q := (a + TWO32 * t) / TWO32;
    var q' := a / TWO32;
    assert a + TWO32 * t == TWO32 * q + Wrap32(a + TWO32 * t);
    assert a == TWO32 * q' + Wrap32(a);
    assert TWO32 * (q - q' - t) == Wrap32(a) - Wrap32(a + TWO32 * t);
  }

  /** Wrapping L*numFuns before the multiplication does not change the
      truncated sum, so the table base is the second term of size_long. */
  lemma HashTableOffsetIsHeaderPart(hdr: Uns32, L: Uns32, k: Uns32, d: Uns32, w: nat)
    requires w <= 30
    ensures HashTableOffset(hdr, L, k, d, w) == AlignUp(Wrap32(hdr + L * k * FunctionBytes(d)), w)
  {
    var lk := L * k;
    var q := lk / TWO32;
    assert lk == TWO32 * q + Wrap32(lk);
    var f := FunctionBytes(d);
    assert lk * f == Wrap32(lk) * f + TWO32 * (q * f);
    WrapAddMultiple(hdr + Wrap32(lk) * f, q * f);
  }

  /** The FORMAT1 file ends exactly where the last of the L tables of the
      reserved layout ends. */
  lemma Format1FileSizeIsLayout(hdr: Uns32, L: Uns32, N: Uns32, C: Uns32, k: Uns32, d: Uns32, w: nat)
    requires w <= 30
    ensures Format1FileSize(hdr, L, N, C, k, d, w)
         == TableOffset(HashTableOffset(hdr, L, k, d, w), L, HashTableSize(N, C), w)
  {
    HashTableOffsetIsHeaderPart(hdr, L, k, d, w);
    assert N * C * ELEMENT_SIZE == ELEMENT_SIZE * N * C;
  }

  /** In the reserved layout, page-aligned tables of a size that does not
      wrap when aligned are page aligned, disjoint and ordered, and each
      lies inside the file. */
  lemma TableOffsetsDisjoint(base: Uns32, size: Uns32, w: nat, x: nat, y: nat, L: nat)
    requires w <= 30 && size + Pow2(w) - 1 < TWO32 && Aligned(base, w)
    requires x < y && y < L
    ensures Aligned(TableOffset(base, x, size, w), w)
    ensures TableOffset(base, x, size, w) + size <= TableOffset(base, y, size, w)
    ensures TableOffset(base, y, size, w) + size <= TableOffset(base, L, size, w)
  {
    AlignUpLeast(size, w);
    AlignUpAligned(size, w);
    StrideSlots(base, AlignUp(size, w), size, w, x, y, L);
  }

  /** Slots of a >= size aligned bytes from an aligned base are aligned and
      do not overlap. */
  lemma StrideSlots(base: nat, a: nat, size: nat, w: nat, x: nat, y: nat, L: nat)
    requires size <= a && Aligned(a, w) && Aligned(base, w) && x < y < L
    ensures Aligned(base + x * a, w)
    ensures base + x * a + size <= base + y * a
    ensures base + y * a + size <= base + L * a
  {
    AlignedTimes(x, a, w);
    AlignedAdd(base, x * a, w);
    MulMono(x + 1, y, a);
    MulMono(y + 1, L, a);
    assert (x + 1) * a == x * a + a;
    assert (y + 1) * a == y * a + a;
  }

  /** The tables at the offsets the source computes overlap: with a 64-byte
      header, L = 3, k = 1, d = 1, N = C = 25 and 4096-byte pages, table 1
      starts at 12288, runs to 17288, and table 2 starts at 16384. */
  lemma TableOffsetsOverlapAsWritten()
    ensures HashTableOffset(64, 3, 1, 1, 12) == 4096 && HashTableSize(25, 25) == 5000
    ensures TableOffsetAsWritten(4096, 1, 5000, 12) == 12288
    ensures TableOffsetAsWritten(4096, 2, 5000, 12) == 16384
    ensures TableOffsetAsWritten(4096, 1, 5000, 12) + 5000 > TableOffsetAsWritten(4096, 2, 5000, 12)
    ensures TableOffset(4096, 1, 5000, 12) == 12288 && TableOffset(4096, 2, 5000, 12) == 20480
  {
    assert Pow2(12) == 4096;
    assert Wrap32(64 + 3 * 1 * FunctionBytes(1)) == 112;
    assert ClearLow(4207, 12) == 4096;
    assert ClearLow(13191, 12) == 12288;
    assert ClearLow(18191, 12) == 16384;
    assert ClearLow(9095, 12) == 8192;
  }

  // ---------------------------------------------------------------------
  // serial_can_merge

  /** The fields of SerialHeaderT that the merge test reads. */
  datatype Header = Header(flags: Uns32, binWidth: real, numTables: Uns32, numRows: Uns32,
                           numFuns: Uns32, dataDim: Uns32, elementSize: Uns32, radius: real)

  /** The in-core parameters of G compared against the header. */
  datatype Params = Params(w: real, L: Uns32, N: Uns32, k: Uns32, d: Uns32, radius: real)

  /** flags & bit on Uns32T. */
  predicate HasBit(flags: Uns32, bit: Uns32) {
    (flags as bv32) & (bit as bv32) != 0
  }

  /** C's logical negation of an unsigned value. */
  function Not(v: Uns32): Uns32 {
    if v == 0 then 1 else 0
  }

  /** The dimensions the core and the file must agree on. */
  predicate SameDimensions(p: Params, h: Header) {
    p.w == h.binWidth && p.L == h.numTables && p.N == h.numRows && p.k == h.numFuns
      && p.d == h.dataDim && h.elementSize == ELEMENT_SIZE && p.radius == h.radius
  }

  /** G::serial_can_merge as written: `!that->flags&O2_SERIAL_FILEFORMAT2`
      parses as `(!flags) & FORMAT2`. */
  predicate CanMergeAsWritten(p: Params, h: Header, format: Uns32) {
    !((format == FORMAT2 && HasBit(Not(h.flags), FORMAT2))
      || (format != FORMAT2 && HasBit(h.flags, FORMAT2))
      || !SameDimensions(p, h))
  }

  /** The intended test: the file holds the requested format and the same
      dimensions. */
  predicate CanMerge(p: Params, h: Header, format: Uns32) {
    (format == FORMAT2 <==> HasBit(h.flags, FORMAT2)) && SameDimensions(p, h)
  }

  /** (!flags) & 2 is 0 whatever flags is, so the as-written test never
      refuses a FORMAT2 merge for the file's format. */
  lemma NotFlagsNeverFormat2(flags: Uns32)
    ensures !HasBit(Not(flags), FORMAT2)
  {
    assert (0 as bv32) & (2 as bv32) == 0;
    assert (1 as bv32) & (2 as bv32) == 0;
  }

  /** What the as-written test accepts: any file of the right dimensions
      for FORMAT2, and a file without the FORMAT2 bit otherwise. */
  lemma CanMergeAsWrittenAccepts(p: Params, h: Header, format: Uns32)
    ensures CanMergeAsWritten(p, h, format)
        <==> SameDimensions(p, h) && (format != FORMAT2 ==> !HasBit(h.flags, FORMAT2))
  {
    NotFlagsNeverFormat2(h.flags);
  }

  /** The intended test accepts exactly what the as-written one accepts,
      minus FORMAT2 requests against a file without the FORMAT2 bit. */
  lemma CanMergeRefinesAsWritten(p: Params, h: Header, format: Uns32)
    ensures CanMerge(p, h, format)
        <==> CanMergeAsWritten(p, h, format) && (format == FORMAT2 ==> HasBit(h.flags, FORMAT2))
  {
    CanMergeAsWrittenAccepts(p, h, format);
  }

  /** A FORMAT2 merge into a FORMAT1 file of equal dimensions passes the
      as-written test but not the intended one. */
  lemma Format2IntoFormat1File()
    ensures var p := Params(1.0, 1, 1, 1, 1, 1.0);
      var h := Header(FORMAT1, 1.0, 1, 1, 1, 1, ELEMENT_SIZE, 1.0);
      CanMergeAsWritten(p, h, FORMAT2) && !CanMerge(p, h, FORMAT2)
  {
    NotFlagsNeverFormat2(FORMAT1);
    assert (1 as bv32) & (2 as bv32) == 0;
  }
}
