/** `arm_circularWrite_q15` and `arm_circularRead_q15`: block transfers into and out of a circular
    buffer of length `L`, with offsets that wrap, and a read destination that wraps too. */
module CircularBuffer {
  import opened Words

  const TWO16 := 0x1_0000

  // ----- Where the samples go -----

  /** One increment of a buffer offset: wraps at the top only. */
  function Next(offset: int, inc: int, L: int): int {
    var x := WrapInt32(offset + inc);
    if x >= L then WrapInt32(x - L) else x
  }

  function OffsetAfter(offset: int, inc: int, L: int, n: nat): int {
    if n == 0 then offset else Next(OffsetAfter(offset, inc, L, n - 1), inc, L)
  }

  /** One increment of a destination index: wraps only when it meets the end exactly. */
  function NextDst(d: int, inc: int, base: int, end: int): int {
    if d + inc == end then base else d + inc
  }

  function DstAfter(d: int, inc: int, base: int, end: int, n: nat): int {
    if n == 0 then d else NextDst(DstAfter(d, inc, base, end, n - 1), inc, base, end)
  }

  /** Every offset used by a block of `n` samples is inside the buffer. */
  ghost predicate OffsetsInside(offset: int, inc: int, L: int, n: nat) {
    forall i :: 0 <= i < n ==> 0 <= OffsetAfter(offset, inc, L, i) < L
  }

  ghost predicate DstInside(d: int, inc: int, base: int, end: int, n: nat, length: nat) {
    forall i :: 0 <= i < n ==> 0 <= DstAfter(d, inc, base, end, i) < length
  }

  /** The sources position of sample `i`. */
  function SrcPos(i: nat, srcInc: int): int {
    i * srcInc
  }

  ghost predicate SrcInside(src: seq<int>, srcInc: int, n: nat) {
    forall i: nat :: i < n ==> 0 <= SrcPos(i, srcInc) < |src|
  }

  ghost function Samples(src: seq<int>, srcInc: int, n: nat): seq<int>
    requires SrcInside(src, srcInc, n)
  {
    seq(n, i requires 0 <= i < n => src[SrcPos(i, srcInc)])
  }

  // ----- The contents after a block -----

  ghost function Written(buf: seq<int>, L: int, offset: int, inc: int, samples: seq<int>, n: nat): (r: seq<int>)
    requires L <= |buf| && n <= |samples| && OffsetsInside(offset, inc, L, n)
    ensures |r| == |buf|
  {
    if n == 0 then buf
    else Written(buf, L, offset, inc, samples, n - 1)[OffsetAfter(offset, inc, L, n - 1) := samples[n - 1]]
  }

  ghost function ReadInto(dst: seq<int>, d: int, dstInc: int, base: int, end: int,
                          buf: seq<int>, L: int, offset: int, inc: int, n: nat): (r: seq<int>)
    requires L <= |buf| && OffsetsInside(offset, inc, L, n) && DstInside(d, dstInc, base, end, n, |dst|)
    ensures |r| == |dst|
  {
    if n == 0 then dst
    else ReadInto(dst, d, dstInc, base, end, buf, L, offset, inc, n - 1)
           [DstAfter(d, dstInc, base, end, n - 1) := buf[OffsetAfter(offset, inc, L, n - 1)]]
  }

  // ----- The code -----

  /** The samples are `src[0], src[srcInc], src[2 * srcInc], ...`; the new offset is stored in 16 bits. */
  method CircularWriteQ15(circBuffer: array<int>, L: int, writeOffset: nat, bufferInc: int,
                          src: seq<int>, srcInc: int, blockSize: nat) returns (newOffset: int)
    requires L <= circBuffer.Length && OffsetsInside(writeOffset, bufferInc, L, blockSize)
    requires SrcInside(src, srcInc, blockSize)
    modifies circBuffer
    ensures circBuffer[..] == Written(old(circBuffer[..]), L, writeOffset, bufferInc,
                                      Samples(src, srcInc, blockSize), blockSize)
    ensures newOffset == OffsetAfter(writeOffset, bufferInc, L, blockSize) % TWO16
    ensures bufferInc == 1 && blockSize <= L && writeOffset < L < TWO31 ==>
              HoldsBlock(old(circBuffer[..]), circBuffer[..], L, writeOffset, src, srcInc, blockSize)
  {
    var wOffset: int, i: nat, srcPos := writeOffset, blockSize, 0;
    ghost var n: nat, samples := 0, Samples(src, srcInc, blockSize);
    SrcPosNext(0, srcInc);
    hide SrcPos, WrapInt32, HoldsBlock, Samples, SrcInside;
    while i > 0
      invariant i + n == blockSize && srcPos == SrcPos(n, srcInc)
      invariant OffsetsInside(writeOffset, bufferInc, L, n)
      invariant wOffset == OffsetAfter(writeOffset, bufferInc, L, n)
      invariant circBuffer[..] == Written(old(circBuffer[..]), L, writeOffset, bufferInc, samples, n)
    {
      assert 0 <= OffsetAfter(writeOffset, bufferInc, L, n) < L;
      SrcPosNext(n, srcInc);
      SampleOfSource(src, srcInc, blockSize, n);
      circBuffer[wOffset] := src[srcPos];
      srcPos := srcPos + srcInc;
      wOffset := WrapInt32(wOffset + bufferInc);
      if wOffset >= L {
        wOffset := WrapInt32(wOffset - L);
      }
      i := i - 1;
      n := n + 1;
    }
    newOffset := wOffset % TWO16;
    if bufferInc == 1 && blockSize <= L && writeOffset < L < TWO31 {
      UnitWriteHolds(old(circBuffer[..]), circBuffer[..], L, writeOffset, src, srcInc, blockSize);
    }
  }

  lemma SampleOfSource(src: seq<int>, srcInc: int, n: nat, i: nat)
    requires SrcInside(src, srcInc, n) && i < n
    ensures |Samples(src, srcInc, n)| == n
    ensures 0 <= SrcPos(i, srcInc) < |src| && Samples(src, srcInc, n)[i] == src[SrcPos(i, srcInc)]
  {
    hide SrcPos;
  }

  lemma SrcPosNext(i: nat, srcInc: int)
    ensures SrcPos(0, srcInc) == 0 && SrcPos(i + 1, srcInc) == SrcPos(i, srcInc) + srcInc
  {
  }

  /** `dstPos` and `dstBase` are positions of `dst`; the destination wraps to `dstBase` when it meets
      `dstBase + dstLength`. */
  method CircularReadQ15(circBuffer: array<int>, L: int, readOffset: int, bufferInc: int,
                         dst: array<int>, dstPos: int, dstBase: int, dstLength: int, dstInc: int,
                         blockSize: nat) returns (newOffset: int)
    requires circBuffer != dst
    requires L <= circBuffer.Length && OffsetsInside(readOffset, bufferInc, L, blockSize)
    requires DstInside(dstPos, dstInc, dstBase, dstBase + dstLength, blockSize, dst.Length)
    modifies dst
    ensures dst[..] == ReadInto(old(dst[..]), dstPos, dstInc, dstBase, dstBase + dstLength,
                                circBuffer[..], L, readOffset, bufferInc, blockSize)
    ensures newOffset == OffsetAfter(readOffset, bufferInc, L, blockSize)
  {
    hide WrapInt32;
    var rOffset, d := readOffset, dstPos;
    var dstEnd := dstBase + dstLength;
    var i: nat := blockSize;
    ghost var n: nat := 0;
    while i > 0
      invariant i + n == blockSize
      invariant OffsetsInside(readOffset, bufferInc, L, n)
      invariant DstInside(dstPos, dstInc, dstBase, dstEnd, n, dst.Length)
      invariant rOffset == OffsetAfter(readOffset, bufferInc, L, n)
      invariant d == DstAfter(dstPos, dstInc, dstBase, dstEnd, n)
      invariant dst[..] == ReadInto(old(dst[..]), dstPos, dstInc, dstBase, dstEnd,
                                    circBuffer[..], L, readOffset, bufferInc, n)
    {
      assert 0 <= OffsetAfter(readOffset, bufferInc, L, n) < L;
      assert 0 <= DstAfter(dstPos, dstInc, dstBase, dstEnd, n) < dst.Length;
      dst[d] := circBuffer[rOffset];
      d := d + dstInc;
      if d == dstEnd {
        d := dstBase;
      }
      rOffset := WrapInt32(rOffset + bufferInc);
      if rOffset >= L {
        rOffset := WrapInt32(rOffset - L);
      }
      i := i - 1;
      n := n + 1;
    }
    newOffset := rOffset;
  }

  // ----- Offsets -----

  lemma NextIsModular(x: nat, inc: int, L: int)
    requires 0 <= inc <= L && 0 < L && L + inc <= TWO31
    ensures Next(x % L, inc, L) == (x + inc) % L
  {
    hide WrapInt32;
    var q, r := x / L, x % L;
    if r + inc >= L {
      assert (q + 1) * L == q * L + L;
      ModUnique(x + inc, L, q + 1, r + inc - L);
    } else {
      ModUnique(x + inc, L, q, r + inc);
    }
  }

  /** Increments from 0 to `L` are modular addition, as long as no sum leaves 32 bits. */
  lemma {:induction false} OffsetIsModular(offset: int, inc: int, L: int, n: nat)
    requires 0 <= offset < L && 0 <= inc <= L && L + inc <= TWO31
    ensures 0 <= OffsetAfter(offset, inc, L, n) < L
    ensures OffsetAfter(offset, inc, L, n) == (offset + n * inc) % L
  {
    hide Next;
    if n == 0 {
      ModUnique(offset, L, 0, offset);
    } else {
      OffsetIsModular(offset, inc, L, n - 1);
      NextMultipleIsModular(offset, inc, L, n - 1);
    }
  }

  lemma NextMultipleIsModular(offset: int, inc: int, L: int, n: nat)
    requires 0 <= offset < L && 0 <= inc <= L && L + inc <= TWO31
    ensures Next((offset + n * inc) % L, inc, L) == (offset + (n + 1) * inc) % L
    ensures 0 <= (offset + (n + 1) * inc) % L < L
  {
    var t := n * inc;
    assert (n + 1) * inc == t + inc;
    NextIsModular(offset + t, inc, L);
  }

  lemma OffsetsStayInside(offset: int, inc: int, L: int, n: nat)
    requires 0 <= offset < L && 0 <= inc <= L && L + inc <= TWO31
    ensures OffsetsInside(offset, inc, L, n)
  {
    forall i | 0 <= i < n ensures 0 <= OffsetAfter(offset, inc, L, i) < L {
      OffsetIsModular(offset, inc, L, i);
    }
  }

  /** A negative increment, or one above `L`, drifts by at least one position a sample while the
      offset is inside; an increment above `L` may also overflow to a negative offset. */
  lemma {:induction false} OffsetDrifts(offset: int, inc: int, L: int, n: nat)
    requires 0 <= offset < L <= TWO31 && Int32(inc) && OffsetsInside(offset, inc, L, n)
    ensures inc < 0 ==> OffsetAfter(offset, inc, L, n) <= offset - n
    ensures inc > L ==> OffsetAfter(offset, inc, L, n) >= offset + n || OffsetAfter(offset, inc, L, n) < 0
  {
    if n == 0 {
    } else {
      hide Next;
      OffsetDrifts(offset, inc, L, n - 1);
      assert 0 <= OffsetAfter(offset, inc, L, n - 1) < L;
      NextDrifts(OffsetAfter(offset, inc, L, n - 1), inc, L);
    }
  }

  lemma NextDrifts(x: int, inc: int, L: int)
    requires 0 <= x < L <= TWO31 && Int32(inc)
    ensures inc < 0 ==> Next(x, inc, L) <= x - 1
    ensures inc > L ==> Next(x, inc, L) >= x + 1 || Next(x, inc, L) < 0
  {
  }

  /** Blocks of every length stay inside a buffer of up to `2^30` samples exactly for increments from
      0 to `L`; in particular not for negative ones. In a longer one the sum of an offset and an
      increment up to `L` can overflow. */
  lemma AlwaysInsideIff(offset: int, inc: int, L: int)
    requires 0 <= offset < L && 2 * L <= TWO31 && Int32(inc)
    ensures (forall n: nat :: OffsetsInside(offset, inc, L, n)) <==> 0 <= inc <= L
  {
    if 0 <= inc <= L {
      forall n: nat ensures OffsetsInside(offset, inc, L, n) {
        OffsetsStayInside(offset, inc, L, n);
      }
    } else {
      if OffsetsInside(offset, inc, L, L + 1) {
        assert 0 <= OffsetAfter(offset, inc, L, L) < L;
        OffsetDrifts(offset, inc, L, L);
        assert false;
      }
    }
  }

  // ----- Destinations -----

  lemma {:induction false} DstStays(d: int, inc: int, base: int, end: int, n: nat)
    requires base <= d < end && inc > 0 && (end - d) % inc == 0 && (end - base) % inc == 0
    ensures base <= DstAfter(d, inc, base, end, n) < end
    ensures (end - DstAfter(d, inc, base, end, n)) % inc == 0
  {
    if n == 0 {
    } else {
      DstStays(d, inc, base, end, n - 1);
      OneFewer(end - DstAfter(d, inc, base, end, n - 1), inc);
    }
  }

  lemma OneFewer(x: int, m: int)
    requires m > 0 && x > 0 && x % m == 0
    ensures x >= m && (x - m) % m == 0
  {
    var q := x / m;
    assert (q - 1) * m == x - m;
    ModUnique(x - m, m, q - 1, 0);
  }

  lemma {:induction false} DstBeforeEnd(d: int, inc: int, base: int, end: int, n: nat)
    requires inc > 0 && ((end - d) % inc != 0 || d + n * inc < end)
    ensures DstAfter(d, inc, base, end, n) == d + n * inc
  {
    if n == 0 {
    } else {
      assert n * inc == (n - 1) * inc + inc;
      DstBeforeEnd(d, inc, base, end, n - 1);
      if d + n * inc == end {
        ModUnique(end - d, inc, n, 0);
      }
    }
  }

  lemma {:induction false} DstCompose(d: int, inc: int, base: int, end: int, m: nat, n: nat)
    ensures DstAfter(d, inc, base, end, m + n) == DstAfter(DstAfter(d, inc, base, end, m), inc, base, end, n)
  {
    if n == 0 {
    } else {
      DstCompose(d, inc, base, end, m, n - 1);
    }
  }

  lemma DstMeetsEnd(d: int, inc: int, base: int, end: int) returns (q: nat)
    requires d < end && inc > 0 && (end - d) % inc == 0
    ensures DstAfter(d, inc, base, end, q) == base
  {
    q := (end - d) / inc;
    assert d + q * inc == end && (q - 1) * inc == q * inc - inc;
    DstBeforeEnd(d, inc, base, end, q - 1);
  }

  lemma DstPassesEnd(d: int, inc: int, base: int, end: int) returns (n: nat)
    requires d < end && inc > 0 && (end - d) % inc != 0
    ensures DstAfter(d, inc, base, end, n) >= end
  {
    n := end - d;
    DstBeforeEnd(d, inc, base, end, n);
    TimesMonotone(1, inc, n);
    assert n * inc == inc * n;
  }

  /** A destination wraps only when it meets its end exactly: it stays inside for blocks of every length
      exactly when the increment divides the distance to the end both from where it starts and
      from the base. */
  lemma DstAlwaysInsideIff(d: int, inc: int, base: int, end: int)
    requires base <= d < end && inc > 0
    ensures (forall n: nat :: base <= DstAfter(d, inc, base, end, n) < end) <==>
              (end - d) % inc == 0 && (end - base) % inc == 0
  {
    if (end - d) % inc == 0 && (end - base) % inc == 0 {
      forall n: nat ensures base <= DstAfter(d, inc, base, end, n) < end {
        DstStays(d, inc, base, end, n);
      }
    } else if (end - d) % inc != 0 {
      var n := DstPassesEnd(d, inc, base, end);
    } else {
      var q := DstMeetsEnd(d, inc, base, end);
      var n := DstPassesEnd(base, inc, base, end);
      DstCompose(d, inc, base, end, q, n);
    }
  }

  // ----- Contents -----

  /** A slot holds the last sample written to it. */
  lemma {:induction false} WrittenHolds(buf: seq<int>, L: int, offset: int, inc: int, samples: seq<int>, n: nat, i: nat)
    requires L <= |buf| && n <= |samples| && OffsetsInside(offset, inc, L, n)
    requires i < n && forall j :: i < j < n ==> OffsetAfter(offset, inc, L, j) != OffsetAfter(offset, inc, L, i)
    ensures Written(buf, L, offset, inc, samples, n)[OffsetAfter(offset, inc, L, i)] == samples[i]
  {
    if i == n - 1 {
    } else {
      WrittenHolds(buf, L, offset, inc, samples, n - 1, i);
    }
  }

  /** Slots that no offset of the block names keep their contents. */
  lemma {:induction false} WrittenElsewhere(buf: seq<int>, L: int, offset: int, inc: int,
                                            samples: seq<int>, n: nat, p: nat)
    requires L <= |buf| && n <= |samples| && OffsetsInside(offset, inc, L, n)
    requires p < |buf| && forall j :: 0 <= j < n ==> OffsetAfter(offset, inc, L, j) != p
    ensures Written(buf, L, offset, inc, samples, n)[p] == buf[p]
  {
    if n == 0 {
    } else {
      WrittenElsewhere(buf, L, offset, inc, samples, n - 1, p);
    }
  }

  lemma {:induction false} ReadHolds(dst: seq<int>, d: int, dstInc: int, base: int, end: int,
                                     buf: seq<int>, L: int, offset: int, inc: int, n: nat, i: nat)
    requires L <= |buf| && OffsetsInside(offset, inc, L, n) && DstInside(d, dstInc, base, end, n, |dst|)
    requires i < n && forall j :: i < j < n ==> DstAfter(d, dstInc, base, end, j) != DstAfter(d, dstInc, base, end, i)
    ensures ReadInto(dst, d, dstInc, base, end, buf, L, offset, inc, n)[DstAfter(d, dstInc, base, end, i)]
            == buf[OffsetAfter(offset, inc, L, i)]
  {
    if i == n - 1 {
    } else {
      ReadHolds(dst, d, dstInc, base, end, buf, L, offset, inc, n - 1, i);
    }
  }

  /** Positions that no sample of the block goes to keep their contents. */
  lemma {:induction false} ReadElsewhere(dst: seq<int>, d: int, dstInc: int, base: int, end: int,
                                         buf: seq<int>, L: int, offset: int, inc: int, n: nat, p: nat)
    requires L <= |buf| && OffsetsInside(offset, inc, L, n) && DstInside(d, dstInc, base, end, n, |dst|)
    requires p < |dst| && forall j :: 0 <= j < n ==> DstAfter(d, dstInc, base, end, j) != p
    ensures ReadInto(dst, d, dstInc, base, end, buf, L, offset, inc, n)[p] == dst[p]
  {
    if n == 0 {
    } else {
      ReadElsewhere(dst, d, dstInc, base, end, buf, L, offset, inc, n - 1, p);
    }
  }

  ghost predicate DistinctOffsets(offset: int, inc: int, L: int, n: nat) {
    forall i, j :: 0 <= i < j < n ==> OffsetAfter(offset, inc, L, j) != OffsetAfter(offset, inc, L, i)
  }

  ghost predicate DistinctDst(d: int, inc: int, base: int, end: int, n: nat) {
    forall i, j :: 0 <= i < j < n ==> DstAfter(d, inc, base, end, j) != DstAfter(d, inc, base, end, i)
  }

  /** Writing a block and reading it back from the old offset returns its samples in order, for all
      increments with which neither the block nor its destination meets itself. */
  lemma RoundTrip(buf: seq<int>, L: int, offset: int, inc: int, samples: seq<int>, n: nat,
                  dst: seq<int>, d: int, dstInc: int, base: int, end: int, i: nat)
    requires L <= |buf| && n <= |samples|
    requires OffsetsInside(offset, inc, L, n) && DstInside(d, dstInc, base, end, n, |dst|)
    requires DistinctOffsets(offset, inc, L, n) && DistinctDst(d, dstInc, base, end, n) && i < n
    ensures var written := Written(buf, L, offset, inc, samples, n);
            ReadInto(dst, d, dstInc, base, end, written, L, offset, inc, n)[DstAfter(d, dstInc, base, end, i)]
            == samples[i]
  {
    WrittenHolds(buf, L, offset, inc, samples, n, i);
    ReadHolds(dst, d, dstInc, base, end, Written(buf, L, offset, inc, samples, n), L, offset, inc, n, i);
  }

  // ----- Unit increments -----

  lemma NearbyDiffer(a: nat, b: nat, m: nat)
    requires a < b < a + m
    ensures a % m != b % m
  {
    if a % m == b % m {
      var p, q := a / m, b / m;
      assert (q - p) * m == b - a;
      if q > p {
        TimesAtLeast(q - p, m);
      }
    }
  }

  lemma UnitOffsetsDiffer(offset: int, L: int, i: nat, j: nat)
    requires 0 <= offset < L < TWO31 && i < j < i + L
    ensures OffsetAfter(offset, 1, L, j) != OffsetAfter(offset, 1, L, i)
  {
    OffsetIsModular(offset, 1, L, i);
    OffsetIsModular(offset, 1, L, j);
    NearbyDiffer(offset + i, offset + j, L);
  }

  lemma UnitOffsetsDistinct(offset: int, L: int, n: nat)
    requires 0 <= offset < L < TWO31 && n <= L
    ensures OffsetsInside(offset, 1, L, n) && DistinctOffsets(offset, 1, L, n)
  {
    OffsetsStayInside(offset, 1, L, n);
    forall i, j | 0 <= i < j < n ensures OffsetAfter(offset, 1, L, j) != OffsetAfter(offset, 1, L, i) {
      UnitOffsetsDiffer(offset, L, i, j);
    }
  }

  /** The destination of a unit-increment read walks round `base..end`. */
  lemma {:induction false} UnitDstIsOffset(d: int, base: int, end: int, n: nat)
    requires base <= d < end && end - base < TWO31
    ensures DstAfter(d, 1, base, end, n) == base + OffsetAfter(d - base, 1, end - base, n)
    ensures base <= DstAfter(d, 1, base, end, n) < end
  {
    if n == 0 {
    } else {
      UnitDstIsOffset(d, base, end, n - 1);
    }
  }

  lemma UnitDstDistinct(d: int, base: int, end: int, n: nat, length: nat)
    requires 0 <= base <= d < end <= length && n <= end - base < TWO31
    ensures DstInside(d, 1, base, end, n, length) && DistinctDst(d, 1, base, end, n)
  {
    UnitOffsetsDistinct(d - base, end - base, n);
    forall i | 0 <= i < n ensures 0 <= DstAfter(d, 1, base, end, i) < length {
      UnitDstIsOffset(d, base, end, i);
    }
    forall i, j | 0 <= i < j < n ensures DstAfter(d, 1, base, end, j) != DstAfter(d, 1, base, end, i) {
      UnitDstIsOffset(d, base, end, i);
      UnitDstIsOffset(d, base, end, j);
    }
  }

  /** Unit increments, a block that fits the buffer and a destination that fits the block: sample `i`
      arrives `i` places round the destination, both offsets end at `(offset + n) mod L`, and for
      buffers of up to `2^16` samples the 16-bit write offset loses nothing. */
  lemma UnitRoundTrip(buf: seq<int>, L: int, offset: int, src: seq<int>, n: nat,
                      dst: seq<int>, d: int, base: int, end: int, i: nat)
    requires 0 <= offset < L <= |buf| && n <= L < TWO31 && n <= |src|
    requires 0 <= base <= d < end <= |dst| && n <= end - base < TWO31 && i < n
    ensures OffsetsInside(offset, 1, L, n) && DstInside(d, 1, base, end, n, |dst|)
    ensures var written := Written(buf, L, offset, 1, src, n);
            ReadInto(dst, d, 1, base, end, written, L, offset, 1, n)[DstAfter(d, 1, base, end, i)] == src[i]
    ensures DstAfter(d, 1, base, end, i) == base + (d - base + i) % (end - base)
    ensures OffsetAfter(offset, 1, L, n) == (offset + n) % L
    ensures L <= TWO16 ==> OffsetAfter(offset, 1, L, n) % TWO16 == OffsetAfter(offset, 1, L, n)
  {
    UnitOffsetsDistinct(offset, L, n);
    UnitDstDistinct(d, base, end, n, |dst|);
    RoundTrip(buf, L, offset, 1, src, n, dst, d, 1, base, end, i);
    UnitPositions(offset, L, n, d, base, end, i);
  }

  /** Slot `(offset + i) mod L` of a buffer holds source element `i * srcInc`, for all `n` samples of a
      block, and all other slots are as before. */
  ghost predicate HoldsBlock(before: seq<int>, after: seq<int>, L: int, offset: int, src: seq<int>, srcInc: int, n: nat)
    requires 0 < L <= |after| && 0 <= offset
  {
    && |after| == |before|
    && (forall i: nat :: i < n ==>
          0 <= i * srcInc < |src| && after[(offset + i) % L] == src[i * srcInc])
    && (forall k :: 0 <= k < |after| && !InBlock(L, offset, n, k) ==> after[k] == before[k])
  }

  ghost predicate InBlock(L: int, offset: int, n: nat, k: int)
    requires L > 0
  {
    k < L && (k - offset) % L < n
  }

  lemma UnitSampleStored(before: seq<int>, L: int, offset: int, src: seq<int>, srcInc: int, n: nat, i: nat)
    requires 0 <= offset < L <= |before| && i < n <= L < TWO31 && SrcInside(src, srcInc, n)
    requires OffsetsInside(offset, 1, L, n)
    ensures 0 <= i * srcInc < |src|
    ensures Written(before, L, offset, 1, Samples(src, srcInc, n), n)[(offset + i) % L] == src[i * srcInc]
  {
    UnitOffsetsDistinct(offset, L, n);
    OffsetIsModular(offset, 1, L, i);
    assert 0 <= SrcPos(i, srcInc) < |src| && SrcPos(i, srcInc) == i * srcInc;
    assert Samples(src, srcInc, n)[i] == src[i * srcInc];
    hide OffsetAfter, Written, Samples, SrcInside;
    WrittenHolds(before, L, offset, 1, Samples(src, srcInc, n), n, i);
  }

  /** Slot `k` is the one of sample `i` only if `i` is its distance from the offset. */
  lemma BlockIndex(L: int, offset: int, n: nat, i: nat, k: int)
    requires 0 <= offset < L && i < n <= L && k == (offset + i) % L
    ensures InBlock(L, offset, n, k)
  {
    if offset + i < L {
      ModUnique(offset + i, L, 0, offset + i);
      ModUnique(k - offset, L, 0, i);
    } else {
      ModUnique(offset + i, L, 1, offset + i - L);
      ModUnique(k - offset, L, -1, i);
    }
  }

  lemma UnitSlotUntouched(before: seq<int>, L: int, offset: int, samples: seq<int>, n: nat, k: nat)
    requires 0 <= offset < L <= |before| && n <= |samples| && n <= L < TWO31 && OffsetsInside(offset, 1, L, n)
    requires k < |before| && !InBlock(L, offset, n, k)
    ensures Written(before, L, offset, 1, samples, n)[k] == before[k]
  {
    hide InBlock;
    forall i | 0 <= i < n ensures OffsetAfter(offset, 1, L, i) != k {
      OffsetIsModular(offset, 1, L, i);
      BlockIndex(L, offset, n, i, OffsetAfter(offset, 1, L, i));
    }
    WrittenElsewhere(before, L, offset, 1, samples, n, k);
  }

  /** What a block of unit increments that fits the buffer leaves in it. */
  lemma UnitWriteHolds(before: seq<int>, after: seq<int>, L: int, offset: int, src: seq<int>, srcInc: int, n: nat)
    requires 0 <= offset < L <= |before| && n <= L < TWO31 && SrcInside(src, srcInc, n)
    requires OffsetsInside(offset, 1, L, n) && |after| == |before|
    requires after == Written(before, L, offset, 1, Samples(src, srcInc, n), n)
    ensures HoldsBlock(before, after, L, offset, src, srcInc, n)
  {
    var samples := Samples(src, srcInc, n);
    hide OffsetsInside, OffsetAfter, InBlock, Samples, SrcInside, Written;
    forall i: nat | i < n ensures 0 <= i * srcInc < |src| && after[(offset + i) % L] == src[i * srcInc] {
      UnitSampleStored(before, L, offset, src, srcInc, n, i);
    }
    forall k | 0 <= k < |after| && !InBlock(L, offset, n, k) ensures after[k] == before[k] {
      UnitSlotUntouched(before, L, offset, samples, n, k);
    }
  }

  /** What reading such a block back with unit increments leaves in the destination. */
  lemma UnitReadHolds(before: seq<int>, after: seq<int>, d: int, base: int, end: int,
                      buf0: seq<int>, buf: seq<int>, L: int, offset: int, src: seq<int>, srcInc: int, n: nat)
    requires 0 <= offset < L <= |buf| && n <= L < TWO31 && HoldsBlock(buf0, buf, L, offset, src, srcInc, n)
    requires 0 <= base <= d < end <= |before| && n <= end - base < TWO31
    requires OffsetsInside(offset, 1, L, n) && DstInside(d, 1, base, end, n, |before|)
    requires after == ReadInto(before, d, 1, base, end, buf, L, offset, 1, n)
    ensures |after| == |before| && after[..base] == before[..base] && after[end..] == before[end..]
    ensures HoldsBlock(before[base..end], after[base..end], end - base, d - base, src, srcInc, n)
  {
    hide OffsetsInside, DstInside, OffsetAfter, DstAfter, InBlock, ReadInto, HoldsBlock, SrcPos;
    var size := end - base;
    forall i: nat | i < n
      ensures 0 <= i * srcInc < |src| && after[base..end][(d - base + i) % size] == src[i * srcInc]
    {
      UnitSampleArrives(before, d, base, end, buf0, buf, L, offset, src, srcInc, n, i);
    }
    forall p | 0 <= p < |before| && !(base <= p < end && InBlock(size, d - base, n, p - base))
      ensures after[p] == before[p]
    {
      UnitPositionUntouched(before, d, base, end, buf, L, offset, n, p);
    }
    HoldsBlockIntro(before[base..end], after[base..end], size, d - base, src, srcInc, n);
  }

  lemma HoldsBlockIntro(before: seq<int>, after: seq<int>, L: int, offset: int, src: seq<int>, srcInc: int, n: nat)
    requires 0 < L <= |after| && 0 <= offset && |after| == |before|
    requires forall i: nat :: i < n ==>
               0 <= i * srcInc < |src| && after[(offset + i) % L] == src[i * srcInc]
    requires forall k :: 0 <= k < |after| && !InBlock(L, offset, n, k) ==> after[k] == before[k]
    ensures HoldsBlock(before, after, L, offset, src, srcInc, n)
  {
  }

  lemma UnitSampleArrives(dst: seq<int>, d: int, base: int, end: int, buf0: seq<int>, buf: seq<int>, L: int,
                          offset: int, src: seq<int>, srcInc: int, n: nat, i: nat)
    requires 0 <= offset < L <= |buf| && i < n <= L < TWO31 && HoldsBlock(buf0, buf, L, offset, src, srcInc, n)
    requires 0 <= base <= d < end <= |dst| && n <= end - base < TWO31
    requires OffsetsInside(offset, 1, L, n) && DstInside(d, 1, base, end, n, |dst|)
    ensures 0 <= i * srcInc < |src|
    ensures ReadInto(dst, d, 1, base, end, buf, L, offset, 1, n)[base + (d - base + i) % (end - base)] ==
            src[i * srcInc]
  {
    assert SrcPos(i, srcInc) == i * srcInc;
    assert 0 <= i * srcInc < |src| && buf[(offset + i) % L] == src[i * srcInc];
    hide HoldsBlock, SrcPos;
    UnitDstDistinct(d, base, end, n, |dst|);
    UnitPositions(offset, L, i, d, base, end, i);
    hide OffsetAfter, DstAfter, ReadInto;
    ReadHolds(dst, d, 1, base, end, buf, L, offset, 1, n, i);
  }

  lemma UnitPositionUntouched(dst: seq<int>, d: int, base: int, end: int, buf: seq<int>, L: int, offset: int,
                              n: nat, p: nat)
    requires 0 <= offset < L <= |buf| && n <= L < TWO31
    requires 0 <= base <= d < end <= |dst| && n <= end - base < TWO31
    requires OffsetsInside(offset, 1, L, n) && DstInside(d, 1, base, end, n, |dst|)
    requires p < |dst| && !(base <= p < end && InBlock(end - base, d - base, n, p - base))
    ensures ReadInto(dst, d, 1, base, end, buf, L, offset, 1, n)[p] == dst[p]
  {
    hide InBlock, ReadInto;
    forall i | 0 <= i < n ensures DstAfter(d, 1, base, end, i) != p {
      UnitPositions(offset, L, i, d, base, end, i);
      BlockIndex(end - base, d - base, n, i, (d - base + i) % (end - base));
    }
    hide DstAfter;
    ReadElsewhere(dst, d, 1, base, end, buf, L, offset, 1, n, p);
  }

  /** Writing a block and reading it from the old offset, on the arrays: source element `i * srcInc`
      arrives `i` places round the destination, nothing else in it changes, and the read offset
      ends where the next block will be written. */
  method WriteThenRead(circBuffer: array<int>, L: int, offset: nat, src: seq<int>, srcInc: int,
                       dst: array<int>, dstPos: int, dstBase: int, dstLength: int, n: nat)
    returns (newWrite: int, newRead: int)
    requires circBuffer != dst && offset < L <= circBuffer.Length && n <= L < TWO31
    requires SrcInside(src, srcInc, n)
    requires 0 <= dstBase <= dstPos < dstBase + dstLength <= dst.Length && n <= dstLength < TWO31
    modifies circBuffer, dst
    ensures var end := dstBase + dstLength;
            && HoldsBlock(old(dst[dstBase..end]), dst[dstBase..end], dstLength, dstPos - dstBase, src, srcInc, n)
            && dst[..dstBase] == old(dst[..dstBase]) && dst[end..] == old(dst[end..])
    ensures newRead == (offset + n) % L && newWrite == newRead % TWO16
  {
    hide HoldsBlock, SrcInside, OffsetAfter, DstAfter, OffsetsInside, DstInside;
    UnitOffsetsDistinct(offset, L, n);
    UnitDstDistinct(dstPos, dstBase, dstBase + dstLength, n, dst.Length);
    UnitPositions(offset, L, n, dstPos, dstBase, dstBase + dstLength, 0);
    newWrite := CircularWriteQ15(circBuffer, L, offset, 1, src, srcInc, n);
    newRead := CircularReadQ15(circBuffer, L, offset, 1, dst, dstPos, dstBase, dstLength, 1, n);
    UnitReadHolds(old(dst[..]), dst[..], dstPos, dstBase, dstBase + dstLength,
                  old(circBuffer[..]), circBuffer[..], L, offset, src, srcInc, n);
    assert old(dst[..])[dstBase..dstBase + dstLength] == old(dst[dstBase..dstBase + dstLength]);
    assert dst[..][dstBase..dstBase + dstLength] == dst[dstBase..dstBase + dstLength];
  }

  lemma UnitPositions(offset: int, L: int, n: nat, d: int, base: int, end: int, i: nat)
    requires 0 <= offset < L < TWO31 && base <= d < end && end - base < TWO31
    ensures DstAfter(d, 1, base, end, i) == base + (d - base + i) % (end - base)
    ensures OffsetAfter(offset, 1, L, n) == (offset + n) % L
    ensures L <= TWO16 ==> OffsetAfter(offset, 1, L, n) % TWO16 == OffsetAfter(offset, 1, L, n)
  {
    UnitDstIsOffset(d, base, end, i);
    OffsetIsModular(d - base, 1, end - base, i);
    OffsetIsModular(offset, 1, L, n);
    if L <= TWO16 {
      ModUnique(OffsetAfter(offset, 1, L, n), TWO16, 0, OffsetAfter(offset, 1, L, n));
    }
  }

  /** The write offset is stored in 16 bits: after blocks of every length, from every offset that can
      be stored, it is where the block ended exactly for buffers of up to `2^16` samples. */
  lemma StoredOffsetIsExactIff(L: int)
    requires 0 < L < TWO31
    ensures (forall offset: nat, n: nat :: offset < L && offset < TWO16 ==>
               OffsetAfter(offset, 1, L, n) % TWO16 == (offset + n) % L)
       <==> L <= TWO16
  {
    if L <= TWO16 {
      forall offset: nat, n: nat | offset < L && offset < TWO16
        ensures OffsetAfter(offset, 1, L, n) % TWO16 == (offset + n) % L
      {
        OffsetIsModular(offset, 1, L, n);
        ModUnique(OffsetAfter(offset, 1, L, n), TWO16, 0, OffsetAfter(offset, 1, L, n));
      }
    } else {
      StoredOffsetIsLost(L);
    }
  }

  /** One sample written at the last offset that can be stored sends the offset back to 0. */
  lemma StoredOffsetIsLost(L: int)
    requires TWO16 < L < TWO31
    ensures OffsetAfter(TWO16 - 1, 1, L, 1) % TWO16 == 0 && (TWO16 - 1 + 1) % L == TWO16
  {
    ModUnique(TWO16, L, 0, TWO16);
    assert OffsetAfter(TWO16 - 1, 1, L, 0) == TWO16 - 1;
  }

  /** A block longer than the buffer leaves the last `L` samples, each in its own slot. */
  lemma LastSamplesSurvive(buf: seq<int>, L: int, offset: int, src: seq<int>, i: nat)
    requires 0 <= offset < L <= |buf| && L < TWO31 && i < |src| <= i + L
    ensures OffsetsInside(offset, 1, L, |src|)
    ensures 0 <= OffsetAfter(offset, 1, L, i) < L
    ensures Written(buf, L, offset, 1, src, |src|)[OffsetAfter(offset, 1, L, i)] == src[i]
  {
    OffsetsStayInside(offset, 1, L, |src|);
    assert 0 <= OffsetAfter(offset, 1, L, i) < L;
    hide OffsetAfter, Written;
    forall j | i < j < |src| ensures OffsetAfter(offset, 1, L, j) != OffsetAfter(offset, 1, L, i) {
      UnitOffsetsDiffer(offset, L, i, j);
    }
    WrittenHolds(buf, L, offset, 1, src, |src|, i);
  }

  ghost predicate AllReadBack(buf: seq<int>, L: int, offset: int, src: seq<int>)
    requires 0 <= offset < L <= |buf| && L < TWO31
  {
    && OffsetsInside(offset, 1, L, |src|)
    && forall i :: 0 <= i < |src| ==> Written(buf, L, offset, 1, src, |src|)[OffsetAfter(offset, 1, L, i)] == src[i]
  }

  /** Whatever the samples are, all of a block can be read back exactly when it is no longer than
      the buffer. */
  lemma CapacityIsExact(buf: seq<int>, L: int, offset: int, n: nat)
    requires 0 <= offset < L <= |buf| && L < TWO31
    ensures (forall src: seq<int> :: |src| == n ==> AllReadBack(buf, L, offset, src)) <==> n <= L
  {
    if n <= L {
      forall src: seq<int> | |src| == n ensures AllReadBack(buf, L, offset, src) {
        OffsetsStayInside(offset, 1, L, n);
        forall i | 0 <= i < n ensures Written(buf, L, offset, 1, src, n)[OffsetAfter(offset, 1, L, i)] == src[i] {
          LastSamplesSurvive(buf, L, offset, src, i);
        }
      }
    } else {
      FirstSampleIsLost(buf, L, offset, n);
    }
  }

  lemma FirstSampleIsLost(buf: seq<int>, L: int, offset: int, n: nat)
    requires 0 <= offset < L <= |buf| && L < TWO31 && L < n
    ensures exists src: seq<int> :: |src| == n && !AllReadBack(buf, L, offset, src)
  {
    var src := seq(n, i => if i < L then 0 else 1);
    var q := (n - 1) / L;
    var j := q * L;
    TimesAtLeast(q, L);
    LastSamplesSurvive(buf, L, offset, src, j);
    OffsetIsModular(offset, 1, L, j);
    ModUnique(offset + j, L, q, offset);
    assert OffsetAfter(offset, 1, L, j) == OffsetAfter(offset, 1, L, 0);
    assert src[0] != src[j];
    assert !AllReadBack(buf, L, offset, src);
  }
}
