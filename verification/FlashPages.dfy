/** Flash memory in erasable pages: what raw erases and writes do, the rounding rule behind
    `bootloader_eraseWriteStorage`, and what a stream of such calls leaves in the flash. */
module FlashPages {
  import opened Words

  type byte = bv8

  const OK := 0
  const ERROR_INIT_STORAGE := 0x0101
  const ERROR_INIT_TABLE := 0x0102
  const ERROR_STORAGE_INVALID_SLOT := 0x0401
  const ERROR_STORAGE_INVALID_ADDRESS := 0x0402
  const ERROR_STORAGE_CONTINUE := 0x0407

  // ----- The raw device -----

  datatype RawOp = Erase(address: nat, length: nat) | Write(address: nat, length: nat) {
    predicate Covers(b: int) {
      address <= b < address + length
    }
  }

  /** The flash contents and the raw operations that succeeded so far. */
  datatype Device = Device(flash: seq<byte>, log: seq<RawOp>)

  /** How a raw operation ends: it completes, or it fails with some code and may leave anything
      in the bytes it was working on. */
  datatype Outcome = Done | Failed(code: int, wreck: seq<byte>) {
    predicate Legal(length: nat) {
      Failed? ==> code != OK && |wreck| == length
    }
  }

  function Erased(flash: seq<byte>, a: nat, n: nat): seq<byte> {
    seq(|flash|, i requires 0 <= i < |flash| => if a <= i < a + n then 0xFF else flash[i])
  }

  /** Programming can only clear bits. */
  function Programmed(flash: seq<byte>, a: nat, data: seq<byte>): seq<byte> {
    seq(|flash|, i requires 0 <= i < |flash| => if a <= i < a + |data| then flash[i] & data[i - a] else flash[i])
  }

  function Wrecked(flash: seq<byte>, a: nat, wreck: seq<byte>): seq<byte> {
    seq(|flash|, i requires 0 <= i < |flash| => if a <= i < a + |wreck| then wreck[i - a] else flash[i])
  }

  function RawErase(d: Device, a: nat, n: nat, o: Outcome): (Device, int) {
    if a + n > |d.flash| then (d, ERROR_STORAGE_INVALID_ADDRESS)
    else match o
         case Done => (Device(Erased(d.flash, a, n), d.log + [Erase(a, n)]), OK)
         case Failed(code, wreck) => (d.(flash := Wrecked(d.flash, a, wreck)), code)
  }

  function RawWrite(d: Device, a: nat, data: seq<byte>, o: Outcome): (Device, int) {
    if a + |data| > |d.flash| then (d, ERROR_STORAGE_INVALID_ADDRESS)
    else match o
         case Done => (Device(Programmed(d.flash, a, data), d.log + [Write(a, |data|)]), OK)
         case Failed(code, wreck) => (d.(flash := Wrecked(d.flash, a, wreck)), code)
  }


  // ----- The rounding rule -----

  /** The first page boundary at or after `x`. */
  function Ceil(x: nat, p: nat): nat
    requires p > 0
  {
    if x % p == 0 then x else x - x % p + p
  }

  lemma CeilIsFirstBoundary(x: nat, p: nat, y: nat)
    requires p > 0
    ensures x <= Ceil(x, p) < x + p && Ceil(x, p) % p == 0
    ensures x <= y && y % p == 0 ==> Ceil(x, p) <= y
  {
    var q := x / p;
    assert x == q * p + x % p;
    if x % p != 0 {
      assert Ceil(x, p) == (q + 1) * p + 0;
      ModUnique(Ceil(x, p), p, q + 1, 0);
      if x <= y && y % p == 0 && y < Ceil(x, p) {
        ModUnique(y, p, q, y - q * p);
      }
    }
  }

  lemma CeilMonotone(x: nat, y: nat, p: nat)
    requires p > 0 && x <= y
    ensures Ceil(x, p) <= Ceil(y, p)
  {
    CeilIsFirstBoundary(y, p, y);
    CeilIsFirstBoundary(x, p, Ceil(y, p));
  }

  /** The mask `x & ~(p - 1)` that the code rounds with clears the remainder when the page size
      is a power of two... */
  lemma MaskRoundsDown(x: nat, p: nat)
    requires x < U32 && 0 < p <= U32 && IsPow2(p)
    ensures And(x, Not(p - 1)) == x - x % p
  {
    var k: nat :| p == Pow2(k);
    Pow2Of32();
    if k > 32 {
      Pow2Monotone(33, k);
    }
    AndHighBits(x, 32, k);
  }

  /** ... and for no other page size does it do so for every address. */
  lemma MaskRoundsDownIffPow2(p: nat)
    requires 0 < p < U32
    ensures (forall x: nat :: x < U32 ==> And(x, Not(p - 1)) == x - x % p) <==> IsPow2(p)
  {
    Pow2Of32();
    if forall x: nat :: x < U32 ==> And(x, Not(p - 1)) == x - x % p {
      AndNegation(p, 32);
      assert And(p, Not(p - 1)) == p - p % p;
    }
    if IsPow2(p) {
      forall x: nat | x < U32 ensures And(x, Not(p - 1)) == x - x % p {
        MaskRoundsDown(x, p);
      }
    }
  }

  /** Where the erase that goes with a write ends. */
  function EraseEnd(offset: nat, length: nat, p: nat): nat
    requires p > 0
  {
    Ceil(offset + length, p)
  }

  /** By the rounding rule, erases stay inside every slot whose length is a multiple of the page
      size, and only inside those. */
  lemma ErasesStayInSlotIffWholePages(slotLength: nat, p: nat)
    requires p > 0
    ensures (forall offset: nat, length: nat ::
               offset + length <= slotLength ==> EraseEnd(offset, length, p) <= slotLength)
       <==> slotLength % p == 0
  {
    if forall offset: nat, length: nat :: offset + length <= slotLength ==> EraseEnd(offset, length, p) <= slotLength {
      assert EraseEnd(0, slotLength, p) <= slotLength;
      CeilIsFirstBoundary(slotLength, p, slotLength);
    }
    if slotLength % p == 0 {
      forall offset: nat, length: nat | offset + length <= slotLength
        ensures EraseEnd(offset, length, p) <= slotLength
      {
        CeilIsFirstBoundary(offset + length, p, slotLength);
      }
    }
  }

  // ----- The range the code erases -----

  /** Address and length as the four branches of `bootloader_eraseWriteStorage` compute them, for every
      page size and with 32-bit wrap-around. */
  function EraseSpan(start: nat, offset: nat, length: nat, p: nat): (nat, nat)
    requires offset < U32 && length < U32 && 0 < p < 0x1_0000
  {
    var mask := Not(p - 1);
    if offset % p != 0 then
      var first, end := Wrap(And(offset, mask) + p), Wrap(offset + length);
      (Wrap(start + first), Wrap(if end % p != 0 then And(end, mask) + p - first else length - (p - offset % p)))
    else
      (Wrap(start + offset), if length % p != 0 then Wrap(And(length, mask) + p) else length)
  }

  /** The pages that start in the written range. */
  ghost predicate FollowsRule(start: nat, offset: nat, length: nat, p: nat)
    requires offset < U32 && length < U32 && 0 < p < 0x1_0000
  {
    EraseSpan(start, offset, length, p) == (start + Ceil(offset, p), EraseEnd(offset, length, p) - Ceil(offset, p))
  }

  /** The facts the four branches need about offsets whose last page ends below `2^32`. */
  lemma RoundingFacts(offset: nat, length: nat, p: nat)
    requires IsPow2(p) && 0 < p <= U32 && Ceil(offset + length, p) < U32
    ensures offset <= Ceil(offset, p) <= Ceil(offset + length, p) && offset + length <= Ceil(offset + length, p)
    ensures And(offset, Not(p - 1)) == offset - offset % p
    ensures And(length, Not(p - 1)) == length - length % p
    ensures And(offset + length, Not(p - 1)) == offset + length - (offset + length) % p
    ensures offset % p == 0 ==> (offset + length) % p == length % p
    ensures Ceil(offset, p) == if offset % p == 0 then offset else offset - offset % p + p
    ensures (offset + length) % p == 0 ==> Ceil(offset + length, p) == offset + length
    ensures (offset + length) % p != 0 ==> Ceil(offset + length, p) == offset + length - (offset + length) % p + p
  {
    CeilIsFirstBoundary(offset, p, offset);
    CeilIsFirstBoundary(offset + length, p, offset);
    CeilMonotone(offset, offset + length, p);
    AlignedShift(offset, length, p);
    hide Ceil;
    MaskRoundsDown(offset, p);
    MaskRoundsDown(length, p);
    MaskRoundsDown(offset + length, p);
  }

  lemma AlignedShift(offset: nat, length: nat, p: nat)
    requires p > 0
    ensures offset % p == 0 ==> (offset + length) % p == length % p
  {
    if offset % p == 0 {
      var a, q := offset / p, length / p;
      assert offset + length == (a + q) * p + length % p;
      ModUnique(offset + length, p, a + q, length % p);
    }
  }

  lemma SpanFollowsRule(start: nat, offset: nat, length: nat, p: nat)
    requires IsPow2(p) && 0 < p < 0x1_0000 && start + EraseEnd(offset, length, p) < U32
    ensures offset + length < U32 && Ceil(offset, p) <= EraseEnd(offset, length, p)
    ensures FollowsRule(start, offset, length, p)
  {
    hide And, Not, IsPow2, Ceil, Wrap;
    var first, last := Ceil(offset, p), EraseEnd(offset, length, p);
    RoundingFacts(offset, length, p);
    WrapSmall(start + first);
    WrapSmall(last - first);
    if offset % p != 0 {
      WrapSmall(offset + length);
      WrapSmall(first);
      assert And(offset, Not(p - 1)) + p == first;
      hide EraseEnd;
      if (offset + length) % p != 0 {
        assert And(offset + length, Not(p - 1)) + p == last;
      } else {
        assert length - (p - offset % p) == last - first;
      }
    } else {
      assert first == offset;
      hide EraseEnd;
      assert last - first == if length % p != 0 then And(length, Not(p - 1)) + p else length;
    }
  }

  /** The four branches erase the pages that start in the written range, for all ranges whose
      addresses fit 32 bits, exactly when the page size is a power of two. */
  lemma SpanFollowsRuleIffPow2(p: nat)
    requires 0 < p < 0x1_0000
    ensures (forall start: nat, offset: nat, length: nat ::
               offset < U32 && length < U32 && start + EraseEnd(offset, length, p) < U32 ==>
                 FollowsRule(start, offset, length, p))
       <==> IsPow2(p)
  {
    hide FollowsRule, EraseEnd, IsPow2;
    if IsPow2(p) {
      forall start: nat, offset: nat, length: nat
        | offset < U32 && length < U32 && start + EraseEnd(offset, length, p) < U32
        ensures FollowsRule(start, offset, length, p)
      {
        SpanFollowsRule(start, offset, length, p);
      }
    } else {
      JustOverOnePage(p);
    }
  }

  /** For any other page size, writing one byte more than a page erases too little or too much. */
  lemma JustOverOnePage(p: nat)
    requires 0 < p < 0x1_0000 && !IsPow2(p)
    ensures 0 + EraseEnd(0, p + 1, p) < U32 && !FollowsRule(0, 0, p + 1, p)
  {
    MasksItselfNot(p);
    hide And, IsPow2, Pow2;
    ModUnique(p + 1, p, 1, 1);
    ModUnique(0, p, 0, 0);
    assert Not(p - 1) == U32 - p;
    assert EraseEnd(0, p + 1, p) == 2 * p && Ceil(0, p) == 0;
    WrapSmall(And(p + 1, U32 - p) + p);
  }

  lemma MasksItselfNot(p: nat)
    requires 0 < p < 0x1_0000 && !IsPow2(p)
    ensures p > 1 && And(p + 1, U32 - p) != p && And(p + 1, U32 - p) <= p + 1
  {
    assert Pow2(0) == 1;
    Pow2Of32();
    AndNegation(p, 32);
    AndOneMore(p, U32 - p);
    AndAtMost(p + 1, U32 - p);
    hide And, Pow2;
  }

  lemma {:induction false} AndAtMost(x: nat, b: nat)
    ensures And(x, b) <= x
  {
    if x == 0 || b == 0 {
    } else {
      AndAtMost(x / 2, b / 2);
    }
  }

  /** Masking `p + 1` can only give `p` if masking `p` with the same mask does. */
  lemma AndOneMore(p: nat, b: nat)
    requires p > 0 && (p + b) % 2 == 0
    ensures And(p + 1, b) == p ==> And(p, b) == p
  {
    if p % 2 == 0 {
      AndEven(b, p);
    }
  }

  /** The erases of all writes inside a slot stay inside it exactly when it is a whole number of pages.
      What calls the code accepts is another matter: see `Storage.AcceptedCallStaysInSlotIff`. */
  lemma InnerErasesStayInSlotIff(start: nat, slotLength: nat, p: nat)
    requires IsPow2(p) && 0 < p < 0x1_0000 && start + slotLength + p <= U32
    ensures (forall offset: nat, length: nat :: offset + length <= slotLength ==>
               EraseSpan(start, offset, length, p).0 + EraseSpan(start, offset, length, p).1 <= start + slotLength)
       <==> slotLength % p == 0
  {
    forall offset: nat, length: nat | offset + length <= slotLength
      ensures start + EraseEnd(offset, length, p) < U32
      ensures EraseSpan(start, offset, length, p).0 + EraseSpan(start, offset, length, p).1 ==
              start + EraseEnd(offset, length, p)
    {
      CeilIsFirstBoundary(offset + length, p, 0);
      SpanFollowsRule(start, offset, length, p);
    }
    hide EraseSpan, EraseEnd, Ceil;
    ErasesStayInSlotIffWholePages(slotLength, p);
  }

  // ----- One erase-and-write call -----

  /** Erase every page that starts in the written range, then write. */
  function EraseWrite(d: Device, slot: nat, p: nat, offset: nat, data: seq<byte>,
                      oe: Outcome, ow: Outcome): (Device, int)
    requires p > 0
  {
    var first, last := Ceil(offset, p), Ceil(offset + |data|, p);
    EraseThenWrite(d, slot + first, last - first, slot + offset, data, oe, ow)
  }

  /** Erase `n` bytes at `a`, if any, and then write `data` at `w`; stop at the first failure. */
  function EraseThenWrite(d: Device, a: nat, n: int, w: nat, data: seq<byte>,
                          oe: Outcome, ow: Outcome): (Device, int)
  {
    var (d1, r1) := if n > 0 then RawErase(d, a, n, oe) else (d, OK);
    if r1 != OK then (d1, r1) else RawWrite(d1, w, data, ow)
  }

  /** Does an erase of `n` bytes at `a` fail? */
  predicate EraseFails(flashLength: nat, a: nat, n: nat, oe: Outcome) {
    n > 0 && (a + n > flashLength || oe.Failed?)
  }

  function ErasedFirst(a: nat, n: nat): seq<RawOp> {
    if n > 0 then [Erase(a, n)] else []
  }

  /** After a failed erase nothing is written and nothing outside the erased range has changed. */
  ghost predicate EndsWithErase(before: Device, after: Device, ret: int, a: nat, n: nat, oe: Outcome)
    requires oe.Legal(n)
  {
    var size := |before.flash|;
    && |after.flash| == size && after.log == before.log
    && if a + n > size then ret == ERROR_STORAGE_INVALID_ADDRESS && after.flash == before.flash
       else
         && oe.Failed? && ret == oe.code
         && forall i :: 0 <= i < size ==>
              after.flash[i] == if a <= i < a + n then oe.wreck[i - a] else before.flash[i]
  }

  /** After a failed write only the erase has happened, and nothing outside the two ranges has changed. */
  ghost predicate EndsWithWrite(before: Device, after: Device, ret: int, a: nat, n: nat, w: nat, m: nat, ow: Outcome)
    requires ow.Legal(m)
  {
    var size := |before.flash|;
    && |after.flash| == size && after.log == before.log + ErasedFirst(a, n)
    && (w + m <= size ==> ow.Failed?)
    && ret == (if w + m > size then ERROR_STORAGE_INVALID_ADDRESS else ow.code)
    && forall i :: 0 <= i < size ==>
         after.flash[i] ==
         if w <= i < w + m && w + m <= size then ow.wreck[i - w]
         else if a <= i < a + n then 0xFF
         else before.flash[i]
  }

  ghost predicate Completes(before: Device, after: Device, ret: int, a: nat, n: nat, w: nat, data: seq<byte>) {
    var size := |before.flash|;
    && ret == OK
    && |after.flash| == size && after.log == before.log + ErasedFirst(a, n) + [Write(w, |data|)]
    && forall i :: 0 <= i < size ==>
         after.flash[i] ==
         if w <= i < w + |data| then (if a <= i < a + n then data[i - w] else before.flash[i] & data[i - w])
         else if a <= i < a + n then 0xFF
         else before.flash[i]
  }

  /** How a call that erases `n` bytes at `a` and writes `data` at `w` ends, byte by byte. */
  ghost predicate CallEnds(before: Device, after: Device, ret: int, a: nat, n: nat, w: nat, data: seq<byte>,
                           oe: Outcome, ow: Outcome)
    requires oe.Legal(n) && ow.Legal(|data|)
  {
    if EraseFails(|before.flash|, a, n, oe) then EndsWithErase(before, after, ret, a, n, oe)
    else if w + |data| > |before.flash| || ow.Failed? then EndsWithWrite(before, after, ret, a, n, w, |data|, ow)
    else Completes(before, after, ret, a, n, w, data)
  }

  lemma EraseThenWriteEnds(d: Device, a: nat, n: nat, w: nat, data: seq<byte>, oe: Outcome, ow: Outcome)
    requires oe.Legal(n) && ow.Legal(|data|)
    ensures var (d', ret) := EraseThenWrite(d, a, n, w, data, oe, ow); CallEnds(d, d', ret, a, n, w, data, oe, ow)
  {
    if EraseFails(|d.flash|, a, n, oe) {
    } else if w + |data| > |d.flash| || ow.Failed? {
      hide EndsWithErase, Completes;
    } else {
      CompletedCallEnds(d, a, n, w, data);
      hide EndsWithErase, EndsWithWrite, Completes, EraseThenWrite;
      assert EraseThenWrite(d, a, n, w, data, oe, ow) == EraseThenWrite(d, a, n, w, data, Done, Done) by {
        OutcomesDone(d, a, n, w, data, oe, ow);
      }
    }
  }

  lemma OutcomesDone(d: Device, a: nat, n: nat, w: nat, data: seq<byte>, oe: Outcome, ow: Outcome)
    requires !EraseFails(|d.flash|, a, n, oe) && ow.Done?
    ensures EraseThenWrite(d, a, n, w, data, oe, ow) == EraseThenWrite(d, a, n, w, data, Done, Done)
  {
    hide Erased, Programmed, Wrecked;
  }

  lemma CompletedCallEnds(d: Device, a: nat, n: nat, w: nat, data: seq<byte>)
    requires n > 0 ==> a + n <= |d.flash|
    requires w + |data| <= |d.flash|
    ensures var (d', ret) := EraseThenWrite(d, a, n, w, data, Done, Done); Completes(d, d', ret, a, n, w, data)
  {
    var (d', ret) := EraseThenWrite(d, a, n, w, data, Done, Done);
    CompletedCall(d, a, n, w, data);
    hide EraseThenWrite, Erased, Programmed;
    forall i | 0 <= i < |d.flash|
      ensures d'.flash[i] ==
              if w <= i < w + |data| then (if a <= i < a + n then data[i - w] else d.flash[i] & data[i - w])
              else if a <= i < a + n then 0xFF
              else d.flash[i]
    {
      ProgrammedAfterErase(d.flash, a, n, w, data, i);
    }
  }

  lemma CompletedCall(d: Device, a: nat, n: nat, w: nat, data: seq<byte>)
    requires n > 0 ==> a + n <= |d.flash|
    requires w + |data| <= |d.flash|
    ensures var (d', ret) := EraseThenWrite(d, a, n, w, data, Done, Done);
            && ret == OK && d'.log == d.log + ErasedFirst(a, n) + [Write(w, |data|)]
            && d'.flash == Programmed(Erased(d.flash, a, n), w, data) && |d'.flash| == |d.flash|
  {
    assert Erased(d.flash, a, 0) == d.flash;
    assert |Erased(d.flash, a, n)| == |d.flash|;
    hide Erased;
    assert d.log + [] == d.log;
  }

  lemma ProgrammedAfterErase(flash: seq<byte>, a: nat, n: nat, w: nat, data: seq<byte>, i: nat)
    requires i < |flash|
    ensures |Programmed(Erased(flash, a, n), w, data)| == |flash|
    ensures Programmed(Erased(flash, a, n), w, data)[i] ==
            if w <= i < w + |data| then (if a <= i < a + n then data[i - w] else flash[i] & data[i - w])
            else if a <= i < a + n then 0xFF
            else flash[i]
  {
    ByteErased(flash, a, n, i);
    ByteProgrammed(Erased(flash, a, n), w, data, i);
    hide Erased, Programmed;
    if w <= i < w + |data| && a <= i < a + n {
      ProgramsErasedByte(data[i - w]);
    }
  }

  lemma ByteErased(flash: seq<byte>, a: nat, n: nat, i: nat)
    requires i < |flash|
    ensures |Erased(flash, a, n)| == |flash|
    ensures Erased(flash, a, n)[i] == if a <= i < a + n then 0xFF else flash[i]
  {
  }

  lemma ByteProgrammed(flash: seq<byte>, w: nat, data: seq<byte>, i: nat)
    requires i < |flash|
    ensures |Programmed(flash, w, data)| == |flash|
    ensures Programmed(flash, w, data)[i] == if w <= i < w + |data| then flash[i] & data[i - w] else flash[i]
  {
  }

  lemma ProgramsErasedByte(x: byte)
    ensures 0xFF & x == x
  {
  }

  lemma CompletedEraseWrite(d: Device, slot: nat, p: nat, offset: nat, data: seq<byte>)
    requires p > 0 && slot + Ceil(offset + |data|, p) <= |d.flash|
    ensures var end := offset + |data|;
            var (first, last) := (slot + Ceil(offset, p), slot + Ceil(end, p));
            var (d', r) := EraseWrite(d, slot, p, offset, data, Done, Done);
            && r == OK && |d'.flash| == |d.flash|
            && d'.log == d.log + SpanOps(first, slot + offset, slot + end, last)
            && forall i :: 0 <= i < |d.flash| ==> d'.flash[i] == AfterCall(d.flash, first, slot + offset, last, data, i)
  {
    var end := offset + |data|;
    CeilMonotone(offset, end, p);
    CeilIsFirstBoundary(offset, p, end);
    CeilIsFirstBoundary(end, p, end);
    hide Ceil;
    var (first, last) := (slot + Ceil(offset, p), slot + Ceil(end, p));
    var (d', r) := EraseWrite(d, slot, p, offset, data, Done, Done);
    var d1 := if first < last then RawErase(d, first, last - first, Done).0 else d;
    assert |d1.flash| == |d.flash|;
    assert (d', r) == RawWrite(d1, slot + offset, data, Done);
    forall i | 0 <= i < |d.flash| ensures d'.flash[i] == AfterCall(d.flash, first, slot + offset, last, data, i) {
      if slot + offset <= i < slot + end {
        ProgramsErasedByte(data[i - slot - offset]);
      }
    }
  }

  /** The raw operations of a call that writes `start..end` and erases `first..last`. */
  function SpanOps(first: nat, start: nat, end: nat, last: nat): seq<RawOp>
    requires start <= end
  {
    (if first < last then [Erase(first, last - first)] else []) + [Write(start, end - start)]
  }

  /** What byte `i` holds after a call that erases `first..last` and writes `data` at `start`: erased
      bytes take the data as it is, others only lose bits. */
  function AfterCall(flash: seq<byte>, first: nat, start: nat, last: nat, data: seq<byte>, i: nat): byte
    requires i < |flash|
  {
    if start <= i < start + |data| then
      (if first <= i then data[i - start] else flash[i] & data[i - start])
    else if first <= i < last then 0xFF
    else flash[i]
  }

  /** A call that does not start on a page boundary stores its data exactly when the bytes before
      the first boundary still have every bit set that the data needs. */
  lemma StoresDataIffStartIsProgrammable(d: Device, slot: nat, p: nat, offset: nat, data: seq<byte>)
    requires p > 0 && slot + Ceil(offset + |data|, p) <= |d.flash|
    ensures slot + offset + |data| <= |d.flash|
    ensures var d' := EraseWrite(d, slot, p, offset, data, Done, Done).0;
            |d'.flash| == |d.flash| &&
            (d'.flash[slot + offset..slot + offset + |data|] == data <==>
             forall i :: slot + offset <= i < slot + offset + |data| && i < slot + Ceil(offset, p) ==>
               d.flash[i] & data[i - slot - offset] == data[i - slot - offset])
  {
    CeilIsFirstBoundary(offset + |data|, p, 0);
    CompletedEraseWrite(d, slot, p, offset, data);
    var d' := EraseWrite(d, slot, p, offset, data, Done, Done).0;
    var stored := d'.flash[slot + offset..slot + offset + |data|];
    if stored == data {
      forall i | slot + offset <= i < slot + offset + |data| && i < slot + Ceil(offset, p)
        ensures d.flash[i] & data[i - slot - offset] == data[i - slot - offset]
      {
        assert stored[i - slot - offset] == d'.flash[i];
      }
    }
  }

  // ----- A stream of calls, each starting where the previous one ended -----

  function Concat(chunks: seq<seq<byte>>): seq<byte> {
    if chunks == [] then [] else chunks[0] + Concat(chunks[1..])
  }

  function Stream(d: Device, slot: nat, p: nat, offset: nat, chunks: seq<seq<byte>>): Device
    requires p > 0
    decreases |chunks|
  {
    if chunks == [] then d
    else Stream(EraseWrite(d, slot, p, offset, chunks[0], Done, Done).0, slot, p, offset + |chunks[0]|, chunks[1..])
  }

  /** The rest of the page a stream is in the middle of is still erased. */
  ghost predicate FrontierErased(flash: seq<byte>, slot: nat, p: nat, offset: nat)
    requires p > 0
  {
    forall i :: slot + offset <= i < slot + Ceil(offset, p) && i < |flash| ==> flash[i] == 0xFF
  }

  ghost predicate Streamed(before: seq<byte>, after: seq<byte>, slot: nat, p: nat, offset: nat, data: seq<byte>)
    requires p > 0
  {
    var end := offset + |data|;
    && |after| == |before|
    && forall i :: 0 <= i < |before| ==>
         after[i] ==
         if slot + offset <= i < slot + end then data[i - slot - offset]
         else if slot + end <= i < slot + Ceil(end, p) then 0xFF
         else before[i]
  }

  lemma StreamStep(d: Device, slot: nat, p: nat, offset: nat, data: seq<byte>)
    requires p > 0 && slot + Ceil(offset + |data|, p) <= |d.flash|
    requires FrontierErased(d.flash, slot, p, offset)
    ensures var d' := EraseWrite(d, slot, p, offset, data, Done, Done).0;
            && Streamed(d.flash, d'.flash, slot, p, offset, data)
            && FrontierErased(d'.flash, slot, p, offset + |data|)
  {
    CompletedEraseWrite(d, slot, p, offset, data);
    CeilIsFirstBoundary(offset, p, offset);
    CeilIsFirstBoundary(offset + |data|, p, offset);
    CeilMonotone(offset, offset + |data|, p);
    if offset + |data| < Ceil(offset, p) {
      CeilIsFirstBoundary(offset, p, Ceil(offset + |data|, p));
      CeilIsFirstBoundary(offset + |data|, p, Ceil(offset, p));
    }
    hide Ceil;
    forall j | 0 <= j < |data| ensures 0xFF & data[j] == data[j] {
      ProgramsErasedByte(data[j]);
    }
  }

  lemma StreamedCompose(a: seq<byte>, b: seq<byte>, c: seq<byte>, slot: nat, p: nat, offset: nat,
                        x: seq<byte>, y: seq<byte>)
    requires p > 0 && Streamed(a, b, slot, p, offset, x) && Streamed(b, c, slot, p, offset + |x|, y)
    ensures Streamed(a, c, slot, p, offset, x + y)
  {
    var mid, end := offset + |x|, offset + |x| + |y|;
    CeilMonotone(mid, end, p);
    CeilIsFirstBoundary(mid, p, mid);
    CeilIsFirstBoundary(end, p, end);
  }

  /** The documented use: any number of back-to-back calls of any lengths. The written range ends
      equal to the concatenated chunks, the rest of the last page is erased, and no other byte
      of the flash has changed. */
  lemma {:induction false} StreamStoresChunks(d: Device, slot: nat, p: nat, offset: nat, chunks: seq<seq<byte>>)
    requires p > 0 && slot + Ceil(offset + |Concat(chunks)|, p) <= |d.flash|
    requires offset % p == 0 || FrontierErased(d.flash, slot, p, offset)
    ensures Streamed(d.flash, Stream(d, slot, p, offset, chunks).flash, slot, p, offset, Concat(chunks))
    decreases |chunks|
  {
    if chunks == [] {
    } else {
      var x, y := chunks[0], Concat(chunks[1..]);
      CeilMonotone(offset + |x|, offset + |x| + |y|, p);
      StreamStep(d, slot, p, offset, x);
      var d' := EraseWrite(d, slot, p, offset, x, Done, Done).0;
      StreamStoresChunks(d', slot, p, offset + |x|, chunks[1..]);
      StreamedCompose(d.flash, d'.flash, Stream(d, slot, p, offset, chunks).flash, slot, p, offset, x, y);
    }
  }

  // ----- A stream that a failing call stops -----

  /** The bytes a call at `offset` erases: the pages that start in the written range. */
  function ErasedLength(offset: nat, length: nat, p: nat): (n: nat)
    requires p > 0
    ensures Ceil(offset, p) + n == EraseEnd(offset, length, p)
  {
    CeilMonotone(offset, offset + length, p);
    EraseEnd(offset, length, p) - Ceil(offset, p)
  }

  /** The call with `data` at `offset` ended, on the device the calls before it left, as `CallEnds` says. */
  ghost predicate StreamCallEnds(before: Device, after: Device, ret: int, slot: nat, p: nat, offset: nat,
                                 data: seq<byte>, oe: Outcome, ow: Outcome)
    requires p > 0
  {
    var n := ErasedLength(offset, |data|, p);
    && oe.Legal(n) && ow.Legal(|data|)
    && CallEnds(before, after, ret, slot + Ceil(offset, p), n, slot + offset, data, oe, ow)
  }

  lemma EraseWriteEnds(d: Device, slot: nat, p: nat, offset: nat, data: seq<byte>, oe: Outcome, ow: Outcome)
    requires p > 0 && oe.Legal(ErasedLength(offset, |data|, p)) && ow.Legal(|data|)
    ensures var (d', ret) := EraseWrite(d, slot, p, offset, data, oe, ow);
            StreamCallEnds(d, d', ret, slot, p, offset, data, oe, ow)
  {
    hide CallEnds, EraseThenWrite, Ceil;
    EraseThenWriteEnds(d, slot + Ceil(offset, p), ErasedLength(offset, |data|, p), slot + offset, data, oe, ow);
  }

  /** What a stopped stream leaves, whatever the failed raw call left in its range: the chunks before
      the failing one are stored, and nothing has changed outside the range from their start to the
      last page the failing call touches. If its erase failed, the rest of the page in use is still
      erased, so nothing of the failing chunk has been programmed there. */
  ghost predicate StoppedStream(before: seq<byte>, after: seq<byte>, slot: nat, p: nat, offset: nat,
                                stored: seq<byte>, failing: seq<byte>, eraseFailed: bool)
    requires p > 0
  {
    var mid, end := offset + |stored|, offset + |stored| + |failing|;
    && |after| == |before|
    && forall i :: 0 <= i < |before| ==>
         && (slot + offset <= i < slot + mid ==> after[i] == stored[i - slot - offset])
         && (!(slot + offset <= i < slot + Ceil(end, p)) ==> after[i] == before[i])
         && (eraseFailed && slot + mid <= i < slot + Ceil(mid, p) ==> after[i] == 0xFF)
  }

  lemma StreamStops(before: seq<byte>, d: Device, d': Device, ret: int, slot: nat, p: nat, offset: nat,
                    stored: seq<byte>, failing: seq<byte>, oe: Outcome, ow: Outcome)
    requires p > 0 && Streamed(before, d.flash, slot, p, offset, stored) && ret != OK
    requires StreamCallEnds(d, d', ret, slot, p, offset + |stored|, failing, oe, ow)
    ensures var mid := offset + |stored|;
            StoppedStream(before, d'.flash, slot, p, offset, stored, failing,
                          EraseFails(|before|, slot + Ceil(mid, p), ErasedLength(mid, |failing|, p), oe))
  {
    var mid, end := offset + |stored|, offset + |stored| + |failing|;
    CeilIsFirstBoundary(mid, p, mid);
    CeilIsFirstBoundary(end, p, end);
    CeilMonotone(mid, end, p);
    hide Ceil;
  }

  // ----- Every byte is erased once, then written once -----

  datatype Life = Untouched | Blank | Stored | Abused

  /** The only life a byte may lead is erase, then write; a second erase, a second write or a
      write without an erase is abuse, from which nothing recovers. */
  function NextLife(l: Life, op: RawOp, b: int): Life {
    if !op.Covers(b) then l
    else if op.Erase? && l == Untouched then Blank
    else if op.Write? && l == Blank then Stored
    else Abused
  }

  function LifeAfter(l: Life, ops: seq<RawOp>, b: int): Life
    decreases |ops|
  {
    if ops == [] then l else LifeAfter(NextLife(l, ops[0], b), ops[1..], b)
  }

  lemma {:induction false} LifeAfterConcat(l: Life, a: seq<RawOp>, c: seq<RawOp>, b: int)
    ensures LifeAfter(l, a + c, b) == LifeAfter(LifeAfter(l, a, b), c, b)
    decreases |a|
  {
    if a == [] {
      assert a + c == c;
    } else {
      assert (a + c)[1..] == a[1..] + c;
      LifeAfterConcat(NextLife(l, a[0], b), a[1..], c, b);
    }
  }

  /** The life of byte `b` when the stream stands at `offset`. */
  function LifeAt(before: Life, slot: nat, p: nat, start: nat, offset: nat, b: int): Life
    requires p > 0
  {
    if slot + start <= b < slot + offset then Stored
    else if slot + offset <= b < slot + Ceil(offset, p) then Blank
    else before
  }

  lemma SpanLife(first: nat, start: nat, end: nat, last: nat, l: Life, b: int)
    requires start <= end <= last && start <= first <= last && (end < first ==> first == last)
    requires start <= b < first ==> l == Blank
    requires first <= b ==> l == Untouched
    ensures LifeAfter(l, SpanOps(first, start, end, last), b) ==
            if start <= b < end then Stored else if end <= b < last then Blank else l
  {
    var w := Write(start, end - start);
    assert [w][1..] == [];
    if first < last {
      var e := Erase(first, last - first);
      assert SpanOps(first, start, end, last) == [e, w] && [e, w][1..] == [w];
      var l1 := NextLife(l, e, b);
      assert LifeAfter(l, [e, w], b) == LifeAfter(l1, [w], b) == NextLife(l1, w, b);
    } else {
      assert SpanOps(first, start, end, last) == [w];
    }
  }

  lemma StepLife(d: Device, slot: nat, p: nat, offset: nat, data: seq<byte>, l: Life, b: int)
    requires p > 0 && slot + Ceil(offset + |data|, p) <= |d.flash|
    requires slot + offset <= b < slot + Ceil(offset, p) ==> l == Blank
    requires slot + Ceil(offset, p) <= b ==> l == Untouched
    ensures var d' := EraseWrite(d, slot, p, offset, data, Done, Done).0;
            && d.log <= d'.log && |d'.flash| == |d.flash|
            && LifeAfter(l, d'.log[|d.log|..], b) == LifeAt(l, slot, p, offset, offset + |data|, b)
  {
    var end := offset + |data|;
    CompletedEraseWrite(d, slot, p, offset, data);
    CeilIsFirstBoundary(offset, p, end);
    CeilIsFirstBoundary(end, p, Ceil(offset, p));
    CeilMonotone(offset, end, p);
    hide Ceil, EraseWrite;
    SpanLife(slot + Ceil(offset, p), slot + offset, slot + end, slot + Ceil(end, p), l, b);
  }

  lemma {:induction false} StreamLives(d: Device, slot: nat, p: nat, offset: nat, chunks: seq<seq<byte>>,
                                       l: Life, b: int)
    requires p > 0 && slot + Ceil(offset + |Concat(chunks)|, p) <= |d.flash|
    requires slot + offset <= b < slot + Ceil(offset, p) ==> l == Blank
    requires slot + Ceil(offset, p) <= b ==> l == Untouched
    ensures var d' := Stream(d, slot, p, offset, chunks);
            && d.log <= d'.log
            && LifeAfter(l, d'.log[|d.log|..], b) == LifeAt(l, slot, p, offset, offset + |Concat(chunks)|, b)
    decreases |chunks|
  {
    hide Ceil, EraseWrite;
    if chunks == [] {
      assert d.log[|d.log|..] == [];
    } else {
      var x, y := chunks[0], Concat(chunks[1..]);
      var mid := offset + |x|;
      CeilMonotone(mid, mid + |y|, p);
      CeilMonotone(offset, mid, p);
      CeilIsFirstBoundary(mid, p, mid);
      CeilIsFirstBoundary(mid + |y|, p, offset);
      StepLife(d, slot, p, offset, x, l, b);
      var d1 := EraseWrite(d, slot, p, offset, x, Done, Done).0;
      var l1 := LifeAfter(l, d1.log[|d.log|..], b);
      StreamLives(d1, slot, p, mid, chunks[1..], l1, b);
      var d2 := Stream(d, slot, p, offset, chunks);
      assert d2.log[|d.log|..] == d1.log[|d.log|..] + d2.log[|d1.log|..];
      LifeAfterConcat(l, d1.log[|d.log|..], d2.log[|d1.log|..], b);
    }
  }

  /** A stream that starts on a page boundary erases each byte of the pages it enters exactly once
      and before its first write, writes each byte of the range exactly once, never erases a byte
      it has written, and touches nothing else. */
  lemma StreamErasesOncePerPage(d: Device, slot: nat, p: nat, offset: nat, chunks: seq<seq<byte>>, b: int)
    requires p > 0 && slot + Ceil(offset + |Concat(chunks)|, p) <= |d.flash|
    requires offset % p == 0
    ensures var d' := Stream(d, slot, p, offset, chunks);
            var end := offset + |Concat(chunks)|;
            && d.log <= d'.log
            && LifeAfter(Untouched, d'.log[|d.log|..], b) ==
               if slot + offset <= b < slot + end then Stored
               else if slot + end <= b < slot + Ceil(end, p) then Blank
               else Untouched
  {
    StreamLives(d, slot, p, offset, chunks, Untouched, b);
  }
}
