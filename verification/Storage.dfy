/** The storage calls of the bootloader interface, working on a flash array. The raw erase and
    write functions behind the bootloader's function table are foreign: they complete, or fail with
    any code and leave anything in the range they were given. */
module Storage {
  import opened Words
  import opened FlashPages
  import opened ChunkedErase

  class EraseStatus {
    var currentPageAddr: nat
    var pageSize: nat
    var slot: Slot

    constructor ()
    {
      currentPageAddr, pageSize, slot := 0, 0, Slot(0, 0);
    }

    ghost function View(): ErasePosition
      reads this
    {
      ErasePosition(currentPageAddr, pageSize, slot)
    }
  }

  class Bootloader {
    const tableValid: bool        // both pointers to the function table hold
    const pageSize: nat           // info->pageSize
    const lookup: nat -> (int, Slot)  // what the foreign slot lookup returns and puts into the slot
    const flash: array<byte>
    ghost var log: seq<RawOp>        // the raw operations that succeeded
    ghost var requested: seq<RawOp>  // the raw operations called, whatever became of them

    constructor (tableValid: bool, pageSize: nat, lookup: nat -> (int, Slot), flash: array<byte>)
      ensures this.tableValid == tableValid && this.pageSize == pageSize
      ensures this.lookup == lookup && this.flash == flash && log == [] && requested == []
    {
      this.tableValid, this.pageSize, this.lookup, this.flash := tableValid, pageSize, lookup, flash;
      log, requested := [], [];
    }

    ghost function View(): Device
      reads this, flash
    {
      Device(flash[..], log)
    }

    /** `bootloader_getStorageSlotInfo`; `before` is what the slot it fills in held. */
    method GetStorageSlotInfo(slotId: nat, before: Slot) returns (ret: int, slot: Slot)
      ensures (ret, slot) == if tableValid then lookup(slotId) else (ERROR_INIT_TABLE, before)
    {
      if !tableValid {
        return ERROR_INIT_TABLE, before;
      }
      var found := lookup(slotId);
      return found.0, found.1;
    }

    method EraseRawStorage(address: nat, length: nat) returns (ret: int, ghost outcome: Outcome)
      modifies this, flash
      ensures outcome.Legal(length)
      ensures !tableValid ==> ret == ERROR_INIT_STORAGE && View() == old(View())
      ensures tableValid ==> (View(), ret) == RawErase(old(View()), address, length, outcome)
      ensures requested == old(requested) + if tableValid then [Erase(address, length)] else []
    {
      outcome := Done;
      if !tableValid {
        return ERROR_INIT_STORAGE, Done;
      }
      requested := requested + [Erase(address, length)];
      if address + length > flash.Length {
        return ERROR_STORAGE_INVALID_ADDRESS, Done;
      }
      ret := *;
      if ret == OK {
        for i := address to address + length
          invariant log == old(log) && requested == old(requested) + [Erase(address, length)]
          invariant forall k :: 0 <= k < flash.Length ==>
            flash[k] == if address <= k < i then 0xFF else old(flash[k])
        {
          flash[i] := 0xFF;
        }
        log := log + [Erase(address, length)];
        assert flash[..] == Erased(old(flash[..]), address, length);
      } else {
        Damage(address, length);
        outcome := Failed(ret, flash[address..address + length]);
        assert flash[..] == Wrecked(old(flash[..]), address, outcome.wreck);
      }
    }

    method WriteRawStorage(address: nat, buffer: seq<byte>) returns (ret: int, ghost outcome: Outcome)
      modifies this, flash
      ensures outcome.Legal(|buffer|)
      ensures !tableValid ==> ret == ERROR_INIT_STORAGE && View() == old(View())
      ensures tableValid ==> (View(), ret) == RawWrite(old(View()), address, buffer, outcome)
      ensures requested == old(requested) + if tableValid then [Write(address, |buffer|)] else []
    {
      outcome := Done;
      if !tableValid {
        return ERROR_INIT_STORAGE, Done;
      }
      requested := requested + [Write(address, |buffer|)];
      if address + |buffer| > flash.Length {
        return ERROR_STORAGE_INVALID_ADDRESS, Done;
      }
      ret := *;
      if ret == OK {
        for i := 0 to |buffer|
          invariant log == old(log) && requested == old(requested) + [Write(address, |buffer|)]
          invariant forall k :: 0 <= k < flash.Length ==>
            flash[k] == if address <= k < address + i then old(flash[k]) & buffer[k - address] else old(flash[k])
        {
          flash[address + i] := flash[address + i] & buffer[i];
        }
        log := log + [Write(address, |buffer|)];
        assert flash[..] == Programmed(old(flash[..]), address, buffer);
      } else {
        Damage(address, |buffer|);
        outcome := Failed(ret, flash[address..address + |buffer|]);
        assert flash[..] == Wrecked(old(flash[..]), address, outcome.wreck);
      }
    }

    /** What a failed raw operation may do: put anything into its range. */
    method Damage(address: nat, length: nat)
      requires address + length <= flash.Length
      modifies flash
      ensures forall k :: 0 <= k < flash.Length && !(address <= k < address + length) ==> flash[k] == old(flash[k])
    {
      for i := address to address + length
        invariant forall k :: 0 <= k < flash.Length && !(address <= k < i) ==> flash[k] == old(flash[k])
      {
        flash[i] := *;
      }
    }

    /** `bootloader_eraseWriteStorage`. An accepted call erases the range the code computes and then
        writes, stopping at the first failure; for power-of-two pages and addresses that fit 32
        bits that is the rounding rule of `FlashPages.EraseWrite`. `erase` and `write` say how the
        raw calls ended. */
    method EraseWriteStorage(slotId: nat, offset: nat, buffer: seq<byte>)
      returns (ret: int, ghost erase: Outcome, ghost write: Outcome)
      requires offset < U32 && |buffer| < U32
      modifies this, flash
      ensures !tableValid ==> ret == ERROR_INIT_TABLE
      ensures tableValid && pageSize % 0x1_0000 == 0 ==> ret == ERROR_STORAGE_INVALID_SLOT
      ensures tableValid && pageSize % 0x1_0000 != 0 && lookup(slotId).0 != OK ==> ret == lookup(slotId).0
      ensures tableValid && pageSize % 0x1_0000 != 0 && lookup(slotId).0 == OK ==>
                (offset + |buffer|) % U32 > lookup(slotId).1.length ==> ret == ERROR_STORAGE_INVALID_ADDRESS
      ensures var code := ArgumentCode(tableValid, pageSize, lookup, slotId, offset, |buffer|);
              code != OK ==> ret == code && View() == old(View()) && requested == old(requested)
      ensures ArgumentCode(tableValid, pageSize, lookup, slotId, offset, |buffer|) == OK ==>
                var (start, p) := (lookup(slotId).1.address, pageSize % 0x1_0000);
                var (a, n) := EraseSpan(start, offset, |buffer|, p);
                && erase.Legal(n) && write.Legal(|buffer|) && (ret == OK ==> erase == write == Done)
                && (View(), ret) == EraseThenWrite(old(View()), a, n, Wrap(start + offset), buffer, erase, write)
                && CallEnds(old(View()), View(), ret, a, n, Wrap(start + offset), buffer, erase, write)
                && requested == old(requested) + ErasedFirst(a, n) +
                                (if EraseFails(flash.Length, a, n, erase) then []
                                 else [Write(Wrap(start + offset), |buffer|)])
                && (IsPow2(p) && start + EraseEnd(offset, |buffer|, p) < U32 ==>
                      (View(), ret) == EraseWrite(old(View()), start, p, offset, buffer, erase, write))
    {
      erase, write := Done, Done;
      if !tableValid {
        return ERROR_INIT_TABLE, Done, Done;
      }
      var flashPageSize := pageSize % 0x1_0000;  // uint16_t
      if flashPageSize == 0 {
        return ERROR_STORAGE_INVALID_SLOT, Done, Done;
      }
      var storageSlot := Slot(0, 0);
      ret, storageSlot := GetStorageSlotInfo(slotId, storageSlot);
      if ret != OK {
        return ret, Done, Done;
      }
      var storageStartAddr := storageSlot.address;
      var length := |buffer|;
      if Wrap(offset + length) > storageSlot.length {
        return ERROR_STORAGE_INVALID_ADDRESS, Done, Done;
      }
      var eraseOffset, eraseLength := EraseRange(storageStartAddr, offset, length, flashPageSize);
      hide IsPow2, EraseEnd, EraseThenWrite, EraseWrite, Wrap, EraseSpan, CallEnds, EraseFails;
      ret, erase, write := EraseAndWriteRaw(eraseOffset, eraseLength, Wrap(storageStartAddr + offset), buffer);
      if IsPow2(flashPageSize) && storageStartAddr + EraseEnd(offset, length, flashPageSize) < U32 {
        SpanIsEraseWrite(old(View()), storageStartAddr, flashPageSize, offset, buffer, erase, write);
      }
    }

    /** A slot that can take `length` bytes at `offset`, page rest included. */
    ghost predicate Takes(slotId: nat, offset: nat, length: nat) {
      var (slot, p) := (lookup(slotId).1, pageSize % 0x1_0000);
      && tableValid && lookup(slotId).0 == OK && p > 0 && IsPow2(p)
      && offset + length <= slot.length
      && slot.address + EraseEnd(offset, length, p) <= flash.Length < U32
    }

    /** The documented use: back-to-back calls until one fails. If none does, the flash is what
        `FlashPages.Stream` says, so the chunks are stored one after the other; otherwise it is
        what the failing call left after the `done` calls before it: their chunks stay stored, and
        no write follows a failed erase. */
    method EraseWriteChunks(slotId: nat, offset: nat, chunks: seq<seq<byte>>)
      returns (ret: int, ghost done: nat, ghost erase: Outcome, ghost write: Outcome)
      requires Takes(slotId, offset, |Concat(chunks)|)
      modifies this, flash
      ensures var (start, p) := (lookup(slotId).1.address, pageSize % 0x1_0000);
              ret == OK ==> View() == Stream(old(View()), start, p, offset, chunks)
      ensures ret != OK ==> Stopped(old(View()), View(), requested, ret, slotId, offset, chunks, done, erase, write)
      ensures var (start, p) := (lookup(slotId).1.address, pageSize % 0x1_0000);
              offset % p == 0 || FrontierErased(old(flash[..]), start, p, offset) ==>
                if ret == OK then Streamed(old(flash[..]), flash[..], start, p, offset, Concat(chunks))
                else
                  var mid := offset + |Concat(chunks[..done])|;
                  var (a, n) := (start + Ceil(mid, p), ErasedLength(mid, |chunks[done]|, p));
                  StoppedStream(old(flash[..]), flash[..], start, p, offset, Concat(chunks[..done]), chunks[done],
                                EraseFails(flash.Length, a, n, erase))
    {
      ret, done, erase, write := RunChunks(slotId, offset, chunks);
      ghost var (start, p) := (lookup(slotId).1.address, pageSize % 0x1_0000);
      if offset % p == 0 || FrontierErased(old(flash[..]), start, p, offset) {
        if ret == OK {
          EndIsCeil(offset, |Concat(chunks)|, p);
          StreamStoresChunks(old(View()), start, p, offset, chunks);
        } else {
          hide IsPow2, Stream, StreamCallEnds, FrontierErased, EraseEnd, StoppedStream, EraseFails;
          ChunksStored(old(View()), slotId, offset, chunks, done, View(), ret, erase, write);
        }
      }
    }

    method RunChunks(slotId: nat, offset: nat, chunks: seq<seq<byte>>)
      returns (ret: int, ghost done: nat, ghost erase: Outcome, ghost write: Outcome)
      requires Takes(slotId, offset, |Concat(chunks)|)
      modifies this, flash
      ensures var (start, p) := (lookup(slotId).1.address, pageSize % 0x1_0000);
              ret == OK ==> View() == Stream(old(View()), start, p, offset, chunks)
      ensures ret != OK ==> Stopped(old(View()), View(), requested, ret, slotId, offset, chunks, done, erase, write)
      decreases |chunks|
    {
      hide IsPow2, Ceil, EraseEnd, EraseSpan, EraseThenWrite, EraseWrite, Wrap;
      hide CallEnds, EraseFails, FollowsRule, Stopped;
      if chunks == [] {
        return OK, 0, Done, Done;
      }
      ghost var (start, p) := (lookup(slotId).1.address, pageSize % 0x1_0000);
      TakesFirst(slotId, offset, chunks);
      SpanIsErasedLength(start, p, offset, chunks[0]);
      ret, erase, write := EraseWriteStorage(slotId, offset, chunks[0]);
      if ret != OK {
        FirstStops(old(View()), View(), old(requested), requested, ret,
                   slotId, offset, chunks, erase, write, Wrap(start + offset));
        return ret, 0, erase, write;
      }
      ghost var d := View();
      ret, done, erase, write := RunChunks(slotId, offset + |chunks[0]|, chunks[1..]);
      if ret != OK {
        LaterStops(old(View()), d, View(), requested, ret, slotId, offset, chunks, done, erase, write);
        done := done + 1;
      }
    }

    /** The call for chunk `done` was the last, and no write was requested after its erase if that failed. */
    ghost predicate Stopped(before: Device, after: Device, requested: seq<RawOp>, ret: int, slotId: nat, offset: nat,
                            chunks: seq<seq<byte>>, done: nat, erase: Outcome, write: Outcome)
      requires pageSize % 0x1_0000 > 0
    {
      var (start, p) := (lookup(slotId).1.address, pageSize % 0x1_0000);
      && done < |chunks|
      && var mid := offset + |Concat(chunks[..done])|;
         var (a, n) := (start + Ceil(mid, p), ErasedLength(mid, |chunks[done]|, p));
         && StreamCallEnds(Stream(before, start, p, offset, chunks[..done]), after, ret,
                           start, p, mid, chunks[done], erase, write)
         && requested != []
         && (EraseFails(flash.Length, a, n, erase) ==> requested[|requested| - 1] == Erase(a, n))
    }

    lemma FirstStops(before: Device, after: Device, earlier: seq<RawOp>, requested: seq<RawOp>, ret: int,
                     slotId: nat, offset: nat, chunks: seq<seq<byte>>, erase: Outcome, write: Outcome, w: nat)
      requires pageSize % 0x1_0000 > 0 && chunks != [] && |before.flash| == flash.Length
      requires var (start, p) := (lookup(slotId).1.address, pageSize % 0x1_0000);
               var (a, n, m) := (start + Ceil(offset, p), ErasedLength(offset, |chunks[0]|, p), |chunks[0]|);
               && erase.Legal(n) && write.Legal(m)
               && (after, ret) == EraseWrite(before, start, p, offset, chunks[0], erase, write)
               && requested == earlier + ErasedFirst(a, n) +
                    (if EraseFails(flash.Length, a, n, erase) then [] else [Write(w, m)])
      ensures Stopped(before, after, requested, ret, slotId, offset, chunks, 0, erase, write)
    {
      var (start, p) := (lookup(slotId).1.address, pageSize % 0x1_0000);
      assert chunks[..0] == [];
      hide EraseWrite, Ceil, CallEnds;
      EraseWriteEnds(before, start, p, offset, chunks[0], erase, write);
    }

    lemma LaterStops(before: Device, d: Device, after: Device, requested: seq<RawOp>, ret: int,
                     slotId: nat, offset: nat, chunks: seq<seq<byte>>, done: nat, erase: Outcome, write: Outcome)
      requires pageSize % 0x1_0000 > 0 && chunks != []
      requires d == EraseWrite(before, lookup(slotId).1.address, pageSize % 0x1_0000, offset, chunks[0], Done, Done).0
      requires Stopped(d, after, requested, ret, slotId, offset + |chunks[0]|, chunks[1..], done, erase, write)
      ensures Stopped(before, after, requested, ret, slotId, offset, chunks, done + 1, erase, write)
    {
      hide EraseWrite, Ceil, StreamCallEnds, EraseFails;
      assert chunks[..done + 1][0] == chunks[0] && chunks[..done + 1][1..] == chunks[1..][..done];
    }

    /** The failing call leaves the chunks before it stored. */
    lemma ChunksStored(before: Device, slotId: nat, offset: nat, chunks: seq<seq<byte>>, done: nat,
                       after: Device, ret: int, erase: Outcome, write: Outcome)
      requires Takes(slotId, offset, |Concat(chunks)|) && done < |chunks| && |before.flash| == flash.Length && ret != OK
      requires var (start, p) := (lookup(slotId).1.address, pageSize % 0x1_0000);
               StreamCallEnds(Stream(before, start, p, offset, chunks[..done]), after, ret,
                              start, p, offset + |Concat(chunks[..done])|, chunks[done], erase, write)
      ensures var (start, p) := (lookup(slotId).1.address, pageSize % 0x1_0000);
              var mid := offset + |Concat(chunks[..done])|;
              var (a, n) := (start + Ceil(mid, p), ErasedLength(mid, |chunks[done]|, p));
              offset % p == 0 || FrontierErased(before.flash, start, p, offset) ==>
                StoppedStream(before.flash, after.flash, start, p, offset, Concat(chunks[..done]), chunks[done],
                              EraseFails(flash.Length, a, n, erase))
    {
      hide StreamCallEnds, StoppedStream, EraseFails, Streamed, FrontierErased, IsPow2, Ceil;
      var (start, p) := (lookup(slotId).1.address, pageSize % 0x1_0000);
      if offset % p == 0 || FrontierErased(before.flash, start, p, offset) {
        ConcatPrefix(chunks, done);
        CeilMonotone(offset + |Concat(chunks[..done])|, offset + |Concat(chunks)|, p);
        StreamStoresChunks(before, start, p, offset, chunks[..done]);
        StreamStops(before.flash, Stream(before, start, p, offset, chunks[..done]), after, ret,
                    start, p, offset, Concat(chunks[..done]), chunks[done], erase, write);
      }
    }

    lemma TakesFirst(slotId: nat, offset: nat, chunks: seq<seq<byte>>)
      requires chunks != [] && Takes(slotId, offset, |Concat(chunks)|)
      ensures offset < U32 && |chunks[0]| < U32
      ensures ArgumentCode(tableValid, pageSize, lookup, slotId, offset, |chunks[0]|) == OK
      ensures lookup(slotId).1.address + EraseEnd(offset, |chunks[0]|, pageSize % 0x1_0000) < U32
      ensures Takes(slotId, offset + |chunks[0]|, |Concat(chunks[1..])|)
    {
      var end, p := offset + |Concat(chunks)|, pageSize % 0x1_0000;
      assert |Concat(chunks)| == |chunks[0]| + |Concat(chunks[1..])|;
      CeilIsFirstBoundary(end, p, end);
      CeilMonotone(offset + |chunks[0]|, end, p);
      WrapSmall(offset + |chunks[0]|);
      hide Ceil, IsPow2, Wrap;
    }

    /** The raw calls at the end of `bootloader_eraseWriteStorage`. */
    method EraseAndWriteRaw(eraseOffset: nat, eraseLength: nat, address: nat, buffer: seq<byte>)
      returns (ret: int, ghost erase: Outcome, ghost write: Outcome)
      requires tableValid
      modifies this, flash
      ensures erase.Legal(eraseLength) && write.Legal(|buffer|)
      ensures (View(), ret) == EraseThenWrite(old(View()), eraseOffset, eraseLength, address, buffer, erase, write)
      ensures ret == OK ==> erase == write == Done
      ensures CallEnds(old(View()), View(), ret, eraseOffset, eraseLength, address, buffer, erase, write)
      ensures requested == old(requested) + ErasedFirst(eraseOffset, eraseLength) +
                           if EraseFails(flash.Length, eraseOffset, eraseLength, erase) then []
                           else [Write(address, |buffer|)]
    {
      hide CallEnds;
      erase, write := Done, Done;
      if eraseLength != 0 {
        ret, erase := EraseRawStorage(eraseOffset, eraseLength);
        if ret != OK {
          EraseThenWriteEnds(old(View()), eraseOffset, eraseLength, address, buffer, erase, write);
          return;
        }
      }
      ret, write := WriteRawStorage(address, buffer);
      EraseThenWriteEnds(old(View()), eraseOffset, eraseLength, address, buffer, erase, write);
      if ret != OK {
        return;
      }
      ret := OK;
    }

    /** `bootloader_initChunkedEraseStorageSlot`. The lookup fills in the status's own slot, even when
        it refuses. */
    method InitChunkedEraseStorageSlot(slotId: nat, status: EraseStatus) returns (ret: int)
      modifies status
      ensures !tableValid ==> ret == ERROR_INIT_TABLE && status.View() == old(status.View())
      ensures tableValid ==>
                && ret == lookup(slotId).0
                && status.View() == if ret == OK then Start(lookup(slotId).1, pageSize)
                                    else old(status.View()).(slot := lookup(slotId).1)
    {
      var slot;
      ret, slot := GetStorageSlotInfo(slotId, status.slot);
      status.slot := slot;
      if ret != OK {
        return;
      }
      status.currentPageAddr := status.slot.address;
      status.pageSize := pageSize;
    }

    /** `bootloader_chunkedEraseStorageSlot` */
    method ChunkedEraseStorageSlot(status: EraseStatus) returns (ret: int, ghost outcome: Outcome)
      modifies this, flash, status
      ensures outcome.Legal(old(status.pageSize))
      ensures !tableValid ==>
                && View() == old(View()) && status.View() == old(status.View())
                && ret == if old(status.View()).AtEnd() then OK else ERROR_INIT_STORAGE
      ensures tableValid ==> (View(), status.View(), ret) == Step(old(View()), old(status.View()), outcome)
      ensures requested == old(requested) +
                           if tableValid && !old(status.View()).AtEnd()
                           then [Erase(old(status.currentPageAddr), old(status.pageSize))] else []
    {
      outcome := Done;
      if status.currentPageAddr == Wrap(status.slot.address + status.slot.length) {
        return OK, Done;
      }
      ret, outcome := EraseRawStorage(status.currentPageAddr, status.pageSize);
      if ret != OK {
        return;
      }
      status.currentPageAddr := Wrap(status.currentPageAddr + status.pageSize);
      if status.currentPageAddr == Wrap(status.slot.address + status.slot.length) {
        return OK, outcome;
      }
      ret := ERROR_STORAGE_CONTINUE;
    }
  }

  /** The range `bootloader_eraseWriteStorage` erases before it writes. */
  method EraseRange(storageStartAddr: nat, offset: nat, length: nat, flashPageSize: nat)
    returns (eraseOffset: nat, eraseLength: nat)
    requires offset < U32 && length < U32 && 0 < flashPageSize < 0x1_0000
    ensures (eraseOffset, eraseLength) == EraseSpan(storageStartAddr, offset, length, flashPageSize)
    ensures IsPow2(flashPageSize) && storageStartAddr + Ceil(offset + length, flashPageSize) < U32 ==>
              && eraseOffset == storageStartAddr + Ceil(offset, flashPageSize)
              && eraseLength == Ceil(offset + length, flashPageSize) - Ceil(offset, flashPageSize)
  {
    hide And, Not, IsPow2, Ceil, Wrap;
    if IsPow2(flashPageSize) && storageStartAddr + Ceil(offset + length, flashPageSize) < U32 {
      SpanFollowsRule(storageStartAddr, offset, length, flashPageSize);
    }
    if offset % flashPageSize != 0 {
      eraseOffset := Wrap(And(offset, Not(flashPageSize - 1)) + flashPageSize);
      if Wrap(offset + length) % flashPageSize != 0 {
        eraseLength := Wrap(And(Wrap(offset + length), Not(flashPageSize - 1)) + flashPageSize - eraseOffset);
      } else {
        eraseLength := Wrap(length - (flashPageSize - offset % flashPageSize));
      }
      eraseOffset := Wrap(storageStartAddr + eraseOffset);
    } else {
      eraseOffset := Wrap(storageStartAddr + offset);
      if length % flashPageSize != 0 {
        eraseLength := Wrap(And(length, Not(flashPageSize - 1)) + flashPageSize);
      } else {
        eraseLength := length;
      }
    }
  }

  lemma {:induction false} ConcatPrefix(chunks: seq<seq<byte>>, n: nat)
    requires n <= |chunks|
    ensures |Concat(chunks[..n])| <= |Concat(chunks)|
  {
    if n == 0 {
      assert chunks[..0] == [];
    } else {
      assert chunks[..n][1..] == chunks[1..][..n - 1];
      ConcatPrefix(chunks[1..], n - 1);
    }
  }

  lemma SpanIsErasedLength(start: nat, p: nat, offset: nat, data: seq<byte>)
    requires IsPow2(p) && 0 < p < 0x1_0000 && start + EraseEnd(offset, |data|, p) < U32
    ensures offset < U32 && |data| < U32
    ensures EraseSpan(start, offset, |data|, p) == (start + Ceil(offset, p), ErasedLength(offset, |data|, p))
  {
    CeilIsFirstBoundary(offset + |data|, p, 0);
    SpanFollowsRule(start, offset, |data|, p);
    hide IsPow2, Ceil, EraseSpan;
  }

  lemma EndIsCeil(offset: nat, length: nat, p: nat)
    requires p > 0
    ensures EraseEnd(offset, length, p) == Ceil(offset + length, p)
  {
  }

  // ----- Do accepted calls stay inside their slot? -----

  ghost predicate StaysInside(slot: Slot, a: nat, n: nat) {
    slot.address <= a && a + n <= slot.address + slot.length
  }

  /** Both the erase, if there is one, and the write of a call are inside the slot. */
  ghost predicate CallStaysInSlot(slot: Slot, p: nat, offset: nat, length: nat)
    requires offset < U32 && length < U32 && 0 < p < 0x1_0000
  {
    var (a, n) := EraseSpan(slot.address, offset, length, p);
    && (n > 0 ==> StaysInside(slot, a, n))
    && StaysInside(slot, Wrap(slot.address + offset), length)
  }

  /** An accepted call stays inside its slot exactly when the 32-bit sum that the argument check
      compares does not wrap, and the pages it erases, if any, end inside the slot... */
  lemma AcceptedCallStaysInSlotIff(pageSize: nat, lookup: nat -> (int, Slot), slotId: nat, offset: nat, length: nat)
    requires offset < U32 && length < U32
    requires ArgumentCode(true, pageSize, lookup, slotId, offset, length) == OK && IsPow2(pageSize % 0x1_0000)
    requires var slot := lookup(slotId).1; slot.address + slot.length + pageSize % 0x1_0000 <= U32
    ensures var (slot, p) := (lookup(slotId).1, pageSize % 0x1_0000);
            CallStaysInSlot(slot, p, offset, length) <==>
              && offset + length < U32
              && (Ceil(offset, p) < EraseEnd(offset, length, p) ==> EraseEnd(offset, length, p) <= slot.length)
  {
    var (slot, p) := (lookup(slotId).1, pageSize % 0x1_0000);
    if offset + length < U32 {
      WrapSmall(offset + length);
      WrapSmall(slot.address + offset);
      CeilIsFirstBoundary(offset, p, 0);
      CeilIsFirstBoundary(offset + length, p, 0);
      hide Ceil, IsPow2, EraseSpan, Wrap;
      SpanFollowsRule(slot.address, offset, length, p);
    } else {
      WrappedWriteLeavesSlot(slot, offset, length);
    }
  }

  lemma WrappedWriteLeavesSlot(slot: Slot, offset: nat, length: nat)
    requires offset < U32 && length < U32 <= offset + length && slot.address + slot.length < U32
    ensures !StaysInside(slot, Wrap(slot.address + offset), length)
  {
    if slot.address + offset < U32 {
      WrapSmall(slot.address + offset);
    } else {
      assert Wrap(slot.address + offset) == slot.address + offset - U32;
    }
  }

  /** ... which in a slot of whole pages leaves the sum alone to check. */
  lemma WholePageSlotIsSafeIffNoWrap(pageSize: nat, lookup: nat -> (int, Slot), slotId: nat, offset: nat, length: nat)
    requires offset < U32 && length < U32
    requires ArgumentCode(true, pageSize, lookup, slotId, offset, length) == OK && IsPow2(pageSize % 0x1_0000)
    requires var slot := lookup(slotId).1; slot.address + slot.length + pageSize % 0x1_0000 <= U32
    requires lookup(slotId).1.length % (pageSize % 0x1_0000) == 0
    ensures CallStaysInSlot(lookup(slotId).1, pageSize % 0x1_0000, offset, length) <==> offset + length < U32
  {
    AcceptedCallStaysInSlotIff(pageSize, lookup, slotId, offset, length);
    if offset + length < U32 {
      WrapSmall(offset + length);
      CeilIsFirstBoundary(offset + length, pageSize % 0x1_0000, lookup(slotId).1.length);
    }
  }

  /** An accepted call on a slot of 32 whole pages that erases and writes the page below it. */
  lemma WrappedCallHitsPageBelow()
    ensures var (offset, length, slot) := (U32 - 0x800, 0x800, Slot(0x2_0000, 0x1_0000));
            && ArgumentCode(true, 0x800, _ => (OK, slot), 0, offset, length) == OK
            && EraseSpan(slot.address, offset, length, 0x800) == (slot.address - 0x800, 0x800)
            && Wrap(slot.address + offset) == slot.address - 0x800
  {
  }

  lemma SpanIsEraseWrite(d: Device, start: nat, p: nat, offset: nat, data: seq<byte>, oe: Outcome, ow: Outcome)
    requires IsPow2(p) && 0 < p < 0x1_0000 && start + EraseEnd(offset, |data|, p) < U32
    ensures offset < U32 && |data| < U32
    ensures var (a, n) := EraseSpan(start, offset, |data|, p);
            EraseThenWrite(d, a, n, Wrap(start + offset), data, oe, ow) == EraseWrite(d, start, p, offset, data, oe, ow)
  {
    SpanFollowsRule(start, offset, |data|, p);
    CeilIsFirstBoundary(offset + |data|, p, 0);
    WrapSmall(start + offset);
    hide IsPow2, Ceil, EraseThenWrite, EraseSpan;
  }

  /** Why a call is refused before it touches the flash, or `OK`. */
  function ArgumentCode(tableValid: bool, pageSize: nat, lookup: nat -> (int, Slot), slotId: nat,
                        offset: nat, length: nat): (code: int)
    ensures code == OK ==> tableValid && pageSize % 0x1_0000 != 0 && lookup(slotId).0 == OK
  {
    if !tableValid then ERROR_INIT_TABLE
    else if pageSize % 0x1_0000 == 0 then ERROR_STORAGE_INVALID_SLOT
    else if lookup(slotId).0 != OK then lookup(slotId).0
    else if Wrap(offset + length) > lookup(slotId).1.length then ERROR_STORAGE_INVALID_ADDRESS
    else OK
  }
}
