/** Erasing a slot one page per call: `bootloader_chunkedEraseStorageSlot` as a state machine that
    can be resumed after a failed raw erase, and what every run of it does. */
module ChunkedErase {
  import opened Words
  import opened FlashPages

  datatype Slot = Slot(address: nat, length: nat)

  /** `BootloaderEraseStatus_t` */
  datatype ErasePosition = ErasePosition(currentPageAddr: nat, pageSize: nat, slot: Slot) {
    predicate AtEnd() {
      currentPageAddr == Wrap(slot.address + slot.length)
    }
  }

  function Start(slot: Slot, pageSize: nat): ErasePosition {
    ErasePosition(slot.address, pageSize, slot)
  }

  /** One call, whose raw erase ends with `o`. */
  function Step(d: Device, e: ErasePosition, o: Outcome): (Device, ErasePosition, int) {
    if e.AtEnd() then (d, e, OK)
    else
      var (d1, r) := RawErase(d, e.currentPageAddr, e.pageSize, o);
      if r != OK then (d1, e, r)
      else
        var e1 := e.(currentPageAddr := Wrap(e.currentPageAddr + e.pageSize));
        (d1, e1, if e1.AtEnd() then OK else ERROR_STORAGE_CONTINUE)
  }

  function Run(d: Device, e: ErasePosition, outcomes: seq<Outcome>): (Device, ErasePosition)
    decreases |outcomes|
  {
    if outcomes == [] then (d, e)
    else
      var (d1, e1, _) := Step(d, e, outcomes[0]);
      Run(d1, e1, outcomes[1..])
  }

  ghost predicate AllLegal(outcomes: seq<Outcome>, pageSize: nat) {
    forall i :: 0 <= i < |outcomes| ==> outcomes[i].Legal(pageSize)
  }

  function CountDone(outcomes: seq<Outcome>): nat {
    if outcomes == [] then 0 else (if outcomes[0].Done? then 1 else 0) + CountDone(outcomes[1..])
  }

  function PageOffset(k: nat, pageSize: nat): nat {
    k * pageSize
  }

  /** The raw erases of the first `k` pages of a slot. */
  function PageErases(address: nat, pageSize: nat, k: nat): seq<RawOp> {
    if k == 0 then []
    else PageErases(address, pageSize, k - 1) + [Erase(address + PageOffset(k - 1, pageSize), pageSize)]
  }

  /** After `k` pages: the position is at page `k`, exactly the first `k` pages have been erased, and
      nothing outside them has changed except that page `k` may be damaged by failed attempts. */
  ghost predicate Progress(before: Device, d: Device, e: ErasePosition, slot: Slot, pageSize: nat, k: nat) {
    var done := slot.address + PageOffset(k, pageSize);
    && e == ErasePosition(done, pageSize, slot)
    && |d.flash| == |before.flash|
    && d.log == before.log + PageErases(slot.address, pageSize, k)
    && forall i :: 0 <= i < |d.flash| ==>
         && (slot.address <= i < done ==> d.flash[i] == 0xFF)
         && (!(slot.address <= i < done + pageSize) || (done == slot.address + slot.length && done <= i) ==>
               d.flash[i] == before.flash[i])
  }

  /** A slot of `pages` whole pages inside a flash whose addresses fit 32 bits. */
  ghost predicate WholePages(before: Device, slot: Slot, pageSize: nat, pages: nat) {
    && pageSize > 0 && slot.length == PageOffset(pages, pageSize)
    && slot.address + slot.length <= |before.flash| < U32
  }

  lemma PageFits(k: nat, pages: nat, pageSize: nat)
    requires k < pages
    ensures PageOffset(k, pageSize) + pageSize == PageOffset(k + 1, pageSize) <= PageOffset(pages, pageSize)
  {
    assert (k + 1) * pageSize == k * pageSize + pageSize;
    TimesMonotone(k + 1, pages, pageSize);
  }

  /** One call advances by the page it erased, or leaves the position where it was; it reports `OK`
      exactly when the whole slot is erased. */
  lemma StepProgress(before: Device, d: Device, e: ErasePosition, slot: Slot, pageSize: nat, pages: nat,
                     k: nat, o: Outcome)
    requires WholePages(before, slot, pageSize, pages) && k <= pages
    requires Progress(before, d, e, slot, pageSize, k) && o.Legal(pageSize)
    ensures var (d', e', r) := Step(d, e, o);
            var k' := if k < pages && o.Done? then k + 1 else k;
            && Progress(before, d', e', slot, pageSize, k')
            && (r == OK <==> k' == pages)
            && (k' < pages ==> r == if o.Done? then ERROR_STORAGE_CONTINUE else o.code)
            && (k == pages ==> d' == d && e' == e)
  {
    hide PageOffset;
    if k < pages {
      PageFits(k, pages, pageSize);
      if k + 1 < pages {
        PageFits(k + 1, pages, pageSize);
      }
    }
  }

  /** For every sequence of raw outcomes: the run has erased the first `k` pages, in order and each
      once, where `k` counts the raw erases that completed, and stops at the end of the slot. */
  lemma {:induction false} RunProgress(before: Device, d: Device, e: ErasePosition, slot: Slot,
                                       pageSize: nat, pages: nat, k: nat, outcomes: seq<Outcome>)
    requires WholePages(before, slot, pageSize, pages) && k <= pages
    requires Progress(before, d, e, slot, pageSize, k) && AllLegal(outcomes, pageSize)
    ensures var (d', e') := Run(d, e, outcomes);
            var n := k + CountDone(outcomes);
            Progress(before, d', e', slot, pageSize, if n < pages then n else pages)
    decreases |outcomes|
  {
    if outcomes == [] {
    } else {
      var o := outcomes[0];
      StepProgress(before, d, e, slot, pageSize, pages, k, o);
      var (d1, e1, _) := Step(d, e, o);
      RunProgress(before, d1, e1, slot, pageSize, pages, if k < pages && o.Done? then k + 1 else k, outcomes[1..]);
    }
  }

  lemma ProgressAtEnd(before: Device, d: Device, e: ErasePosition, slot: Slot, pageSize: nat, pages: nat)
    requires WholePages(before, slot, pageSize, pages) && Progress(before, d, e, slot, pageSize, pages)
    ensures d.flash == Erased(before.flash, slot.address, slot.length)
    ensures e.currentPageAddr == slot.address + slot.length && e.slot == slot
  {
    hide PageOffset, PageErases;
  }

  /** Once as many raw erases as the slot has pages have completed, the slot and nothing else is
      erased, however many attempts failed in between and however many calls followed. */
  lemma EnoughCallsEraseSlot(d: Device, slot: Slot, pageSize: nat, pages: nat, outcomes: seq<Outcome>)
    requires WholePages(d, slot, pageSize, pages) && AllLegal(outcomes, pageSize)
    requires CountDone(outcomes) >= pages
    ensures var (d', e') := Run(d, Start(slot, pageSize), outcomes);
            && e'.AtEnd() && d'.flash == Erased(d.flash, slot.address, slot.length)
            && d'.log == d.log + PageErases(slot.address, pageSize, pages)
  {
    assert PageErases(slot.address, pageSize, 0) == [] && PageOffset(0, pageSize) == 0;
    WrapSmall(slot.address + slot.length);
    hide PageOffset, PageErases, Run, Wrap;
    RunProgress(d, d, Start(slot, pageSize), slot, pageSize, pages, 0, outcomes);
    var (d', e') := Run(d, Start(slot, pageSize), outcomes);
    ProgressAtEnd(d, d', e', slot, pageSize, pages);
  }

  // ----- Slots that are not a whole number of pages -----

  /** Without any assumption on the slot length: the position is a whole number of pages past the
      start of the slot and inside the flash. */
  lemma {:induction false} PositionIsPageMultiple(d: Device, slot: Slot, pageSize: nat, k: nat, outcomes: seq<Outcome>)
    requires slot.address + PageOffset(k, pageSize) <= |d.flash| < U32
    requires AllLegal(outcomes, pageSize)
    ensures exists n: nat :: Run(d, ErasePosition(slot.address + PageOffset(k, pageSize), pageSize, slot), outcomes).1
                             == ErasePosition(slot.address + PageOffset(n, pageSize), pageSize, slot)
    decreases |outcomes|
  {
    var e := ErasePosition(slot.address + PageOffset(k, pageSize), pageSize, slot);
    if outcomes == [] {
      assert Run(d, e, outcomes).1 == ErasePosition(slot.address + PageOffset(k, pageSize), pageSize, slot);
    } else {
      PageFits(k, k + 1, pageSize);
      hide PageOffset;
      var (d1, e1, r) := Step(d, e, outcomes[0]);
      if e1 == e {
        PositionIsPageMultiple(d1, slot, pageSize, k, outcomes[1..]);
      } else {
        WrapSmall(e.currentPageAddr + pageSize);
        PositionIsPageMultiple(d1, slot, pageSize, k + 1, outcomes[1..]);
      }
    }
  }

  function AllDone(n: nat): seq<Outcome> {
    seq(n, _ => Done)
  }

  lemma {:induction false} CountAllDone(n: nat)
    ensures CountDone(AllDone(n)) == n
  {
    if n == 0 {
    } else {
      assert AllDone(n)[1..] == AllDone(n - 1);
      CountAllDone(n - 1);
    }
  }

  lemma WholeMultiple(x: nat, n: nat, m: nat)
    requires x == PageOffset(n, m)
    ensures x == 0 || (m > 0 && x % m == 0)
  {
    if m > 0 {
      ModUnique(x, m, n, 0);
    }
  }

  lemma FinishedMeansWholePages(d: Device, slot: Slot, pageSize: nat, outcomes: seq<Outcome>)
    requires slot.address + slot.length <= |d.flash| < U32
    requires AllLegal(outcomes, pageSize) && Run(d, Start(slot, pageSize), outcomes).1.AtEnd()
    ensures slot.length == 0 || (pageSize > 0 && slot.length % pageSize == 0)
  {
    assert PageOffset(0, pageSize) == 0;
    PositionIsPageMultiple(d, slot, pageSize, 0, outcomes);
    WrapSmall(slot.address + slot.length);
    hide Run, PageOffset, Wrap;
    var n: nat :| Run(d, Start(slot, pageSize), outcomes).1
                  == ErasePosition(slot.address + PageOffset(n, pageSize), pageSize, slot);
    WholeMultiple(slot.length, n, pageSize);
  }

  lemma WholePagesFinish(d: Device, slot: Slot, pageSize: nat) returns (outcomes: seq<Outcome>)
    requires slot.address + slot.length <= |d.flash| < U32
    requires slot.length == 0 || (pageSize > 0 && slot.length % pageSize == 0)
    ensures AllLegal(outcomes, pageSize) && Run(d, Start(slot, pageSize), outcomes).1.AtEnd()
  {
    outcomes := [];
    if slot.length > 0 {
      var pages := slot.length / pageSize;
      assert slot.length == PageOffset(pages, pageSize);
      hide PageOffset, Run;
      outcomes := AllDone(pages);
      CountAllDone(pages);
      EnoughCallsEraseSlot(d, slot, pageSize, pages, outcomes);
    }
  }

  /** Some run reaches the end of the slot exactly when the slot is empty or a whole number of
      pages; otherwise no sequence of calls ever reports that the slot is erased. */
  lemma FinishesIffWholePages(d: Device, slot: Slot, pageSize: nat)
    requires slot.address + slot.length <= |d.flash| < U32
    ensures (exists outcomes :: AllLegal(outcomes, pageSize) && Run(d, Start(slot, pageSize), outcomes).1.AtEnd())
       <==> slot.length == 0 || (pageSize > 0 && slot.length % pageSize == 0)
  {
    if outcomes :| AllLegal(outcomes, pageSize) && Run(d, Start(slot, pageSize), outcomes).1.AtEnd() {
      FinishedMeansWholePages(d, slot, pageSize, outcomes);
    }
    if slot.length == 0 || (pageSize > 0 && slot.length % pageSize == 0) {
      var outcomes := WholePagesFinish(d, slot, pageSize);
    }
  }

  /** The position never meets the end of such a slot, so every completed erase takes one more page,
      past the end of the slot and on to the end of the flash. */
  lemma {:induction false} KeepsErasing(before: Device, d: Device, e: ErasePosition, slot: Slot,
                                        pageSize: nat, k: nat, n: nat)
    requires pageSize > 0 && slot.length % pageSize != 0 && slot.address + slot.length < U32
    requires slot.address + PageOffset(k + n, pageSize) <= |before.flash| < U32
    requires Progress(before, d, e, slot, pageSize, k)
    ensures var (d', e') := Run(d, e, AllDone(n)); Progress(before, d', e', slot, pageSize, k + n)
    decreases n
  {
    if n == 0 {
    } else {
      PageFits(k, k + n, pageSize);
      assert PageOffset(k, pageSize) != slot.length by {
        ModUnique(PageOffset(k, pageSize), pageSize, k, 0);
      }
      var (d1, e1, _) := Step(d, e, Done);
      assert Progress(before, d1, e1, slot, pageSize, k + 1) by {
        hide PageOffset;
        WrapSmall(slot.address + slot.length);
        WrapSmall(slot.address + PageOffset(k + 1, pageSize));
      }
      hide PageOffset, Progress, Step;
      assert AllDone(n)[0] == Done && AllDone(n)[1..] == AllDone(n - 1);
      KeepsErasing(before, d1, e1, slot, pageSize, k + 1, n - 1);
    }
  }

  /** Nothing outside the slot has been erased or changed. */
  ghost predicate StaysInSlot(before: Device, d: Device, slot: Slot) {
    && |d.flash| == |before.flash| && |before.log| <= |d.log|
    && (forall j :: |before.log| <= j < |d.log| ==>
          slot.address <= d.log[j].address && d.log[j].address + d.log[j].length <= slot.address + slot.length)
    && (forall b :: 0 <= b < |d.flash| && !(slot.address <= b < slot.address + slot.length) ==>
          d.flash[b] == before.flash[b])
  }

  /** The page that the end of the slot lies in, if it lies in one, does not fit the flash either. */
  predicate LastPageIsRefused(flashLength: nat, slot: Slot, pageSize: nat) {
    pageSize == 0 || slot.length % pageSize == 0 || slot.address + Ceil(slot.length, pageSize) > flashLength
  }

  ghost predicate AtPageInSlot(e: ErasePosition, slot: Slot, pageSize: nat, k: nat) {
    e == ErasePosition(slot.address + PageOffset(k, pageSize), pageSize, slot) && PageOffset(k, pageSize) <= slot.length
  }

  lemma NextPageInside(flashLength: nat, slot: Slot, pageSize: nat, k: nat)
    requires LastPageIsRefused(flashLength, slot, pageSize) && PageOffset(k, pageSize) < slot.length
    ensures PageOffset(k + 1, pageSize) == PageOffset(k, pageSize) + pageSize
    ensures PageOffset(k + 1, pageSize) <= slot.length || slot.address + PageOffset(k + 1, pageSize) > flashLength
  {
    PageFits(k, k + 1, pageSize);
    if PageOffset(k + 1, pageSize) > slot.length {
      ModUnique(slot.length, pageSize, k, slot.length - PageOffset(k, pageSize));
    }
  }

  lemma {:induction false} RefusedRunStaysInSlot(before: Device, d: Device, e: ErasePosition, slot: Slot,
                                                 pageSize: nat, k: nat, outcomes: seq<Outcome>)
    requires slot.address + slot.length <= |before.flash| < U32 && LastPageIsRefused(|before.flash|, slot, pageSize)
    requires StaysInSlot(before, d, slot) && AtPageInSlot(e, slot, pageSize, k) && AllLegal(outcomes, pageSize)
    ensures StaysInSlot(before, Run(d, e, outcomes).0, slot)
    decreases |outcomes|
  {
    hide PageOffset, Wrap, LastPageIsRefused;
    if outcomes == [] {
    } else {
      WrapSmall(slot.address + slot.length);
      var (d1, e1, _) := Step(d, e, outcomes[0]);
      if e.AtEnd() {
        RefusedRunStaysInSlot(before, d, e, slot, pageSize, k, outcomes[1..]);
      } else {
        NextPageInside(|before.flash|, slot, pageSize, k);
        if slot.address + PageOffset(k + 1, pageSize) <= |before.flash| {
          WrapSmall(slot.address + PageOffset(k + 1, pageSize));
        }
        RefusedRunStaysInSlot(before, d1, e1, slot, pageSize, if e1 == e then k else k + 1, outcomes[1..]);
      }
    }
  }

  /** No run touches anything outside the slot exactly when the slot is a whole number of pages, or
      the page its end lies in is refused because it leaves the flash. */
  lemma AllRunsStayInSlotIff(d: Device, slot: Slot, pageSize: nat)
    requires slot.address + slot.length <= |d.flash| < U32
    ensures (forall outcomes :: AllLegal(outcomes, pageSize) ==>
               StaysInSlot(d, Run(d, Start(slot, pageSize), outcomes).0, slot))
       <==> LastPageIsRefused(|d.flash|, slot, pageSize)
  {
    assert PageOffset(0, pageSize) == 0;
    if LastPageIsRefused(|d.flash|, slot, pageSize) {
      forall outcomes | AllLegal(outcomes, pageSize)
        ensures StaysInSlot(d, Run(d, Start(slot, pageSize), outcomes).0, slot)
      {
        RefusedRunStaysInSlot(d, d, Start(slot, pageSize), slot, pageSize, 0, outcomes);
      }
    } else {
      var outcomes := SomeRunLeavesSlot(d, slot, pageSize);
    }
  }

  lemma SomeRunLeavesSlot(d: Device, slot: Slot, pageSize: nat) returns (outcomes: seq<Outcome>)
    requires slot.address + slot.length <= |d.flash| < U32 && !LastPageIsRefused(|d.flash|, slot, pageSize)
    ensures AllLegal(outcomes, pageSize) && !StaysInSlot(d, Run(d, Start(slot, pageSize), outcomes).0, slot)
  {
    var q := slot.length / pageSize;
    assert slot.length == PageOffset(q, pageSize) + slot.length % pageSize;
    PageFits(q, q + 1, pageSize);
    assert Ceil(slot.length, pageSize) == PageOffset(q + 1, pageSize);
    assert PageErases(slot.address, pageSize, 0) == [] && PageOffset(0, pageSize) == 0;
    outcomes := AllDone(q + 1);
    hide PageOffset, Run;
    KeepsErasing(d, d, Start(slot, pageSize), slot, pageSize, 0, q + 1);
    var d' := Run(d, Start(slot, pageSize), outcomes).0;
    assert d'.log[|d'.log| - 1] == Erase(slot.address + PageOffset(q, pageSize), pageSize);
  }
}
