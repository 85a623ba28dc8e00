# Verified models of the remote control's C code

The repository is a two-board Bluetooth Low Energy remote control together with the vendor code it is
built on. This project models, in Dafny, the parts with the most state and arithmetic, and proves what
their documentation and their callers rely on.

`dafny verify dfyconfig.toml` checks everything.

| file | what it models |
|---|---|
| `BubbleOrder.dfy`, `SList.dfy`, `ListLaws.dfy` | the intrusive singly linked list: heap nodes, a cursor that is a pointer to a link, and the in-place bubble sort |
| `FlashPages.dfy`, `ChunkedErase.dfy`, `Storage.dfy` | the bootloader's storage calls on a flash array: erase-and-write with page rounding, and erasing a slot one page per call |
| `Lifecycle.dfy` | bootloader init and deinit by any number of interleaved callers |
| `Pid.dfy`, `Interpolation.dfy`, `CircularBuffer.dfy` | the fixed-point PID controller, linear interpolation and circular buffers |
| `Mpu.dfy`, `Nvic.dfy` | loading a table into the memory protection unit, and packing interrupt priorities |
| `Client.dfy`, `ClientRuns.dfy`, `ClientEvents.dfy`, `Server.dfy` | the two event machines of the application |
| `BoundedString.dfy` | copying and appending C strings in buffers of a stated size |
| `Words.dfy` | wrap-around, powers of two and bitwise operators on integers |

Code that changes state is a class or a method over arrays whose contract equates the new state with a
function of the old one; the theorems are about those functions and about whole runs. Where a call
depends on something foreign, the outcome is an input: the raw flash functions may fail with any code
and leave anything in their range (`FlashPages.Outcome`), slot lookup may return anything, the Bluetooth stack may accept or refuse
every request (`Client.Input`, `Server.Input`).

## Where a promise does not hold, and exactly when it does

- `sl_slist_sort` loops for ever on a comparison that leaves two different items unordered, such as a
  strict one with equal keys. `SList.SList.SortPass` ties the heap code to `Pass` for every comparison;
  `BubbleOrder.PassesStopIffTotal`: for a transitive comparison the passes stop if and only if every
  two different items are ordered one way or the other; `BubbleOrder.UnorderedPairLoopsForEver` is
  the smallest list on which they do not.
- `bootloader_eraseWriteStorage` erases the pages that start in the written range, for all ranges, if and
  only if the page size is a power of two (`FlashPages.SpanFollowsRuleIffPow2`, witness
  `FlashPages.JustOverOnePage`); for such a page size the erases of writes inside a slot stay inside it
  if and only if the slot is a whole number of pages (`FlashPages.InnerErasesStayInSlotIff`). But the
  argument check compares a 32-bit sum of offset and length: an accepted call on a slot of whole pages
  erases and writes inside it if and only if that sum does not wrap
  (`Storage.WholePageSlotIsSafeIffNoWrap`, and `Storage.AcceptedCallStaysInSlotIff` for any slot; witness
  `Storage.WrappedCallHitsPageBelow`, which erases the page below the slot).
- Chunked erase reports a slot as erased on some run if and only if the slot is empty or a whole number
  of pages (`ChunkedErase.FinishesIffWholePages`); otherwise it erases on past the end of the slot
  (`ChunkedErase.KeepsErasing`, `ChunkedErase.AllRunsStayInSlotIff`).
- Winning init and deinit swaps alternate, but the bootloader's own functions are called after the
  atomic section, so a deinit can overtake the init it undoes (`Lifecycle.DeinitCanOvertakeInit`).
  They alternate whatever the scheduler does if and only if no swap is won while an earlier winner is
  waiting (`Lifecycle.AlwaysAlternatesIffAllWonAlone`); callers that start no init or deinit before the
  one before has returned keep to that.
- The PID output is not saturated, although the comment above the function says so; it wraps. A step
  returns the saturated sum if and only if the sum fits 32 bits or is 3*2^31-1 or -3*2^31, which wrap to
  the limits themselves (`Pid.StepSaturatesIff`, `Pid.ChanceIsReachable`). Scaling the input down by two
  bits, as the comment advises, keeps the accumulator inside 64 bits (`Pid.ScaledAccumulatorFits`) and
  rules the chance out (`Pid.ScaledStepSaturatesIff`), but not the wrap: a constant scaled input is
  handled as documented for ever if and only if the integral part adds nothing and the first two outputs
  fit (`Pid.ConstantInputAsDocumentedIff` with `Pid.LaterStepIsIntegral`, witness `Pid.ScaledRunWraps`).
- The circular buffers' comment mentions negative increments; with up to 2^30 samples, offsets stay
  inside for blocks of every length if and only if the increment is between 0 and the buffer length
  (`CircularBuffer.AlwaysInsideIff`). The write offset is stored in 16 bits: it is where the block ended
  if and only if the buffer has at most 2^16 samples (`CircularBuffer.StoredOffsetIsExactIff`). The
  destination of a read stays inside for blocks of every length if and only if its increment divides the
  distances to its end (`CircularBuffer.DstAlwaysInsideIff`).
- Loading the memory protection unit depends on the region selected before unless the first entry has
  VALID, or the entries from the first VALID one on cover every region (`Mpu.IndependentOfSelectionIff`,
  `Mpu.FullTableIsIndependent`).
- The client's machine waits for each procedure to complete, but its event handler does not: a button
  signal during discovery makes a second attribute request outstanding
  (`ClientRuns.BreaksOneRequestRuleIff`, `ClientRuns.SignalDuringDiscoveryBreaksRule`). The machine uses
  only handles reported in the current connection on well-behaved runs
  (`ClientRuns.WellBehavedRunsUseReportedHandles`); the handler does so if and only if the keypad
  characteristic has been reported in a connection that is still open
  (`ClientRuns.HandlerUsesStaleHandleIff`, `ClientRuns.SignalBeforeReportIsStale`,
  `ClientRuns.SignalAfterCloseIsStale`). A scan report overwrites the connection that the machine goes on
  to use (`ClientRuns.MachineUsesOpenConnectionIff`, `ClientRuns.ScanReportDivertsDiscovery`).
- The client reads the keypad characteristic when it is notified, but it takes the answer for another
  reason to read, so it reads for as long as the server answers (`ClientEvents.ValueIsReadAgainIff`,
  `ClientEvents.ReadingNeverEnds`).
- The server's "may send" flag survives a disconnect, and a notification is addressed to the connection
  of the last event about the button. It reaches the open connection if and only if that is the same
  (`Server.ReachesPeerIff`). After a subscribed client has left with nothing in flight, the next
  button signal notifies a client that has not subscribed if and only if its connection has the same handle
  (`Server.UnaskedIffSettingIsLeftOver`, `Server.LeftOverSettingNotifiesNextClient`); otherwise the
  notification goes to the closed connection (`Server.LeftOverSettingNotifiesClosedConnection`,
  `Server.LeftOverSettingNotifiesNobody`). The "in flight" flag survives too. Only a confirmation clears
  it, and notifications are not confirmed: without a confirmation event the server sends one
  notification and no more (`Server.EachConfirmationAllowsOneMore`).

## Model

| member | source | states |
|---|---|---|
| SList.SList.Push | gecko_sdk_3.2.9/platform/common/src/sl_slist.c:53-61 | the list becomes the item followed by the old list, still acyclic |
| SList.SList.PushBack | gecko_sdk_3.2.9/platform/common/src/sl_slist.c:66-80 | the list becomes the old list followed by the item |
| SList.SList.Pop | gecko_sdk_3.2.9/platform/common/src/sl_slist.c:85-101 | takes the head and clears its link; null and no change on an empty list |
| SList.SList.Insert | gecko_sdk_3.2.9/platform/common/src/sl_slist.c:106-114 | places the item right after `pos` without seeing the head |
| SList.SList.Remove | gecko_sdk_3.2.9/platform/common/src/sl_slist.c:119-135 | deletes exactly that item and leaves its link alone; no change when it is absent |
| SList.SList.Unlink | gecko_sdk_3.2.9/platform/common/src/sl_slist.c:128-131 | the store through the cursor takes out the one item it points to |
| SList.SList.SwapNeighbours | gecko_sdk_3.2.9/platform/common/src/sl_slist.c:161-168 | the pointer rewrites exchange two neighbours and nothing else, and leave the cursor on the link of the item now in front |
| SList.SList.SortPass | gecko_sdk_3.2.9/platform/common/src/sl_slist.c:151-175 | for every comparison, one run of the outer loop on the heap is one `Pass`: n-1 comparisons, a swap flag that is false exactly when the list was in order, and, when any two different items are ordered, one inversion fewer per swap |
| SList.SList.Sort | gecko_sdk_3.2.9/platform/common/src/sl_slist.c:140-178 | terminates for every comparison that orders any two different items, with the same nodes and neighbours in order; for a transitive one the list is the stable sort, after at most max(1,n) passes and one swap per inversion |
| BubbleOrder.SwapRemovesOneInversion | gecko_sdk_3.2.9/platform/common/src/sl_slist.c:160-170 | a swap of two neighbours out of order lowers the number of out-of-order pairs by exactly one |
| BubbleOrder.BubbleKeepsOrder | gecko_sdk_3.2.9/platform/common/src/sl_slist.c:151-175 | a pass never turns round a pair that is in order, so equivalent items keep their order |
| BubbleOrder.PassesSettle | gecko_sdk_3.2.9/platform/common/src/sl_slist.c:149-177 | after k passes the last k items are sorted and bound everything before them |
| BubbleOrder.LastItemsAreFinal | gecko_sdk_3.2.9/platform/common/src/sl_slist.c:149-177 | no later pass moves the last k items |
| BubbleOrder.ArrangedIsUnique | gecko_sdk_3.2.9/platform/common/src/sl_slist.c:140-178 | a list has only one stable arrangement, so the specification of the sort determines its result |
| BubbleOrder.BubbleSortIsStableSort | gecko_sdk_3.2.9/platform/common/src/sl_slist.c:140-178 | whenever the passes stop, the list is that arrangement |
| BubbleOrder.PassesStopIffTotal | gecko_sdk_3.2.9/platform/common/src/sl_slist.c:149-177 | for a transitive comparison the passes stop exactly when any two different items are ordered |
| BubbleOrder.UnorderedPairLoopsForEver | gecko_sdk_3.2.9/platform/common/src/sl_slist.c:149-177 | two items ordered neither way change places in every pass and are never in order, so the loop does not end |
| SList.SortEnds | gecko_sdk_3.2.9/platform/common/src/sl_slist.c:149-177 | what a finished run of passes means: stable arrangement, pass bound, swap count |
| ListLaws.RunOps | gecko_sdk_3.2.9/platform/common/src/sl_slist.c:53-135 | any sequence of push, push_back, pop, insert and remove on a heap list leaves the list, and hands back the items, that the function `Run` says |
| ListLaws.QueueRunConserves | gecko_sdk_3.2.9/platform/common/src/sl_slist.c:66-101 | FIFO: for any interleaving of push_back and pop, what came out followed by what is left is what was there followed by what was put in |
| ListLaws.NestedRunRestores | gecko_sdk_3.2.9/platform/common/src/sl_slist.c:53-101 | LIFO: pushes and pops that match leave everything below them alone |
| ListLaws.PopReturnsMatchingPush | gecko_sdk_3.2.9/platform/common/src/sl_slist.c:53-101 | the pop that closes a matched run returns the item pushed before it |
| ListLaws.RemoveUndoesInsert | gecko_sdk_3.2.9/platform/common/src/sl_slist.c:106-135 | removing an item just inserted restores the list |
| ListLaws.RemoveUndoesPush | gecko_sdk_3.2.9/platform/common/src/sl_slist.c:53-135 | removing an item just pushed at either end restores the list |
| FlashPages.CeilIsFirstBoundary | gecko_sdk_3.2.9/platform/bootloader/api/btl_interface_storage.h:242-249 | the rounding rule is the first page boundary at or after an offset |
| FlashPages.MaskRoundsDownIffPow2 | gecko_sdk_3.2.9/platform/bootloader/api/btl_interface_storage.c:107-133 | the mask clears the remainder of every address exactly for power-of-two page sizes |
| FlashPages.ErasesStayInSlotIffWholePages | gecko_sdk_3.2.9/platform/bootloader/api/btl_interface_storage.h:242-249 | the rounding rule, for every page size: it stays inside the slot for all writes inside exactly when the slot length is a page multiple |
| FlashPages.SpanFollowsRuleIffPow2 | gecko_sdk_3.2.9/platform/bootloader/api/btl_interface_storage.c:105-142 | the four branches compute the rounding rule, for all ranges whose addresses fit 32 bits, exactly for power-of-two page sizes |
| FlashPages.JustOverOnePage | gecko_sdk_3.2.9/platform/bootloader/api/btl_interface_storage.c:128-137 | for any other page size, a write of one byte more than a page from offset 0 erases the wrong number of bytes |
| FlashPages.InnerErasesStayInSlotIff | gecko_sdk_3.2.9/platform/bootloader/api/btl_interface_storage.c:105-142 | for power-of-two pages the erases that the four branches compute for all writes inside a slot stay inside it exactly when it is a whole number of pages |
| Storage.AcceptedCallStaysInSlotIff | gecko_sdk_3.2.9/platform/bootloader/api/btl_interface_storage.c:101-149 | for power-of-two pages, an accepted call erases and writes inside its slot exactly when the 32-bit sum compared at line 101 does not wrap and the erased pages, if any, end inside the slot |
| Storage.WholePageSlotIsSafeIffNoWrap | gecko_sdk_3.2.9/platform/bootloader/api/btl_interface_storage.c:101-149 | in a slot of whole pages that is exactly when the sum does not wrap |
| Storage.WrappedCallHitsPageBelow | gecko_sdk_3.2.9/platform/bootloader/api/btl_interface_storage.c:101-149 | an accepted call on a slot of whole pages that erases and writes the page below it |
| Storage.EraseRange | gecko_sdk_3.2.9/platform/bootloader/api/btl_interface_storage.c:105-142 | the erased range for every page size, with 16-bit page size and 32-bit wrap-around; for power-of-two pages and addresses that fit, the pages that start in the written range |
| Storage.Bootloader.EraseWriteStorage | gecko_sdk_3.2.9/platform/bootloader/api/btl_interface_storage.c:71-156 | each error code, in order, before anything is touched; otherwise the computed range is erased, if not empty, and then the buffer written, for every page size and address: which raw calls are made, the log, the code and every byte of the flash, for each way the erase and the write can end; for power-of-two pages and addresses that fit that is the rounding rule |
| Storage.Bootloader.EraseAndWriteRaw | gecko_sdk_3.2.9/platform/bootloader/api/btl_interface_storage.c:143-155 | the erase is skipped when empty; after a failed erase no write is called, the log is unchanged, every byte outside the erased range is unchanged and the code is the one of the erase; after a failed write the log has gained the erase alone and every byte outside the two ranges is unchanged |
| FlashPages.EraseThenWriteEnds | gecko_sdk_3.2.9/platform/bootloader/api/btl_interface_storage.c:143-155 | the same, byte by byte, of the function the method is compared with, for every device and every pair of outcomes |
| Storage.Bootloader.EraseRawStorage | gecko_sdk_3.2.9/platform/bootloader/api/btl_interface_storage.c:392-401 | the pointer check, then the assumed raw erase: the range becomes 0xFF, or a failure leaves anything in it |
| Storage.Bootloader.WriteRawStorage | gecko_sdk_3.2.9/platform/bootloader/api/btl_interface_storage.c:359-368 | the pointer check, then the assumed raw write: bytes are ANDed in, or a failure leaves anything in the range |
| Storage.Bootloader.GetStorageSlotInfo | gecko_sdk_3.2.9/platform/bootloader/api/btl_interface_storage.c:37-45 | whatever code and slot the foreign lookup gives, or the table error with the slot untouched |
| FlashPages.StoresDataIffStartIsProgrammable | gecko_sdk_3.2.9/platform/bootloader/api/btl_interface_storage.h:242-249 | a call that starts inside a page stores its data exactly when the bytes before the next boundary still have the bits it needs |
| Storage.Bootloader.EraseWriteChunks | gecko_sdk_3.2.9/platform/bootloader/api/btl_interface_storage.h:242-249 | back-to-back calls on the flash array, with their argument checks, until one fails: if none does, the chunks are stored one after the other; otherwise the chunks before the failing one stay stored, nothing has changed outside the range up to the last page it touches, and if its erase failed no write was called and the rest of the page in use is still erased |
| FlashPages.StreamStops | gecko_sdk_3.2.9/platform/bootloader/api/btl_interface_storage.c:143-155 | what a stream leaves when the erase or the write of one of its calls fails, whatever that left in its range |
| FlashPages.StreamStoresChunks | gecko_sdk_3.2.9/platform/bootloader/api/btl_interface_storage.h:242-249 | any number of back-to-back calls of any lengths leave the range equal to the concatenated buffers, the rest of the last page erased and all other bytes unchanged; the calls are `EraseWrite`, which is the code for power-of-two pages |
| FlashPages.StreamErasesOncePerPage | gecko_sdk_3.2.9/platform/bootloader/api/btl_interface_storage.h:242-249 | every byte of the pages entered is erased exactly once, before its first write, written once, and never erased again; the calls are `EraseWrite`, which is the code for power-of-two pages |
| FlashPages.StreamLives | gecko_sdk_3.2.9/platform/bootloader/api/btl_interface_storage.c:71-156 | the same from any offset whose page is partly written; the calls are `EraseWrite`, which is the code for power-of-two pages |
| Storage.Bootloader.InitChunkedEraseStorageSlot | gecko_sdk_3.2.9/platform/bootloader/api/btl_interface_storage.c:167-183 | the position starts at the slot; on a refusal only the slot field holds what the lookup left there |
| Storage.Bootloader.ChunkedEraseStorageSlot | gecko_sdk_3.2.9/platform/bootloader/api/btl_interface_storage.c:185-205 | one call is one step of the erase machine, for every way the raw erase can end |
| ChunkedErase.StepProgress | gecko_sdk_3.2.9/platform/bootloader/api/btl_interface_storage.c:185-205 | a call advances by the page it erased or leaves the position alone, reports OK exactly when the slot is erased, and erases nothing once done |
| ChunkedErase.RunProgress | gecko_sdk_3.2.9/platform/bootloader/api/btl_interface_storage.c:185-205 | for every sequence of outcomes exactly the first k pages are erased, k counting the raw erases that completed |
| ChunkedErase.EnoughCallsEraseSlot | gecko_sdk_3.2.9/platform/bootloader/api/btl_interface_storage.h:290-306 | enough completed erases leave exactly the slot erased and nothing else changed, however many attempts failed |
| ChunkedErase.FinishesIffWholePages | gecko_sdk_3.2.9/platform/bootloader/api/btl_interface_storage.c:188-204 | some run reports the slot as erased exactly when it is empty or a whole number of pages |
| ChunkedErase.AllRunsStayInSlotIff | gecko_sdk_3.2.9/platform/bootloader/api/btl_interface_storage.c:188-204 | no run erases or changes anything outside the slot exactly when it is a whole number of pages (or its last, partial page does not fit the flash, or pages are empty) |
| ChunkedErase.KeepsErasing | gecko_sdk_3.2.9/platform/bootloader/api/btl_interface_storage.c:194-204 | for any other slot n completed erases take n whole pages, past the end of the slot, up to the end of the flash |
| Lifecycle.Interface.InitBootloader | gecko_sdk_3.2.9/platform/bootloader/api/btl_interface.c:56-77 | undisturbed, init is swap then call and returns what the table's own init returns; a second init does nothing, even when the first reported an error |
| Lifecycle.Interface.DeinitBootloader | gecko_sdk_3.2.9/platform/bootloader/api/btl_interface.c:79-100 | undisturbed, deinit is swap then call and returns what the table's own deinit returns; without an init before it does nothing |
| Lifecycle.EveryRunIsConsistent | gecko_sdk_3.2.9/platform/bootloader/api/btl_interface.c:56-100 | for any interleaving winning swaps alternate init, deinit, init; init wins exceed deinit wins by one exactly while the flag is set; each win calls its function at most once |
| Lifecycle.AnyNextAlternatesIff | gecko_sdk_3.2.9/platform/bootloader/api/btl_interface.c:65-76 | with the calls in winning order so far, whichever winner goes next the functions alternate, exactly when at most one winner is waiting |
| Lifecycle.AlwaysAlternatesIffAllWonAlone | gecko_sdk_3.2.9/platform/bootloader/api/btl_interface.c:56-100 | at every point of a run, whichever winner the scheduler picks next, the functions alternate, exactly when no swap of the run is won while an earlier winner is waiting |
| Lifecycle.OldestFirstAlternates | gecko_sdk_3.2.9/platform/bootloader/api/btl_interface.c:56-100 | on every run in which the oldest winner always goes first the functions alternate |
| Lifecycle.DeinitCanOvertakeInit | gecko_sdk_3.2.9/platform/bootloader/api/btl_interface.c:65-97 | an interleaving that ends with the flag clear but init called last |
| Pid.PidQ31.Process | gecko_sdk_3.2.9/platform/CMSIS/Include/arm_math.h:4810-4839 | the output is the last output plus the increment, truncated to 32 bits, and equally the ideal value truncated, whatever overflowed now or in earlier steps |
| Pid.AccumulatorWraps | gecko_sdk_3.2.9/platform/CMSIS/Include/arm_math.h:4817-4827 | a wrapped 64-bit accumulator gives the same 32-bit increment as the exact one |
| Pid.StepSaturatesIff | gecko_sdk_3.2.9/platform/CMSIS/Include/arm_math.h:4804-4839 | for all 32-bit gains, samples and states the output is the saturated sum of the last output and the increment exactly when that sum fits 32 bits, or is one of the two sums that wrap to the limit itself |
| Pid.ChanceIsReachable | gecko_sdk_3.2.9/platform/CMSIS/Include/arm_math.h:4810-4839 | a run in which such a sum occurs |
| Pid.ScaledAccumulatorFits | gecko_sdk_3.2.9/platform/CMSIS/Include/arm_math.h:4804-4827 | inputs scaled down by two bits keep the accumulator inside 64 bits after every addition, as documented |
| Pid.ScaledStepSaturatesIff | gecko_sdk_3.2.9/platform/CMSIS/Include/arm_math.h:4804-4839 | on such inputs the output is the saturated sum exactly when the sum fits |
| Pid.AsDocumentedIffAlwaysFits | gecko_sdk_3.2.9/platform/CMSIS/Include/arm_math.h:4804-4839 | on runs of such inputs every output is that of the documented, saturating controller exactly when no ideal output leaves 32 bits |
| Pid.ConstantInputAsDocumentedIff | gecko_sdk_3.2.9/platform/CMSIS/Include/arm_math.h:4804-4839 | a constant input is handled as documented for ever exactly when the later increments are zero and the first two outputs fit |
| Pid.ScaledRunWraps | gecko_sdk_3.2.9/platform/CMSIS/Include/arm_math.h:4804-4839 | a constant scaled input with integral gain whose fifth output is negative instead of the upper limit |
| Pid.IncrementsTelescope | gecko_sdk_3.2.9/platform/CMSIS/Include/arm_math.h:4818-4831 | with A0=Kp+Ki+Kd, A1=-Kp-2Kd, A2=Kd each step adds the change of the positional form |
| Pid.DriftIsBounded | gecko_sdk_3.2.9/platform/CMSIS/Include/arm_math.h:4810-4839 | after n steps the ideal output is at or below the positional form by less than n units |
| Pid.OutputKeepsDriftBoundIffItFits | gecko_sdk_3.2.9/platform/CMSIS/Include/arm_math.h:4810-4839 | the output keeps to that bound exactly when the ideal value fits 32 bits |
| Interpolation.InterpolatesTable | gecko_sdk_3.2.9/platform/CMSIS/Include/arm_math.h:5471-5513 | reads only inside the table; clamps outside it; in between at most 4 below the smaller and never above the larger neighbour, and within five units below and one above exact interpolation |
| Interpolation.BlendDoesNotOverflow | gecko_sdk_3.2.9/platform/CMSIS/Include/arm_math.h:5495-5511 | no intermediate value leaves 32 bits |
| Interpolation.BoundsAreReached | gecko_sdk_3.2.9/platform/CMSIS/Include/arm_math.h:5504-5511 | inputs on which the bounds are attained |
| CircularBuffer.CircularWriteQ15 | gecko_sdk_3.2.9/platform/CMSIS/Include/arm_math.h:5886-5924 | the buffer after a block, sample by sample, and the 16-bit offset stored back; for unit increments and a block that fits, slot (offset+i) mod L holds source element i*srcInc and all other slots are as before |
| CircularBuffer.CircularReadQ15 | gecko_sdk_3.2.9/platform/CMSIS/Include/arm_math.h:5930-5980 | the destination after a block, wrapping when it meets its end, and the offset stored back |
| CircularBuffer.OffsetIsModular | gecko_sdk_3.2.9/platform/CMSIS/Include/arm_math.h:5913-5916 | increments from 0 to L move the offset by modular addition as long as L plus the increment fits the 32-bit sum |
| CircularBuffer.AlwaysInsideIff | gecko_sdk_3.2.9/platform/CMSIS/Include/arm_math.h:5913-5916 | with 32-bit sums and L up to 2^30, blocks of every length stay inside the buffer exactly for increments from 0 to L |
| CircularBuffer.DstAlwaysInsideIff | gecko_sdk_3.2.9/platform/CMSIS/Include/arm_math.h:5955-5961 | a destination wraps only when it meets its end exactly, so it stays inside for blocks of every length exactly when the increment divides the distance to the end from its start and from its base |
| CircularBuffer.RoundTrip | gecko_sdk_3.2.9/platform/CMSIS/Include/arm_math.h:5886-5980 | reading a written block from the old offset returns its samples in order, for all increments with which neither side meets itself |
| CircularBuffer.UnitRoundTrip | gecko_sdk_3.2.9/platform/CMSIS/Include/arm_math.h:5886-5980 | the case of unit increments and n samples with n at most L, including a destination that wraps; both offsets end the loop at (old+n) mod L, and the stored 16-bit write offset is that for L up to 2^16 |
| CircularBuffer.WriteThenRead | gecko_sdk_3.2.9/platform/CMSIS/Include/arm_math.h:5886-5980 | the two functions called one after the other on the arrays: source element i*srcInc arrives i places round the destination, nothing else in it changes, and both offsets end at (old+n) mod L, the stored one modulo 2^16 |
| CircularBuffer.StoredOffsetIsExactIff | gecko_sdk_3.2.9/platform/CMSIS/Include/arm_math.h:5913-5923 | the stored write offset is (old+n) mod L, for all n and all offsets that can be stored, exactly when L is at most 2^16 |
| CircularBuffer.LastSamplesSurvive | gecko_sdk_3.2.9/platform/CMSIS/Include/arm_math.h:5886-5924 | a block of any length leaves its last L samples, each in its slot |
| CircularBuffer.CapacityIsExact | gecko_sdk_3.2.9/platform/CMSIS/Include/arm_math.h:5886-5980 | whatever the samples, all can be read back exactly when the block is no longer than the buffer |
| Mpu.Mpu.SetRegion | gecko_sdk_3.2.9/platform/CMSIS/Include/mpu_armv7.h:150-154 | afterwards the region named by RBAR, or the selected one if VALID is clear, has the base address of RBAR bits 31:5 and the attributes of RASR, and every other region is as before |
| Mpu.Mpu.OrderedCpy | gecko_sdk_3.2.9/platform/CMSIS/Include/mpu_armv7.h:173-180 | words in order from RBAR on, never past the fourth alias pair |
| Mpu.Mpu.Load | gecko_sdk_3.2.9/platform/CMSIS/Include/mpu_armv7.h:186-195 | a table of any length loaded in fours leaves the same registers as setting its rows one by one; if its rows name distinct regions, each of these has the base address and attributes of its row and the others are as before |
| Mpu.FieldsMakeUpRbar | gecko_sdk_3.2.9/platform/CMSIS/Include/core_cm4.h:1261-1269 | ADDR, VALID and REGION make up RBAR |
| Mpu.DistinctRowsAreHeld | gecko_sdk_3.2.9/platform/CMSIS/Include/mpu_armv7.h:182-195 | setting rows that name distinct regions leaves each of them with its base address and attributes |
| Mpu.WordsSetRows | gecko_sdk_3.2.9/platform/CMSIS/Include/core_cm4.h:1220-1235 | words written through RBAR, RASR and their aliases set one row after the other |
| Mpu.LastEntryWins | gecko_sdk_3.2.9/platform/CMSIS/Include/mpu_armv7.h:182-195 | each region holds the last entry that went to it |
| Mpu.OtherRegionsUnchanged | gecko_sdk_3.2.9/platform/CMSIS/Include/mpu_armv7.h:182-195 | a region no entry went to is unchanged |
| Mpu.TargetsOfUniformTables | gecko_sdk_3.2.9/platform/CMSIS/Include/core_cm4.h:1265-1269 | with VALID in every entry each goes to the region it names; without VALID all go to the selected one |
| Mpu.IndependentOfSelectionIff | gecko_sdk_3.2.9/platform/CMSIS/Include/mpu_armv7.h:182-195 | with n regions, 2 <= n <= 16, the registers after a load do not depend on which of them was selected before exactly when the first entry has VALID, or some entry has and every region is the target of an entry from the first VALID one on |
| Mpu.FullTableIsIndependent | gecko_sdk_3.2.9/platform/CMSIS/Include/mpu_armv7.h:182-195 | for every n a table of the second kind |
| Nvic.BitsAddUp | gecko_sdk_3.2.9/platform/CMSIS/Include/core_cm4.h:1858-1859 | preempt and sub bits add up to the implemented bits, the preempt part limited by the group |
| Nvic.EncodeValue | gecko_sdk_3.2.9/platform/CMSIS/Include/core_cm4.h:1852-1865 | the encoded value is the reduced preempt priority above the reduced subpriority, within the implemented bits |
| Nvic.DecodePriority | gecko_sdk_3.2.9/platform/CMSIS/Include/core_cm4.h:1879-1890 | the fields returned are reduced and encode back to the priority's implemented bits |
| Nvic.DecodeUndoesEncode | gecko_sdk_3.2.9/platform/CMSIS/Include/core_cm4.h:1852-1890 | what decoding returns for an encoded pair is that pair, reduced |
| Nvic.EncodedOrderIsLexicographic | gecko_sdk_3.2.9/platform/CMSIS/Include/core_cm4.h:1852-1865 | encoded values are ordered by preempt priority and then by subpriority |
| Nvic.EncodeIsInjectiveOnFields | gecko_sdk_3.2.9/platform/CMSIS/Include/core_cm4.h:1852-1865 | two encodings agree exactly when the reduced fields do |
| Client.BleClient.HandleEvent | src/ble.c:295-651 | the attribute-protocol part of the client's event handler |
| Client.BleClient.DiscoveryStateMachine | src/scheduler.c:92-253 | one transition of the discovery machine and the request it makes |
| Client.BleClient.OnEvent | app.c:230-258 | the handler first, then the machine, on shared data |
| ClientEvents.EveryRunFollowsEvents | src/scheduler.c:101-251 | for every trace the state counts the procedures completed since the discovery began, being stateWAIT exactly when five have; the notification flag is the setting asked for last (off at boot, on when the fifth completes, toggled by each signal); the open flag, the connection and all four handles are the last ones reported |
| ClientEvents.SignalAsksForOtherSetting | src/ble.c:618-645 | on every run a button signal makes exactly one request, set-notification with the negation of that setting |
| ClientEvents.SignalsAlternate | src/ble.c:618-645 | successive signals ask for opposite settings, whatever the stack answered, unless a boot or the end of a discovery comes between |
| ClientEvents.FirstSignalAfterDiscoveryDisables | src/ble.c:633-645 | the first signal after a finished discovery switches the notifications off |
| ClientEvents.ValueIsReadAgainIff | src/ble.c:530-541 | on every run a value makes the handler read exactly when it is of the keypad characteristic and was notified or read |
| ClientEvents.ReadingNeverEnds | src/ble.c:530-541 | n answers to its reads make the handler read n more times, for every n |
| ClientEvents.MachineAsksInTurn | src/scheduler.c:101-219 | on every run the request made when a connection is opened or a procedure completes, with the handles reported last |
| ClientEvents.OtherEventsAskNothing | src/scheduler.c:92-253 | no other event makes the handler or the machine ask for anything |
| ClientRuns.EveryRunDiscoversInOrder | src/scheduler.c:101-251 | for every trace the machine's requests since it left stateOPEN are the first min(state,5) of the five in order, another state than stateOPEN means an open connection, and a close event from any state returns to stateOPEN |
| ClientRuns.EveryRunTracksHandles | src/ble.c:456-528 | for every trace a stored handle is one reported in the open connection exactly when one has been reported in it; without a connection none has |
| ClientRuns.StaleIffNothingReported | src/scheduler.c:149-219 | after every trace the machine uses a handle from before the connection exactly when it moves on without a report |
| ClientRuns.WellBehavedRunsUseReportedHandles | src/scheduler.c:149-219 | on every run in which results precede completions and no connection opens while one is open, the machine's two characteristic discoveries and its set-notification use handles reported in the current connection |
| ClientRuns.HandlerUsesStaleHandleIff | src/ble.c:530-645 | after every trace, a request of the handler uses a stale handle exactly when no keypad characteristic has been reported in an open connection, be it that none has been reported yet or that none is open |
| ClientRuns.SignalBeforeReportIsStale | src/ble.c:618-630 | a well-behaved run of two events in which it does |
| ClientRuns.SignalAfterCloseIsStale | src/ble.c:618-630 | a well-behaved run in which the handler sends set-notification with a handle of the closed connection |
| ClientRuns.MachineUsesOpenConnectionIff | src/scheduler.c:101-219 | on every run without a second opening, a request of the machine names the open connection exactly when it is made at the opening or the last connection named by an opening or a scan report is the open one |
| ClientRuns.QuietScannerKeepsConnection | src/ble.c:405-444 | which holds on all runs without scan reports during a connection |
| ClientRuns.ScanReportDivertsDiscovery | src/ble.c:420-424 | a run in which a scan report sends the next discovery request to another connection |
| ClientRuns.BreaksOneRequestRuleIff | src/ble.c:530-645 | a step makes two requests outstanding exactly when the handler sends its own, or a connection opens, while one is |
| ClientRuns.QuietRunsKeepOneRequestRule | src/scheduler.c:101-251 | without button signals and keypad values at most one request is ever outstanding |
| ClientRuns.SignalDuringDiscoveryBreaksRule | src/ble.c:618-630 | a run with two outstanding requests |
| Server.BleServer.ButtonStateToGatt | src/ble.c:712-743 | writes the attribute, and sends only when nothing is in flight |
| Server.BleServer.HandleEvent | src/ble.c:51-283 | the notification part of the server's event handler |
| Server.BleServer.KeypadStateMachine | src/scheduler.c:58-89 | the keypad machine moves on signals only and touches nothing else |
| Server.BleServer.OnEvent | app.c:230-258 | the handler first, then the machine, on shared data |
| Server.EveryRunIsFlowControlled | src/ble.c:184-236 | for every trace accepted sends since the last confirmation number one exactly while one is in flight, all accepted sends are the confirmed ones plus that one, and sending is enabled exactly while the last setting was notification |
| Server.StepKeepsFlowControl | src/ble.c:712-743 | a notification is handed over exactly on a press with notification as the last setting and nothing unconfirmed |
| Server.NotificationCarriesButton | src/ble.c:184-202 | on every run a notification handed over says 1 exactly when the odd pin is down, 2 exactly when only the even pin is, and 0 otherwise, and the attribute then holds the same if its write was accepted |
| Server.EveryRunKeepsAttribute | src/ble.c:712-725 | after every run the attribute is the button state of the last press that came while the setting was notification and whose write was accepted |
| Server.KeypadMovesIff | src/scheduler.c:58-89 | on every run the keypad machine moves exactly on external signals while a connection is open, from idle on a press and back while the last setting is notification |
| Server.KeypadIsInert | src/scheduler.c:58-89 | its state has no influence on anything else |
| Server.EachConfirmationAllowsOneMore | src/ble.c:184-236 | on every run, across all its connections, the stack accepts at most one notification more than there are confirmation events |
| Server.ReachesPeerIff | src/ble.c:712-743 | on every run, a notification handed over is addressed to the client of the open connection exactly when there is a connection and the last event about the button came from its handle |
| Server.SubscribedClientIsReached | src/ble.c:205-230 | if events about the button come from the open connection, a client that has subscribed in it gets every notification handed over |
| Server.UnaskedIffSettingIsLeftOver | src/ble.c:138-236 | on every run, an event notifies the client of the open connection without its having asked exactly when it is a button signal, nothing is in flight, the previous setting was notification, none was made in this connection, and its handle is that of the last event about the button |
| Server.LeftOverSettingNotifiesNextClient | src/ble.c:138-236 | a run in which that happens: the next client gets the same handle |
| Server.LeftOverSettingNotifiesClosedConnection | src/ble.c:138-236 | with another handle the notification is addressed to the closed connection and the client there gets none |
| Server.LeftOverSettingNotifiesNobody | src/ble.c:138-236 | and without a next client it is handed over all the same |
| BoundedString.StrcpyS | gecko_sdk_3.2.9/platform/common/src/sl_string.c:42-62 | as much of the source as fits and a terminator, nothing else changed; no effect for null or an empty buffer |
| BoundedString.StrnLen | gecko_sdk_3.2.9/platform/common/src/sl_string.c:97-110 | the length of the string or the limit, whichever is smaller; 0 for null |
| BoundedString.StrcatS | gecko_sdk_3.2.9/platform/common/src/sl_string.c:67-84 | appends behind the text when that ends inside the stated size |
| BoundedString.AppendGrowsText | gecko_sdk_3.2.9/platform/common/src/sl_string.c:67-84 | the text becomes the first size-1 characters of old text and source, terminated, with nothing beyond the size touched |
| BoundedString.AppendAllTruncatesOnce | gecko_sdk_3.2.9/platform/common/src/sl_string.c:67-84 | any sequence of appends leaves the first size-1 characters of the whole concatenation |
| BoundedString.AppendTakesEffectIff | gecko_sdk_3.2.9/platform/common/src/sl_string.c:80-83 | an append changes the text exactly when there is room for one more character and something to append |

## Left out

- AcceptedCallStaysInSlotIff: page sizes that are not powers of two, for which `FlashPages.SpanFollowsRuleIffPow2` already fails, and slots with less than one page between their end and 2^32.
- InterpolatesTable: tables of more than 2^31 values, where the cast of the table size turns negative; the function documents a maximum of 2^12.
- HandleEvent: of the client, scanning (a matching report is an input that sets the connection handle), bonding, passkeys, LEDs and the meaning of the button payload; of the server, advertising, bonding and passkeys.
- The raw flash functions, slot lookup and image parsing behind the bootloader's function tables: foreign; slot lookup is an arbitrary function, and a raw operation that would leave the flash is taken to be refused.
- Signed overflow, which C leaves undefined, wraps in two's complement in the PID controller and the circular buffers.
- UUIDs shorter than the bytes compared: the source reads past their reported length; the model treats them as not matching.
- MPU region numbers beyond those a device implements: the architecture leaves the effect open; the model gives every number a region.
- Init and deinit of the bootloader's function table: foreign, their results are parameters.
- Displays, logging, GPIO, clocks, interrupt set-up: input and output only.
- sl_strcasecmp, sl_status, the reciprocal tables, the bilinear and floating-point variants: easy or not decidable from the repository.
- The contents of the nodes are a constant field: a comparison that reads memory the program changes during the sort is not modelled.
