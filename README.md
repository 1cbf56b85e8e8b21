# NVIDIA Nsight Aftermath marker bookkeeping: a Dafny model

This project models the application-side half of the Nsight Aftermath
integration in `NVIDIA::NVIDIANsightAftermath`. That half keeps the event
markers a GPU crash dump refers to, and decides what happens when a present
fails.

- **Frame counter.** `_FrameCounter` is an unsigned 64-bit value. It starts
  at 0 and a successful `OnPresent` increments it, modulo 2^64.
- **Marker ring.** `_MarkerMap` is a ring of four per-frame tables, each a map
  from marker identifier to marker text. `ResetMarkers` clears the table of
  slot `_FrameCounter % 4`.
- **App-managed markers.** The app-managed branch of the event-marker helper
  records the text under the identifier `slot * 10000 + size + 1`. It then
  hands that identifier, with size 0, to the SDK. The inline branch hands over
  the text itself and records nothing.
- **Marker text.** The text of a marker is `"Frame <n>: <name>"`, with `<n>` the
  frame counter in decimal.
- **Failed present.** A failing `OnPresent` polls the crash-dump status every
  50 ms until the dump is `Finished`, its collection `CollectingDataFailed`,
  or 3 s have passed. If the final status is not `Finished` it shows
  "Unexpected crash dump status: <code>". Then it exits with code -1.
- **Per-command-list context.** `NVIDIANsightAftermathContext` holds the
  per-command-list handle. In this version that handle is never created.

Modules:

- `Decimal` (decimal.dfy): the text a stream prints for an unsigned value, and
  its inverse.
- `MarkerRing` (marker_ring.dfy): slot selection, the identifier scheme and
  the per-slot invariant `Dense`. Under `Dense`, slot `i` holds exactly the
  keys `i*10000+1 .. i*10000+size`.
- `MarkerText` (marker_text.dfy): the marker text and a parser that inverts
  it.
- `CrashDumpWait` (crash_dump_wait.dfy): the wait loop. `StatusCode` is the
  integer the stream prints for a status (src/NVIDIANsightAftermath.cpp:61). It is a method
  (`AwaitCrashDump`) proved equal to a specification function (`WaitFrom`).
  The lemmas about `WaitFrom` give the exit condition, the iteration bound and
  the error report.
- `NsightAftermath` (aftermath.dfy): the two classes.
  - `NVIDIANsightAftermath.Valid()` says every slot satisfies `Dense`, and
    every method keeps it.
  - `WorkedExample` drives the class through 625 presents. It then emits the
    markers of frames 625 and 626 and states their identifiers.
  - `EmitMarkers` is a helper that only drives `WorkedExample`. It calls the
    app-managed branch in a loop, which the shipped code never does; it is not
    a model of the commented-out call at src/NVIDIANsightAftermath.cpp:120.
  - `Failed` is `FAILED(hr)` (src/NVIDIANsightAftermath.cpp:34): the HRESULT
    is negative.
- `Wrappers` (wrappers.dfy): `Option`.

Inputs that the program reads from outside become parameters:

- The vendor status query is `status: nat -> CrashDumpStatus`. `status(k)` is
  the answer to the k-th query, and query 0 is the one before the loop.
- The steady clock is `clock: nat -> nat`, the whole milliseconds elapsed
  after k sleeps. `ClockAdvances` requires `clock(0) == 0` and that each sleep
  adds at least 50 ms. Truncating to milliseconds keeps the 50 ms step.

`exit(-1)` becomes the outcome `Terminated(wait, -1)`. In the program the call
never returns. In the model it returns that outcome with the frame counter
unchanged, and it sets the ghost flag `terminated`. Every method of the class
requires `!terminated`, so nothing can use the object after the exit.

Facts about the code that shape the model:

- `SetEventMarker` records nothing. Its one call to the helpers is commented
  out (src/NVIDIANsightAftermath.cpp:120), and that call passes `false`
  (inline mode), which records nothing in `_MarkerMap` either.
- The context handle stays `nullptr`. The create and release calls are
  commented out (src/NVIDIANsightAftermath.cpp:128,
  src/NVIDIANsightAftermath.cpp:133).
- Identifier overflow is not guarded: the code has no capacity check. `Dense`
  holds for any slot size. `DenseSlotsDisjoint`, `LiveIdsUnique` and
  `LiveMarkerIdsUnique` state uniqueness across slots for at most 10000
  markers per slot, the bound the code's comment gives. With 10001 markers,
  slot `i`'s last identifier equals slot `i+1`'s first.

## Model

| member | source | states |
|---|---|---|
| `MarkerRing.Increment` | src/NVIDIANsightAftermath.cpp:68 | the counter goes up by one, and from 2^64-1 it wraps to 0 |
| `MarkerRing.SlotOf` | src/NVIDIANsightAftermath.cpp:91 | the slot used for a frame is below the ring size 4 |
| `MarkerRing.SlotAdvances` | src/NVIDIANsightAftermath.cpp:90-91 | consecutive frames use consecutive slots modulo 4, also across the 64-bit wrap-around |
| `MarkerRing.MarkerId` | src/NVIDIANsightAftermath.cpp:93-94 | an identifier is never 0; below 10000 markers, `(id-1)/10000` is the slot and `(id-1)%10000` the count before it |
| `MarkerRing.EmptyIsDense` | src/NVIDIANsightAftermath.cpp:74 | a cleared slot satisfies the key-range invariant |
| `MarkerRing.RecordKeepsDense` | src/NVIDIANsightAftermath.cpp:94-96 | under the invariant, the next identifier is not yet a key; inserting it grows the table by one and keeps the invariant |
| `MarkerRing.DenseIdDecodes` | src/NVIDIANsightAftermath.cpp:104 | with at most 10000 markers, every key of slot `i` decodes to `i` |
| `MarkerRing.DenseSlotsDisjoint` | src/NVIDIANsightAftermath.cpp:104 | two different slots with at most 10000 markers each share no identifier |
| `MarkerRing.LiveIdsUnique` | src/NVIDIANsightAftermath.cpp:104 | across the whole ring, no live identifier is in two slots |
| `Decimal.Digits` | src/NVIDIANsightAftermath.cpp:116 | the printed counter is a non-empty digit string with no leading zero; it starts with '0' only for 0 |
| `Decimal.ValueOfDigits` | src/NVIDIANsightAftermath.cpp:116 | reading the printed digits back gives the number |
| `Decimal.DigitsOfValue` | src/NVIDIANsightAftermath.cpp:116 | every canonical digit string is the printed form of its value |
| `MarkerText.CreateMarkerStringForFrame` | src/NVIDIANsightAftermath.cpp:113-117 | the text starts with "Frame " and ends with the event name |
| `MarkerText.ParseCreated` | src/NVIDIANsightAftermath.cpp:113-117 | parsing `"Frame <n>: <name>"` gives back `n` and `name` |
| `MarkerText.CreatedFromParse` | src/NVIDIANsightAftermath.cpp:113-117 | every text the parser accepts is exactly the marker text of what it returns |
| `MarkerText.MarkerStringInjective` | src/NVIDIANsightAftermath.cpp:113-117 | different (frame, name) pairs give different marker texts |
| `CrashDumpWait.ErrorReport` | src/NVIDIANsightAftermath.cpp:58-63 | a message exists exactly when the status is not Finished; it is "Unexpected crash dump status: " followed by the status code |
| `CrashDumpWait.WaitFrom` | src/NVIDIANsightAftermath.cpp:43-56 | the wait stops at the first query index where the status is CollectingDataFailed or Finished or elapsed >= 3000 ms; it reports that status and elapsed time |
| `CrashDumpWait.AwaitCrashDump` | src/NVIDIANsightAftermath.cpp:39-63 | the poll loop returns exactly the outcome `WaitFrom` specifies |
| `CrashDumpWait.ClockLowerBound` | src/NVIDIANsightAftermath.cpp:51-55 | after k sleeps of 50 ms, at least 50*k ms have elapsed |
| `CrashDumpWait.WaitBounded` | src/NVIDIANsightAftermath.cpp:39-56 | whatever the status source reports, the loop sleeps at most 60 times |
| `CrashDumpWait.ExitsByTerminalStatus` | src/NVIDIANsightAftermath.cpp:44-48 | the wait ends no later than the first terminal status; if the first query is terminal, the body never runs |
| `CrashDumpWait.WaitOvershootBounded` | src/NVIDIANsightAftermath.cpp:46-56 | if no sleep overruns 50 ms by more than d, the wait ends before 3000 + 50 + d ms |
| `CrashDumpWait.ReportsUnlessFinished` | src/NVIDIANsightAftermath.cpp:58-63 | the error is reported iff the final status is not Finished; such a final status is CollectingDataFailed or came with elapsed >= 3000 ms |
| `NsightAftermath.InlineMarkerSize` | src/NVIDIANsightAftermath.cpp:109 | the inline marker size is the text length plus one, computed in 32-bit unsigned arithmetic |
| `NsightAftermath.NVIDIANsightAftermathContext.constructor` | include/NVIDIANsightAftermath.hpp:45 | a new context holds the null handle |
| `NsightAftermath.NVIDIANsightAftermathContext.InitializeAftermathContext` | src/NVIDIANsightAftermath.cpp:125-129 | the handle is unchanged, because the creation call is commented out |
| `NsightAftermath.NVIDIANsightAftermathContext.ReleaseAftermathContext` | src/NVIDIANsightAftermath.cpp:131-134 | the handle is unchanged, because the release call is commented out |
| `NsightAftermath.NVIDIANsightAftermathContext.GetAftermathCommandListContext` | include/NVIDIANsightAftermath.hpp:42 | returns the stored handle and changes nothing |
| `NsightAftermath.ContextHandleStaysNull` | src/NVIDIANsightAftermath.cpp:125-134 | a context stays null through initialise and release |
| `NsightAftermath.NVIDIANsightAftermath.constructor` | include/NVIDIANsightAftermath.hpp:29-30 | the counter starts at 0, all four tables are empty, and the ring invariant holds |
| `NsightAftermath.NVIDIANsightAftermath.OnPresent` | src/NVIDIANsightAftermath.cpp:32-69 | on success the counter is incremented modulo 2^64 and nothing else changes; on failure the counter is unchanged, the call ends in `Terminated` with the `WaitFrom` outcome and exit code -1, and the object is marked terminated |
| `NsightAftermath.NVIDIANsightAftermath.ResetMarkers` | src/NVIDIANsightAftermath.cpp:71-75 | empties exactly the table at `_FrameCounter % 4`; other slots and the counter are unchanged; the invariant is kept |
| `NsightAftermath.NVIDIANsightAftermath.SetAftermathEventMarker` | src/NVIDIANsightAftermath.cpp:83-111 | app-managed: stores the text under the fresh identifier `slot*10000+size+1` and grows that slot by one, leaving other slots unchanged; the SDK receives the handle, the identifier and size 0. Inline: no table changes; the SDK receives the text and its size |
| `NsightAftermath.NVIDIANsightAftermath.SetEventMarker` | src/NVIDIANsightAftermath.cpp:77-121 | as shipped, the counter and every marker table are unchanged |
| `NsightAftermath.LiveMarkerIdsUnique` | src/NVIDIANsightAftermath.cpp:104 | while no slot of the object's ring holds more than 10000 markers, no identifier is in two of its slots |
| `NsightAftermath.WorkedExample` | src/NVIDIANsightAftermath.cpp:98-103 | after 625 successful presents and a reset, the 15 markers of frame 625 get 10001..10015; after one more present and reset, those of frame 626 get 20001..20015 |

## Left out

- `InitializeGpuCrashTracker` and `InitializeAftermath` are left out. They only
  call into the vendor SDK and the crash tracker. The flag set that
  `InitializeAftermath` passes is made of SDK constants.
- The constructor's binding of `_GpuCrashTracker` to `_MarkerMap` is left out.
  So are the crash tracker and its marker-resolution callback: they are
  declared in NsightAftermathGpuCrashTracker.h, which is not part of this
  model. `LiveIdsUnique` and `DenseIdDecodes` state what such a resolver could
  rely on.
- `AFTERMATH_CHECK_ERROR` is not modelled. It is defined in
  NsightAftermathHelpers.h, which is not part of this model. The model assumes
  every SDK call succeeds.
- `GFSDK_Aftermath_SetEventMarker` is an opaque vendor call. Its arguments are
  returned as an `EventMarkerCall` value. It has no effect on the modelled
  state.
- The integer codes of `CrashDumpStatus` follow the vendor header's
  declaration order. That header is not part of this model. The codes only
  affect the message text.
- Real time and sleeping become the `clock` parameter. The message box becomes
  the `errorMessage` field. Process exit becomes the `Terminated` outcome.
- Concurrent reads of `_MarkerMap` by the crash-dump thread are not modelled.
  The model is sequential.
- `MarkerRing.MarkerId`: identifiers are unbounded integers. The 64-bit
  `size_t` arithmetic of the source could only wrap for a table of about 2^64
  entries, which cannot exist.
- `NsightAftermath.InlineMarkerSize` and `MarkerText.CreateMarkerStringForFrame`:
  one Dafny `char` stands for one C `char` byte, and event names are assumed to
  contain no NUL. `std::string::size()` counts bytes, so for text outside
  single-byte characters the model's length differs from the source's. The
  `const char*` streamed at src/NVIDIANsightAftermath.cpp:116 ends at its first
  NUL, which the model does not cut at.
