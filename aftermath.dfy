/**
 * The NVIDIANsightAftermath class: the frame counter, the ring of per-frame
 * marker tables, the present handler and the event-marker helpers; and
 * NVIDIANsightAftermathContext, the holder of a per-command-list handle.
 *
 * Calls into the vendor SDK are not modelled as effects. The arguments of the
 * event-marker call are returned as an EventMarkerCall value so that what the
 * SDK would receive can be stated.
 */
module NsightAftermath {
  import opened MarkerRing
  import opened MarkerText
  import opened CrashDumpWait

  /** HRESULT is a 32-bit signed `long`. */
  type HResult = x: int | -0x8000_0000 <= x < 0x8000_0000

  const S_OK: HResult := 0
  const UINT32_MODULUS: nat := 0x1_0000_0000
  /** The process exit code used after a failed present. */
  const FAILURE_EXIT_CODE: int := -1

  /** FAILED(hr): the severity bit is set, i.e. the value is negative. */
  predicate Failed(hr: HResult) {
    hr < 0
  }

  /** An opaque per-command-list handle of the vendor SDK; NullHandle is nullptr. */
  datatype ContextHandle = NullHandle | NativeHandle(address: nat)

  /** An opaque D3D12 command list. */
  datatype CommandList = CommandList(address: nat)

  /** The marker data pointer handed to the SDK: an app-managed identifier, or the marker text itself. */
  datatype MarkerPayload = MarkerIdToken(id: nat) | MarkerBytes(text: string)

  /** The arguments of one GFSDK_Aftermath_SetEventMarker call. */
  datatype EventMarkerCall = EventMarkerCall(context: ContextHandle, markerData: MarkerPayload, markerDataSize: nat)

  /** How OnPresent ends: it returns, or the process exits after the wait. */
  datatype PresentOutcome = Presented | Terminated(wait: WaitOutcome, exitCode: int)

  /** `(unsigned int)size + 1`: the text length plus its terminator, in 32-bit unsigned arithmetic. */
  function InlineMarkerSize(markerData: string): (size: nat)
    ensures size < UINT32_MODULUS
    ensures |markerData| < UINT32_MODULUS - 1 ==> size == |markerData| + 1
  {
    (|markerData| % UINT32_MODULUS + 1) % UINT32_MODULUS
  }

  class NVIDIANsightAftermathContext {
    var aftermathCommandListContext: ContextHandle

    constructor ()
      ensures aftermathCommandListContext == NullHandle
    {
      aftermathCommandListContext := NullHandle;
    }

    /** The handle creation is commented out in this version: the handle is not touched. */
    method InitializeAftermathContext(commandList: CommandList)
      ensures aftermathCommandListContext == old(aftermathCommandListContext)
    {
    }

    /** The handle release is commented out in this version: the handle is not touched. */
    method ReleaseAftermathContext()
      ensures aftermathCommandListContext == old(aftermathCommandListContext)
    {
    }

    method GetAftermathCommandListContext() returns (handle: ContextHandle)
      ensures handle == aftermathCommandListContext
    {
      handle := aftermathCommandListContext;
    }
  }

  /** A context that is initialised and released still hands out the null handle. */
  method ContextHandleStaysNull(commandList: CommandList) returns (whileLive: ContextHandle, afterRelease: ContextHandle)
    ensures whileLive == NullHandle && afterRelease == NullHandle
  {
    var context := new NVIDIANsightAftermathContext();
    context.InitializeAftermathContext(commandList);
    whileLive := context.GetAftermathCommandListContext();
    context.ReleaseAftermathContext();
    afterRelease := context.GetAftermathCommandListContext();
  }

  class NVIDIANsightAftermath {
    var frameCounter: Uint64
    /** Set once a failed present has ended the process; nothing may be called afterwards. */
    ghost var terminated: bool
    /** The ring of per-frame marker tables, indexed by SlotOf(frameCounter). */
    const markerMap: array<MarkerTable>

    ghost predicate Valid()
      reads this, markerMap
    {
      markerMap.Length == MARKER_FRAME_HISTORY &&
      forall i :: 0 <= i < MARKER_FRAME_HISTORY ==> Dense(markerMap[i], i)
    }

    constructor ()
      ensures Valid() && fresh(markerMap)
      ensures frameCounter == 0 && !terminated
      ensures forall i :: 0 <= i < MARKER_FRAME_HISTORY ==> markerMap[i] == map[]
    {
      frameCounter := 0;
      terminated := false;
      markerMap := new MarkerTable[MARKER_FRAME_HISTORY](_ => map[]);
    }

    /**
     * A successful present advances the frame counter (modulo 2^64); a failed
     * one waits for the crash dump and terminates with the counter unchanged.
     */
    method OnPresent(hresult: HResult, status: nat -> CrashDumpStatus, clock: nat -> nat) returns (outcome: PresentOutcome)
      requires Valid() && !terminated
      requires ClockAdvances(clock)
      modifies this
      ensures Valid() && unchanged(markerMap)
      ensures terminated == Failed(hresult)
      ensures !Failed(hresult) ==> outcome == Presented && frameCounter == Increment(old(frameCounter))
      ensures Failed(hresult) ==>
        outcome == Terminated(WaitFrom(status, clock, 0), FAILURE_EXIT_CODE) && frameCounter == old(frameCounter)
    {
      if Failed(hresult) {
        var wait := AwaitCrashDump(status, clock);
        outcome := Terminated(wait, FAILURE_EXIT_CODE);
        terminated := true;
        return;
      }
      frameCounter := Increment(frameCounter);
      outcome := Presented;
    }

    /** Clears the table of the current frame's slot. */
    method ResetMarkers()
      requires Valid() && !terminated
      modifies markerMap
      ensures Valid()
      ensures markerMap[SlotOf(frameCounter)] == map[]
      ensures forall i :: 0 <= i < MARKER_FRAME_HISTORY && i != SlotOf(frameCounter) ==> markerMap[i] == old(markerMap[i])
    {
      markerMap[SlotOf(frameCounter)] := map[];
    }

    /**
     * Emits one event marker. App-managed: records the text in the current
     * slot under a fresh identifier and passes that identifier with size 0.
     * Inline: passes the text itself and records nothing.
     */
    method SetAftermathEventMarker(context: NVIDIANsightAftermathContext, markerData: string, appManagedMarker: bool)
      returns (call: EventMarkerCall)
      requires Valid() && !terminated
      modifies markerMap
      ensures Valid()
      ensures appManagedMarker ==>
        var slot := SlotOf(frameCounter);
        var id := MarkerId(slot, |old(markerMap[slot])|);
        && id !in old(markerMap[slot])
        && markerMap[slot] == old(markerMap[slot])[id := markerData]
        && |markerMap[slot]| == |old(markerMap[slot])| + 1
        && call == EventMarkerCall(context.aftermathCommandListContext, MarkerIdToken(id), 0)
      ensures appManagedMarker ==>
        forall i :: 0 <= i < MARKER_FRAME_HISTORY && i != SlotOf(frameCounter) ==> markerMap[i] == old(markerMap[i])
      ensures !appManagedMarker ==>
        && markerMap[..] == old(markerMap[..])
        && call == EventMarkerCall(context.aftermathCommandListContext, MarkerBytes(markerData), InlineMarkerSize(markerData))
    {
      var handle := context.GetAftermathCommandListContext();
      if appManagedMarker {
        var markerMapIndex := SlotOf(frameCounter);
        var current := markerMap[markerMapIndex];
        var markerId := MarkerId(markerMapIndex, |current|);
        RecordKeepsDense(current, markerMapIndex, markerData);
        markerMap[markerMapIndex] := current[markerId := markerData];
        call := EventMarkerCall(handle, MarkerIdToken(markerId), 0);
      } else {
        call := EventMarkerCall(handle, MarkerBytes(markerData), InlineMarkerSize(markerData));
      }
    }

    /**
     * As shipped, the helpers it defines are never invoked (their one call is
     * commented out), so it changes nothing.
     */
    method SetEventMarker(context: NVIDIANsightAftermathContext, eventName: string)
      requires Valid() && !terminated
      ensures Valid()
      ensures frameCounter == old(frameCounter) && markerMap[..] == old(markerMap[..])
    {
    }
  }

  /**
   * While no slot of the ring holds more than 10000 markers, no marker
   * identifier is live in two slots of the object's ring.
   */
  lemma LiveMarkerIdsUnique(aftermath: NVIDIANsightAftermath)
    requires aftermath.Valid()
    requires forall i :: 0 <= i < MARKER_FRAME_HISTORY ==> |aftermath.markerMap[i]| <= MARKER_ID_STRIDE
    ensures forall i, j, id :: 0 <= i < j < MARKER_FRAME_HISTORY && id in aftermath.markerMap[i] ==>
      id !in aftermath.markerMap[j]
  {
    LiveIdsUnique(aftermath.markerMap[..]);
  }

  /**
   * Emits `count` app-managed markers named `eventName` in the current frame
   * and returns their identifiers.
   */
  method EmitMarkers(aftermath: NVIDIANsightAftermath, context: NVIDIANsightAftermathContext, eventName: string, count: nat)
    returns (ids: seq<nat>)
    requires aftermath.Valid() && !aftermath.terminated
    modifies aftermath.markerMap
    ensures aftermath.Valid()
    ensures |ids| == count
    ensures forall t :: 0 <= t < count ==>
      ids[t] == MarkerId(SlotOf(aftermath.frameCounter), |old(aftermath.markerMap[SlotOf(aftermath.frameCounter)])| + t)
  {
    var slot := SlotOf(aftermath.frameCounter);
    ghost var before := |aftermath.markerMap[slot]|;
    ids := [];
    while |ids| < count
      invariant aftermath.Valid()
      invariant |ids| <= count
      invariant |aftermath.markerMap[slot]| == before + |ids|
      invariant forall t :: 0 <= t < |ids| ==> ids[t] == MarkerId(slot, before + t)
    {
      var text := CreateMarkerStringForFrame(aftermath.frameCounter, eventName);
      var call := aftermath.SetAftermathEventMarker(context, text, true);
      ids := ids + [call.markerData.id];
    }
  }

  /**
   * Frame 625 uses slot 1: its markers get 10001, 10002, ..., 10015.
   * Frame 626 uses slot 2: its markers get 20001, ..., 20015.
   */
  method WorkedExample() returns (frame625: seq<nat>, frame626: seq<nat>)
    ensures |frame625| == 15 && forall t :: 0 <= t < 15 ==> frame625[t] == 10001 + t
    ensures |frame626| == 15 && forall t :: 0 <= t < 15 ==> frame626[t] == 20001 + t
  {
    var aftermath := new NVIDIANsightAftermath();
    var context := new NVIDIANsightAftermathContext();
    var noStatus: nat -> CrashDumpStatus := _ => Unknown;
    var steadyClock: nat -> nat := k => POLL_INTERVAL_MS * k;
    while aftermath.frameCounter < 625
      invariant aftermath.Valid() && !aftermath.terminated && aftermath.frameCounter <= 625
      decreases 625 - aftermath.frameCounter
    {
      var _ := aftermath.OnPresent(S_OK, noStatus, steadyClock);
    }
    aftermath.ResetMarkers();
    frame625 := EmitMarkers(aftermath, context, "Draw", 15);
    var _ := aftermath.OnPresent(S_OK, noStatus, steadyClock);
    aftermath.ResetMarkers();
    frame626 := EmitMarkers(aftermath, context, "Draw", 15);
  }
}
