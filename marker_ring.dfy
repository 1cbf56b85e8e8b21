/**
 * The app-managed marker scheme: a ring of per-frame marker tables indexed by
 * the frame counter modulo the ring size, and the marker identifiers
 * `slot * 10000 + count + 1` handed to the crash-dump agent in place of the
 * marker text.
 */
module MarkerRing {

  /** Number of per-frame tables in the ring (c_markerFrameHistory). */
  const MARKER_FRAME_HISTORY: nat := 4
  /** Multiplier of the slot index in a marker identifier. */
  const MARKER_ID_STRIDE: nat := 10000
  const UINT64_MODULUS: nat := 0x1_0000_0000_0000_0000

  /** The frame counter is an unsigned 64-bit integer. */
  type Uint64 = x: nat | x < 0x1_0000_0000_0000_0000

  /** One per-frame table: marker identifier to marker text. */
  type MarkerTable = map<nat, string>

  /** `_FrameCounter++` on an unsigned 64-bit value. */
  function Increment(frameCounter: Uint64): (next: Uint64)
    ensures frameCounter < UINT64_MODULUS - 1 ==> next == frameCounter + 1
    ensures frameCounter == UINT64_MODULUS - 1 ==> next == 0
  {
    (frameCounter + 1) % UINT64_MODULUS
  }

  /** The ring slot that frame `frameCounter` uses. */
  function SlotOf(frameCounter: Uint64): (slot: nat)
    ensures slot < MARKER_FRAME_HISTORY
  {
    frameCounter % MARKER_FRAME_HISTORY
  }

  /**
   * Successive frames use successive slots, also across the wrap-around of the
   * 64-bit counter (2^64 is a multiple of the ring size).
   */
  lemma SlotAdvances(frameCounter: Uint64)
    ensures SlotOf(Increment(frameCounter)) == (SlotOf(frameCounter) + 1) % MARKER_FRAME_HISTORY
  {
  }

  /**
   * The identifier of the marker recorded in `slot` when the slot already holds
   * `count` markers. It is never zero, and while `count` is below the stride it
   * encodes the slot and the count.
   */
  function MarkerId(slot: nat, count: nat): (id: nat)
    ensures id != 0
    ensures count < MARKER_ID_STRIDE ==>
      (id - 1) / MARKER_ID_STRIDE == slot && (id - 1) % MARKER_ID_STRIDE == count
  {
    slot * MARKER_ID_STRIDE + count + 1
  }

  /**
   * The invariant of slot `slot`: its keys are exactly
   * slot*10000+1 .. slot*10000+|table|.
   */
  ghost predicate Dense(table: MarkerTable, slot: nat) {
    forall id :: id in table <==> slot * MARKER_ID_STRIDE < id <= slot * MARKER_ID_STRIDE + |table|
  }

  /** A cleared slot satisfies the invariant. */
  lemma EmptyIsDense(slot: nat)
    ensures Dense(map[], slot)
  {
  }

  /**
   * Recording into a slot that satisfies the invariant uses an identifier not
   * yet in the table, grows it by one, and keeps the invariant.
   */
  lemma RecordKeepsDense(table: MarkerTable, slot: nat, text: string)
    requires Dense(table, slot)
    ensures MarkerId(slot, |table|) !in table
    ensures |table[MarkerId(slot, |table|) := text]| == |table| + 1
    ensures Dense(table[MarkerId(slot, |table|) := text], slot)
  {
  }

  /**
   * While a slot holds at most 10000 markers, every identifier in it decodes
   * to that slot.
   */
  lemma DenseIdDecodes(table: MarkerTable, slot: nat, id: nat)
    requires Dense(table, slot) && |table| <= MARKER_ID_STRIDE
    requires id in table
    ensures (id - 1) / MARKER_ID_STRIDE == slot
  {
  }

  /**
   * Two different slots that each hold at most 10000 markers share no
   * identifier.
   */
  lemma DenseSlotsDisjoint(t1: MarkerTable, s1: nat, t2: MarkerTable, s2: nat)
    requires s1 != s2
    requires Dense(t1, s1) && |t1| <= MARKER_ID_STRIDE
    requires Dense(t2, s2) && |t2| <= MARKER_ID_STRIDE
    ensures t1.Keys !! t2.Keys
  {
  }

  /** The ring invariant: every slot satisfies Dense for its own index. */
  ghost predicate DenseRing(ring: seq<MarkerTable>) {
    |ring| == MARKER_FRAME_HISTORY && forall i :: 0 <= i < |ring| ==> Dense(ring[i], i)
  }

  /**
   * While no slot holds more than 10000 markers, every live identifier
   * belongs to one slot only, so it names one marker text.
   */
  lemma LiveIdsUnique(ring: seq<MarkerTable>)
    requires DenseRing(ring)
    requires forall i :: 0 <= i < |ring| ==> |ring[i]| <= MARKER_ID_STRIDE
    ensures forall i, j, id :: 0 <= i < j < |ring| && id in ring[i] ==> id !in ring[j]
  {
  }
}
