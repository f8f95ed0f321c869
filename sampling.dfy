/** The ADC interrupt handler of src/boards/main/main.cpp (namespace
  * AdcInterruptHandler): oversampling, a ring of three stride buffers and a
  * single-slot, latest-wins handoff to the foreground loop.
  *
  * The interrupt and the foreground are modelled as sequential method calls;
  * the published pointer is the index of the ring slot it points to, and
  * `None` is the null pointer.
  */
module Sampling {
  import opened Optional

  const OversampleRatio: nat := 16
  const WindowStride: nat := 256
  const NumBuffers: nat := 3
  /** One more than the largest uint16_t. */
  const U16: nat := 0x1_0000
  const U32: nat := 0x1_0000_0000

  function Sum(s: seq<nat>): nat {
    if s == [] then 0 else Sum(s[..|s| - 1]) + s[|s| - 1]
  }

  lemma {:induction false} SumOfReadingsBound(s: seq<nat>)
    requires forall k :: 0 <= k < |s| ==> s[k] < U16
    ensures Sum(s) <= |s| * (U16 - 1)
  {
    if s != [] {
      SumOfReadingsBound(s[..|s| - 1]);
    }
  }

  class AdcInterruptHandler {
    /** The ring of stride buffers, NumBuffers x WindowStride uint16_t samples. */
    var buffer: array2<nat>
    var bufferIdx: nat
    /** The published buffer not yet taken by the foreground, if any. */
    var availableBuffer: Option<nat>
    var bufferPos: nat
    var oversampleAccumulator: nat
    var oversampleRemaining: nat
    var samplesComplete: nat
    /** The readings summed into the accumulator since the last stored sample. */
    ghost var pending: seq<nat>

    ghost predicate Valid()
      reads this, buffer
    {
      buffer.Length0 == NumBuffers && buffer.Length1 == WindowStride &&
      bufferIdx < NumBuffers && bufferPos < WindowStride &&
      1 <= oversampleRemaining <= OversampleRatio &&
      |pending| == OversampleRatio - oversampleRemaining &&
      (forall k :: 0 <= k < |pending| ==> pending[k] < U16) &&
      oversampleAccumulator == Sum(pending) &&
      (availableBuffer.Some? ==> availableBuffer.value < NumBuffers) &&
      (forall i, j :: 0 <= i < NumBuffers && 0 <= j < WindowStride ==> buffer[i, j] < U16)
    }

    /** Conversions still needed until the slot being filled is published. */
    ghost function ConversionsUntilPublish(): (n: nat)
      reads this
      requires bufferPos < WindowStride
    {
      oversampleRemaining + OversampleRatio * (WindowStride - 1 - bufferPos)
    }

    /** The zero-initialised globals followed by `initialize()`; the ADC and
      * interrupt-vector set-up is not part of this model. */
    constructor Initialize()
      ensures Valid() && fresh(buffer)
      ensures bufferPos == 0 && oversampleAccumulator == 0 && oversampleRemaining == OversampleRatio
      ensures availableBuffer == None && bufferIdx == 0 && samplesComplete == 0
    {
      buffer := new nat[NumBuffers, WindowStride]((_, _) => 0);
      bufferPos := 0;
      oversampleAccumulator := 0;
      oversampleRemaining := OversampleRatio;
      availableBuffer := None;
      bufferIdx := 0;
      samplesComplete := 0;
      pending := [];
    }

    /** One interrupt.  Only an end-of-conversion interrupt does anything:
      * the reading joins the accumulator, and every OversampleRatio-th
      * reading stores the floor of the mean at bufferPos; a full slot is
      * published, overwriting any publication not yet taken, and the ring
      * index moves on modulo NumBuffers. */
    method Handler(endOfConversion: bool, reading: nat)
      requires Valid() && reading < U16
      modifies this, buffer
      ensures Valid() && buffer == old(buffer)
      ensures !endOfConversion ==> unchanged(this, buffer)
      ensures endOfConversion && old(oversampleRemaining) > 1 ==>
        oversampleAccumulator == old(oversampleAccumulator) + reading &&
        oversampleRemaining == old(oversampleRemaining) - 1 &&
        pending == old(pending) + [reading] &&
        bufferPos == old(bufferPos) && bufferIdx == old(bufferIdx) &&
        availableBuffer == old(availableBuffer) && samplesComplete == old(samplesComplete) &&
        unchanged(buffer)
      ensures endOfConversion && old(oversampleRemaining) == 1 ==>
        |old(pending) + [reading]| == OversampleRatio &&
        buffer[old(bufferIdx), old(bufferPos)] == Sum(old(pending) + [reading]) / OversampleRatio &&
        (forall i, j :: 0 <= i < NumBuffers && 0 <= j < WindowStride && (i, j) != (old(bufferIdx), old(bufferPos)) ==>
           buffer[i, j] == old(buffer[i, j])) &&
        oversampleAccumulator == 0 && oversampleRemaining == OversampleRatio && pending == [] &&
        samplesComplete == old(samplesComplete) + 1 &&
        (if old(bufferPos) == WindowStride - 1 then
           bufferPos == 0 && availableBuffer == Some(old(bufferIdx)) &&
           bufferIdx == (old(bufferIdx) + 1) % NumBuffers
         else
           bufferPos == old(bufferPos) + 1 && availableBuffer == old(availableBuffer) && bufferIdx == old(bufferIdx))
      ensures endOfConversion && old(ConversionsUntilPublish()) > 1 ==>
        ConversionsUntilPublish() == old(ConversionsUntilPublish()) - 1 && availableBuffer == old(availableBuffer)
      ensures endOfConversion && old(ConversionsUntilPublish()) == 1 ==>
        availableBuffer == Some(old(bufferIdx)) && ConversionsUntilPublish() == OversampleRatio * WindowStride
    {
      if endOfConversion {
        oversampleAccumulator := oversampleAccumulator + reading;
        pending := pending + [reading];
        oversampleRemaining := oversampleRemaining - 1;
        if oversampleRemaining == 0 {
          oversampleRemaining := OversampleRatio;
          SumOfReadingsBound(pending);
          StoreSample(oversampleAccumulator / OversampleRatio);
          oversampleAccumulator := 0;
          pending := [];
          samplesComplete := samplesComplete + 1;
        }
      }
    }

    /** Stores one averaged sample at bufferPos and, when that fills the
      * slot, publishes it and moves the ring index on. */
    method StoreSample(sample: nat)
      requires buffer.Length0 == NumBuffers && buffer.Length1 == WindowStride
      requires bufferIdx < NumBuffers && bufferPos < WindowStride && sample < U16
      requires availableBuffer.Some? ==> availableBuffer.value < NumBuffers
      requires forall i, j :: 0 <= i < NumBuffers && 0 <= j < WindowStride ==> buffer[i, j] < U16
      modifies this`bufferPos, this`bufferIdx, this`availableBuffer, buffer
      ensures bufferIdx < NumBuffers && bufferPos < WindowStride
      ensures availableBuffer.Some? ==> availableBuffer.value < NumBuffers
      ensures buffer[old(bufferIdx), old(bufferPos)] == sample
      ensures forall i, j {:trigger buffer[i, j]} :: 0 <= i < NumBuffers && 0 <= j < WindowStride && (i, j) != (old(bufferIdx), old(bufferPos)) ==>
        buffer[i, j] == old(buffer[i, j])
      ensures forall i, j {:trigger buffer[i, j]} :: 0 <= i < NumBuffers && 0 <= j < WindowStride ==> buffer[i, j] < U16
      ensures if old(bufferPos) == WindowStride - 1 then
          bufferPos == 0 && availableBuffer == Some(old(bufferIdx)) &&
          bufferIdx == (old(bufferIdx) + 1) % NumBuffers
        else
          bufferPos == old(bufferPos) + 1 && availableBuffer == old(availableBuffer) && bufferIdx == old(bufferIdx)
    {
      buffer[bufferIdx, bufferPos] := sample;
      bufferPos := bufferPos + 1;
      if bufferPos == WindowStride {
        bufferPos := 0;
        availableBuffer := Some(bufferIdx);
        bufferIdx := bufferIdx + 1;
        bufferIdx := if bufferIdx < NumBuffers then bufferIdx else 0;
      }
    }

    /** Takes the published buffer and clears the slot (an atomic exchange
      * with null in the firmware). */
    method GetBuffer() returns (slot: Option<nat>)
      requires Valid()
      modifies this`availableBuffer
      ensures Valid()
      ensures slot == old(availableBuffer) && availableBuffer == None
      ensures slot.Some? ==> slot.value < NumBuffers
    {
      slot := availableBuffer;
      availableBuffer := None;
    }

    /** Polls GetBuffer until it yields a buffer.  The interrupts that fire
      * while the foreground spins are the end-of-conversion readings in
      * `conversions`, one between two polls; the wait gives up, returning
      * None, only when they run out before a publication. */
    method GetBufferBlocking(conversions: seq<nat>) returns (slot: Option<nat>, used: nat)
      requires Valid()
      requires forall k :: 0 <= k < |conversions| ==> conversions[k] < U16
      modifies this, buffer
      ensures Valid() && buffer == old(buffer)
      ensures used <= |conversions| && availableBuffer == None
      ensures slot.Some? ==> slot.value < NumBuffers
      ensures old(availableBuffer).Some? ==> slot == old(availableBuffer) && used == 0
      ensures old(availableBuffer).None? && |conversions| >= old(ConversionsUntilPublish()) ==> slot.Some?
      ensures old(availableBuffer).None? && slot.Some? ==>
        slot == Some(old(bufferIdx)) && used == old(ConversionsUntilPublish()) &&
        bufferIdx == (old(bufferIdx) + 1) % NumBuffers && bufferPos == 0 &&
        oversampleRemaining == OversampleRatio && oversampleAccumulator == 0 &&
        samplesComplete == old(samplesComplete) + (WindowStride - old(bufferPos))
      ensures old(availableBuffer).None? && slot.None? ==>
        used == |conversions| && bufferIdx == old(bufferIdx) &&
        ConversionsUntilPublish() == old(ConversionsUntilPublish()) - used &&
        samplesComplete == old(samplesComplete) + (bufferPos - old(bufferPos))
    {
      ghost var budget := ConversionsUntilPublish();
      used := 0;
      slot := GetBuffer();
      while slot.None? && used < |conversions|
        invariant Valid() && buffer == old(buffer)
        invariant used <= |conversions| && availableBuffer == None
        invariant slot.Some? ==> slot.value < NumBuffers
        invariant old(availableBuffer).Some? ==> slot == old(availableBuffer) && used == 0
        invariant old(availableBuffer).None? && slot.None? ==> used + ConversionsUntilPublish() == budget
        invariant old(availableBuffer).None? && slot.None? ==>
          bufferIdx == old(bufferIdx) && old(bufferPos) <= bufferPos &&
          samplesComplete == old(samplesComplete) + (bufferPos - old(bufferPos))
        invariant old(availableBuffer).None? && slot.Some? ==>
          slot == Some(old(bufferIdx)) && used == budget &&
          bufferIdx == (old(bufferIdx) + 1) % NumBuffers && bufferPos == 0 &&
          oversampleRemaining == OversampleRatio && oversampleAccumulator == 0 &&
          samplesComplete == old(samplesComplete) + (WindowStride - old(bufferPos))
        decreases |conversions| - used, slot.None?
      {
        Handler(true, conversions[used]);
        used := used + 1;
        slot := GetBuffer();
      }
    }

    /** Reads and clears the count of stored samples (an atomic exchange with 0). */
    method TakeSamplesComplete() returns (count: nat)
      modifies this`samplesComplete
      ensures count == old(samplesComplete) && samplesComplete == 0
    {
      count := samplesComplete;
      samplesComplete := 0;
    }
  }

  /** A publication while an earlier one is still untaken: the foreground
    * sees only the newer buffer, and polling again finds nothing. */
  method LatestWins(h: AdcInterruptHandler, reading: nat) returns (seen: Option<nat>, again: Option<nat>)
    requires h.Valid() && reading < U16
    requires h.availableBuffer.Some? && h.ConversionsUntilPublish() == 1
    modifies h, h.buffer
    ensures seen == Some(old(h.bufferIdx)) && again == None
    ensures old(h.availableBuffer) != Some(old(h.bufferIdx)) ==> seen != old(h.availableBuffer)
  {
    h.Handler(true, reading);
    seen := h.GetBuffer();
    again := h.GetBuffer();
  }
}
