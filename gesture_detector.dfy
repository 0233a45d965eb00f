/**
 * One gesture detector per body slot: the gesture frame source's tracking
 * id, the gesture frame reader's paused flag, and the 20-entry smoothing
 * buffer that debounces the continuous gesture.
 */
module GestureDetection {
  import opened Wrappers
  import opened Smoothing
  import opened Backgrounds

  /** A body tracking id (`ulong`); 0 means no tracked body. */
  newtype TrackingId = x: int | 0 <= x < 0x1_0000_0000_0000_0000

  /**
   * The results one gesture frame carries for the detector's two gestures:
   * whether the discrete result dictionary is present at all, the summon
   * gesture's confidence if it has a result, the change gesture's progress
   * if it has a result.
   */
  datatype GestureFrame = GestureFrame(
    hasDiscreteResults: bool,
    summonConfidence: Option<real>,
    changeProgress: Option<real>)

  class GestureDetector {
    /** The gesture frame source's `TrackingId`. */
    var trackingId: TrackingId
    /** The gesture frame reader's `IsPaused`. */
    var paused: bool
    /** Assignments that reached the SDK's `TrackingId` and `IsPaused`. */
    ghost var trackingIdWrites: nat
    ghost var pausedWrites: nat

    const backgroundBuffer: array<bool>
    var backgroundBufferIndex: int
    /** The main window whose background the change gesture rotates. */
    const selection: BackgroundSelection

    ghost predicate Valid()
      reads this
    {
      backgroundBuffer.Length == BufferLength && 0 <= backgroundBufferIndex < BufferLength
    }

    /** The smoothing history as a value. */
    ghost function History(): Ring
      reads this, backgroundBuffer
    {
      Ring(backgroundBuffer[..], backgroundBufferIndex)
    }

    /**
     * A detector bound to no body (id 0), paused, with every sample false
     * and the cursor at the start.
     */
    constructor (selection: BackgroundSelection)
      ensures Valid() && fresh(backgroundBuffer)
      ensures History() == Initial()
      ensures trackingId == 0 && paused
      ensures trackingIdWrites == 0 && pausedWrites == 0
      ensures this.selection == selection
    {
      var buffer := new bool[BufferLength];
      for i := 0 to buffer.Length
        invariant forall j :: 0 <= j < i ==> !buffer[j]
      {
        buffer[i] := false;
      }
      this.selection := selection;
      backgroundBuffer := buffer;
      backgroundBufferIndex := 0;
      trackingId := 0;
      paused := true;
      trackingIdWrites := 0;
      pausedWrites := 0;
      new;
      assert backgroundBuffer[..] == Initial().samples;
    }

    /** `TrackingId` setter: passes the value on only when it differs. */
    method SetTrackingId(value: TrackingId)
      modifies this`trackingId, this`trackingIdWrites
      ensures trackingId == value
      ensures trackingIdWrites == old(trackingIdWrites) + (if old(trackingId) != value then 1 else 0)
    {
      if trackingId != value {
        trackingId := value;
        trackingIdWrites := trackingIdWrites + 1;
      }
    }

    /** `IsPaused` setter: passes the value on only when it differs. */
    method SetPaused(value: bool)
      modifies this`paused, this`pausedWrites
      ensures paused == value
      ensures pausedWrites == old(pausedWrites) + (if old(paused) != value then 1 else 0)
    {
      if paused != value {
        paused := value;
        pausedWrites := pausedWrites + 1;
      }
    }

    /** The full scan that counts the active samples. */
    method CountActive() returns (n: nat)
      ensures n == CountTrue(backgroundBuffer[..])
    {
      n := 0;
      for i := 0 to backgroundBuffer.Length
        invariant n == CountTrue(backgroundBuffer[..i])
      {
        assert backgroundBuffer[..i + 1][..i] == backgroundBuffer[..i];
        if backgroundBuffer[i] {
          n := n + 1;
        }
      }
      assert backgroundBuffer[..backgroundBuffer.Length] == backgroundBuffer[..];
    }

    /**
     * A continuous result for the change gesture: record the sample, advance
     * the cursor, count, and on a count of exactly half the buffer set the
     * main window's index to the one after `selectedIndex`, the combo box's
     * current selection.
     */
    method ChangeProgress(progress: real, selectedIndex: int) returns (advanced: bool)
      requires Valid()
      modifies backgroundBuffer, this`backgroundBufferIndex, selection
      ensures Valid()
      ensures History() == Push(old(History()), Active(progress))
      ensures advanced <==> Fires(History())
      ensures advanced ==> selection.selectedIndex == NextBackground(selectedIndex)
      ensures !advanced ==> selection.selectedIndex == old(selection.selectedIndex)
      ensures selection.notifications == old(selection.notifications)
        + (if advanced && old(selection.selectedIndex) != NextBackground(selectedIndex) then 1 else 0)
    {
      if progress > ProgressThreshold {
        backgroundBuffer[backgroundBufferIndex] := true;
      } else {
        backgroundBuffer[backgroundBufferIndex] := false;
      }
      backgroundBufferIndex := backgroundBufferIndex + 1;
      backgroundBufferIndex := backgroundBufferIndex % backgroundBuffer.Length;

      var doEvent := CountActive();
      advanced := doEvent == backgroundBuffer.Length / 2;
      if advanced {
        var index := NextBackground(selectedIndex);
        selection.SetSelectedIndex(index);
      }
    }

    /**
     * A gesture frame for this detector's body. Nothing happens without a
     * frame or without discrete results; otherwise the summon result decides
     * the visibility to dispatch (`None` when it has no result) and the change
     * result, if any, is pushed.
     */
    method GestureFrameArrived(frame: Option<GestureFrame>, selectedIndex: int)
      returns (visibility: Option<bool>, advanced: bool)
      requires Valid()
      modifies backgroundBuffer, this`backgroundBufferIndex, selection
      ensures Valid()
      ensures frame.None? || !frame.value.hasDiscreteResults ==>
        visibility == None && !advanced && History() == old(History())
        && selection.selectedIndex == old(selection.selectedIndex)
      ensures frame.Some? && frame.value.hasDiscreteResults ==>
        visibility == (if frame.value.summonConfidence.Some?
                       then Some(SummonVisible(frame.value.summonConfidence.value)) else None)
      ensures frame.Some? && frame.value.hasDiscreteResults && frame.value.changeProgress.Some? ==>
        History() == Push(old(History()), Active(frame.value.changeProgress.value))
        && (advanced <==> Fires(History()))
        && (advanced ==> selection.selectedIndex == NextBackground(selectedIndex))
      ensures frame.Some? && frame.value.changeProgress.None? ==>
        !advanced && History() == old(History())
      ensures !advanced ==> selection.selectedIndex == old(selection.selectedIndex)
      ensures selection.notifications == old(selection.notifications)
        + (if advanced && old(selection.selectedIndex) != NextBackground(selectedIndex) then 1 else 0)
    {
      visibility, advanced := None, false;
      if frame.Some? && frame.value.hasDiscreteResults {
        var f := frame.value;
        if f.summonConfidence.Some? {
          visibility := Some(f.summonConfidence.value > ConfidenceThreshold);
        }
        if f.changeProgress.Some? {
          advanced := ChangeProgress(f.changeProgress.value, selectedIndex);
        }
      }
    }
  }
}
