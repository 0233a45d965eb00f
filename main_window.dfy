/**
 * The main window's two frame handlers: the multi-source handler that
 * acquires a depth, colour and body-index frame, masks the colour image and
 * releases everything it acquired; and the body-frame handler that rebinds
 * the gesture detector slots to the bodies of the latest body frame.
 */
module MainWindowHandlers {
  import opened Wrappers
  import opened Masking
  import opened GestureDetection

  /** A depth frame: its frame description's size, and how often it was disposed. */
  class DepthFrame {
    const width: nat
    const height: nat
    var disposals: nat

    constructor (width: nat, height: nat)
      ensures this.width == width && this.height == height && disposals == 0
    {
      this.width, this.height := width, height;
      disposals := 0;
    }

    method Dispose()
      modifies this`disposals
      ensures disposals == old(disposals) + 1
    {
      disposals := disposals + 1;
    }
  }

  /** A colour frame: its image converted to B-G-R-A pixels. */
  class ColorFrame {
    const bgra: seq<bv32>
    var disposals: nat

    constructor (bgra: seq<bv32>)
      ensures this.bgra == bgra && disposals == 0
    {
      this.bgra := bgra;
      disposals := 0;
    }

    /** Writes the converted image into the bitmap's back buffer. */
    method CopyConvertedFrameData(target: array<bv32>)
      requires |bgra| == target.Length
      modifies target
      ensures target[..] == bgra
    {
      forall i | 0 <= i < target.Length {
        target[i] := bgra[i];
      }
    }

    method Dispose()
      modifies this`disposals
      ensures disposals == old(disposals) + 1
    {
      disposals := disposals + 1;
    }
  }

  /** A body-index frame: one byte per depth pixel. */
  class BodyIndexFrame {
    const data: seq<bv8>
    var disposals: nat

    constructor (data: seq<bv8>)
      ensures this.data == data && disposals == 0
    {
      this.data := data;
      disposals := 0;
    }

    method Dispose()
      modifies this`disposals
      ensures disposals == old(disposals) + 1
    {
      disposals := disposals + 1;
    }
  }

  /**
   * The writeable bitmap: its back buffer of 32-bit pixels, and the lock
   * state and calls it has seen.
   */
  class Bitmap {
    const backBuffer: array<bv32>
    ghost var locked: bool
    ghost var lockCalls: nat
    ghost var unlockCalls: nat
    ghost var dirtyRects: nat

    constructor (pixelCount: nat)
      ensures fresh(backBuffer) && backBuffer.Length == pixelCount
      ensures !locked && lockCalls == 0 && unlockCalls == 0 && dirtyRects == 0
    {
      backBuffer := new bv32[pixelCount];
      locked := false;
      lockCalls, unlockCalls, dirtyRects := 0, 0, 0;
    }

    method Lock()
      requires !locked
      modifies this`locked, this`lockCalls
      ensures locked && lockCalls == old(lockCalls) + 1
    {
      locked := true;
      lockCalls := lockCalls + 1;
    }

    method Unlock()
      requires locked
      modifies this`locked, this`unlockCalls
      ensures !locked && unlockCalls == old(unlockCalls) + 1
    {
      locked := false;
      unlockCalls := unlockCalls + 1;
    }

    /** Marks the whole image changed; only legal while locked. */
    method AddDirtyRect()
      requires locked
      modifies this`dirtyRects
      ensures dirtyRects == old(dirtyRects) + 1
    {
      dirtyRects := dirtyRects + 1;
    }
  }

  /** The handler masks only a frame set whose three sub-frames all arrived. */
  predicate Complete(frameSetAcquired: bool, depth: DepthFrame?, color: ColorFrame?, bodyIndex: BodyIndexFrame?) {
    frameSetAcquired && depth != null && color != null && bodyIndex != null
  }

  /**
   * Which SDK call of the handler's try block throws, if any: locking the
   * depth buffer and mapping it, `Lock`, the colour conversion, locking the
   * body-index buffer, `AddDirtyRect`, or the body drawing that follows. A
   * call that throws is taken to have had no effect.
   */
  datatype Failure =
    | MappingThrows
    | LockThrows
    | ConversionThrows
    | BodyIndexBufferThrows
    | DirtyRectThrows
    | DrawingThrows
    | NoFailure

  /** How many of those calls complete before the one that throws. */
  function CompletedCalls(failure: Failure): (n: nat)
    ensures n <= 6
    ensures n == 6 <==> failure.NoFailure?
  {
    match failure
    case MappingThrows => 0
    case LockThrows => 1
    case ConversionThrows => 2
    case BodyIndexBufferThrows => 3
    case DirtyRectThrows => 4
    case DrawingThrows => 5
    case NoFailure => 6
  }

  /**
   * The multi-source frame handler. `frameSetAcquired` is false when the
   * multi-source frame had expired; `depth`, `color` and `bodyIndex` are what
   * acquiring each sub-frame returned (null when it had expired); `mapping` is
   * the table the coordinate mapper fills from the depth frame; `failure`
   * says which SDK call, if any, throws. `raised` tells whether the handler
   * leaves by an exception.
   */
  method MultiSourceFrameArrived(bitmap: Bitmap, frameSetAcquired: bool,
                                 depth: DepthFrame?, color: ColorFrame?, bodyIndex: BodyIndexFrame?,
                                 mapping: seq<DepthSpacePoint>, failure: Failure)
    returns (raised: bool)
    requires !bitmap.locked
    requires |mapping| <= bitmap.backBuffer.Length
    requires color != null ==> |color.bgra| == bitmap.backBuffer.Length
    requires depth != null && bodyIndex != null ==> |bodyIndex.data| >= depth.width * depth.height
    modifies bitmap, bitmap.backBuffer, depth, color, bodyIndex
    // only a call inside the try block, reached with all three sub-frames, can throw
    ensures raised == (Complete(frameSetAcquired, depth, color, bodyIndex) && !failure.NoFailure?)
    // on every exit the bitmap is left unlocked, unlocked once for each time it was locked
    ensures !bitmap.locked
    ensures bitmap.unlockCalls - old(bitmap.unlockCalls) == bitmap.lockCalls - old(bitmap.lockCalls)
    ensures bitmap.lockCalls == old(bitmap.lockCalls)
      + (if Complete(frameSetAcquired, depth, color, bodyIndex) && CompletedCalls(failure) >= 2 then 1 else 0)
    // the whole image is marked dirty once, after masking, on a complete frame set
    ensures bitmap.dirtyRects == old(bitmap.dirtyRects)
      + (if Complete(frameSetAcquired, depth, color, bodyIndex) && CompletedCalls(failure) >= 5 then 1 else 0)
    // the back buffer: masked, only converted, or untouched
    ensures Complete(frameSetAcquired, depth, color, bodyIndex) && CompletedCalls(failure) >= 4 ==>
      bitmap.backBuffer[..] == Masked(color.bgra, mapping, bodyIndex.data, depth.width, depth.height)
    ensures Complete(frameSetAcquired, depth, color, bodyIndex) && CompletedCalls(failure) == 3 ==>
      bitmap.backBuffer[..] == color.bgra
    ensures !(Complete(frameSetAcquired, depth, color, bodyIndex) && CompletedCalls(failure) >= 3) ==>
      bitmap.backBuffer[..] == old(bitmap.backBuffer[..])
    // on every exit each sub-frame acquired is disposed exactly once
    ensures depth != null ==> depth.disposals == old(depth.disposals) + (if frameSetAcquired then 1 else 0)
    ensures color != null ==> color.disposals == old(color.disposals) + (if frameSetAcquired then 1 else 0)
    ensures bodyIndex != null ==> bodyIndex.disposals == old(bodyIndex.disposals) + (if frameSetAcquired then 1 else 0)
  {
    raised := false;
    if !frameSetAcquired {
      return;
    }
    var depthFrame, colorFrame, bodyIndexFrame := depth, color, bodyIndex;
    var isBitmapLocked := false;

    // the try block; leaving it early is the early return or a thrown exception
    label acquired: {
      if depthFrame == null || colorFrame == null || bodyIndexFrame == null {
        break acquired;
      }
      var depthWidth, depthHeight := depthFrame.width, depthFrame.height;

      if failure.MappingThrows? {
        raised := true;
        break acquired;
      }
      depthFrame.Dispose();
      depthFrame := null;

      if failure.LockThrows? {
        raised := true;
        break acquired;
      }
      bitmap.Lock();
      isBitmapLocked := true;

      if failure.ConversionThrows? {
        raised := true;
        break acquired;
      }
      colorFrame.CopyConvertedFrameData(bitmap.backBuffer);

      colorFrame.Dispose();
      colorFrame := null;

      if failure.BodyIndexBufferThrows? {
        raised := true;
        break acquired;
      }
      MaskBackground(bitmap.backBuffer, mapping, bodyIndexFrame.data, depthWidth, depthHeight);

      if failure.DirtyRectThrows? {
        raised := true;
        break acquired;
      }
      bitmap.AddDirtyRect();

      if failure.DrawingThrows? {
        raised := true;
        break acquired;
      }
    }

    // the finally block
    if isBitmapLocked {
      bitmap.Unlock();
    }
    if depthFrame != null {
      depthFrame.Dispose();
    }
    if colorFrame != null {
      colorFrame.Dispose();
    }
    if bodyIndexFrame != null {
      bodyIndexFrame.Dispose();
    }
  }

  /**
   * The body-frame handler. `frame` holds the tracking id of every body of
   * the body frame, or is `None` when no frame was acquired; slot `i` is
   * rebound to body `i` when their ids differ, and paused exactly when the
   * new id is 0. Smoothing histories are never reset.
   */
  method BodyFrameArrived(frame: Option<seq<TrackingId>>, detectors: seq<GestureDetector>, maxBodies: nat)
    requires maxBodies <= |detectors|
    requires frame.Some? ==> maxBodies <= |frame.value|
    requires forall i, j :: 0 <= i < j < |detectors| ==> detectors[i] != detectors[j]
    modifies set d | d in detectors
    ensures frame.Some? ==> forall i :: 0 <= i < maxBodies ==>
      detectors[i].trackingId == frame.value[i]
      && detectors[i].paused == (if old(detectors[i].trackingId) != frame.value[i]
                                 then frame.value[i] == 0 else old(detectors[i].paused))
    // the SDK properties are assigned only on a rebinding, and only with a new value
    ensures frame.Some? ==> forall i :: 0 <= i < maxBodies ==>
      detectors[i].trackingIdWrites == old(detectors[i].trackingIdWrites)
        + (if old(detectors[i].trackingId) != frame.value[i] then 1 else 0)
      && detectors[i].pausedWrites == old(detectors[i].pausedWrites)
        + (if old(detectors[i].trackingId) != frame.value[i] && old(detectors[i].paused) != (frame.value[i] == 0)
           then 1 else 0)
    ensures forall i :: 0 <= i < |detectors| && (frame.None? || maxBodies <= i) ==>
      detectors[i].trackingId == old(detectors[i].trackingId) && detectors[i].paused == old(detectors[i].paused)
      && detectors[i].trackingIdWrites == old(detectors[i].trackingIdWrites)
      && detectors[i].pausedWrites == old(detectors[i].pausedWrites)
    ensures forall i :: 0 <= i < |detectors| ==>
      detectors[i].backgroundBufferIndex == old(detectors[i].backgroundBufferIndex)
      && detectors[i].backgroundBuffer[..] == old(detectors[i].backgroundBuffer[..])
  {
    if frame.None? {
      return;
    }
    var bodies := frame.value;
    for i := 0 to maxBodies
      invariant forall k :: 0 <= k < i ==>
        detectors[k].trackingId == bodies[k]
        && detectors[k].paused == (if old(detectors[k].trackingId) != bodies[k]
                                   then bodies[k] == 0 else old(detectors[k].paused))
        && detectors[k].trackingIdWrites == old(detectors[k].trackingIdWrites)
          + (if old(detectors[k].trackingId) != bodies[k] then 1 else 0)
        && detectors[k].pausedWrites == old(detectors[k].pausedWrites)
          + (if old(detectors[k].trackingId) != bodies[k] && old(detectors[k].paused) != (bodies[k] == 0) then 1 else 0)
      invariant forall k :: i <= k < |detectors| ==>
        detectors[k].trackingId == old(detectors[k].trackingId) && detectors[k].paused == old(detectors[k].paused)
        && detectors[k].trackingIdWrites == old(detectors[k].trackingIdWrites)
        && detectors[k].pausedWrites == old(detectors[k].pausedWrites)
      invariant forall k :: 0 <= k < |detectors| ==>
        detectors[k].backgroundBufferIndex == old(detectors[k].backgroundBufferIndex)
    {
      var trackingId := bodies[i];
      if trackingId != detectors[i].trackingId {
        detectors[i].SetTrackingId(trackingId);
        detectors[i].SetPaused(trackingId == 0);
      }
    }
  }
}
