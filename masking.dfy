/**
 * Background removal: every colour pixel whose mapped depth pixel shows no
 * body is zeroed in place. The mapping table (one depth-space point per
 * colour pixel) and the body-index bytes are inputs.
 */
module Masking {

  /** A coordinate of the mapping table; the mapper marks "no depth pixel" with -inf. */
  datatype Coordinate = NegativeInfinity | Finite(value: real)

  /** One entry of the colour-to-depth mapping table. */
  datatype DepthSpacePoint = DepthSpacePoint(x: Coordinate, y: Coordinate)

  /** Body-index byte meaning "no body at this depth pixel". */
  const NoBody: bv8 := 0xFF

  /** C#'s `(int)` cast of a value: truncation toward zero. */
  function TruncateToInt(r: real): (n: int)
    ensures 0.0 <= r ==> n as real <= r < n as real + 1.0
    ensures r < 0.0 ==> n as real - 1.0 < r <= n as real
  {
    if r >= 0.0 then r.Floor else -((-r).Floor)
  }

  /** The depth pixel coordinate chosen for a mapped coordinate: `(int)(c + 0.5f)`. */
  function DepthCoordinate(c: real): int {
    TruncateToInt(c + 0.5)
  }

  /** Where the sum is non-negative, the cast agrees with round-half-up. */
  lemma DepthCoordinateRoundsHalfUp(c: real)
    requires -0.5 <= c
    ensures DepthCoordinate(c) == (c + 0.5).Floor
  {
  }

  /**
   * The cast differs from round-half-up on an index that passes the bounds
   * test only for coordinates in (-1.5, -0.5), which it maps to 0.
   */
  lemma TruncationDiffersOnlyNearMinusOne(c: real)
    ensures (-1.5 < c < -0.5) ==> DepthCoordinate(c) == 0 && (c + 0.5).Floor == -1
    ensures 0 <= DepthCoordinate(c) && DepthCoordinate(c) != (c + 0.5).Floor ==> -1.5 < c < -0.5
  {
  }

  predicate HasDepth(p: DepthSpacePoint) {
    p.x.Finite? && p.y.Finite?
  }

  predicate InDepthFrame(depthX: int, depthY: int, depthWidth: nat, depthHeight: nat) {
    0 <= depthX < depthWidth && 0 <= depthY < depthHeight
  }

  /** Every in-frame depth pixel has a row-major index inside the depth buffer. */
  lemma DepthIndexInBounds(depthX: int, depthY: int, depthWidth: nat, depthHeight: nat)
    requires InDepthFrame(depthX, depthY, depthWidth, depthHeight)
    ensures 0 <= depthY * depthWidth + depthX < depthWidth * depthHeight
  {
    assert depthY * depthWidth <= (depthHeight - 1) * depthWidth;
    assert (depthHeight - 1) * depthWidth == depthWidth * depthHeight - depthWidth;
  }

  /** Whether a colour pixel whose mapping entry is `p` stays visible. */
  predicate KeepPixel(p: DepthSpacePoint, bodyIndex: seq<bv8>, depthWidth: nat, depthHeight: nat)
    requires |bodyIndex| >= depthWidth * depthHeight
  {
    HasDepth(p) &&
    var depthX := DepthCoordinate(p.x.value);
    var depthY := DepthCoordinate(p.y.value);
    InDepthFrame(depthX, depthY, depthWidth, depthHeight) &&
    (DepthIndexInBounds(depthX, depthY, depthWidth, depthHeight);
     bodyIndex[depthY * depthWidth + depthX] != NoBody)
  }

  /** The colour buffer after the pass, as a function of the buffer before it. */
  function Masked(pixels: seq<bv32>, mapping: seq<DepthSpacePoint>, bodyIndex: seq<bv8>,
                  depthWidth: nat, depthHeight: nat): (r: seq<bv32>)
    requires |mapping| <= |pixels|
    requires |bodyIndex| >= depthWidth * depthHeight
  {
    seq(|pixels|, i requires 0 <= i < |pixels| =>
      if i < |mapping| && !KeepPixel(mapping[i], bodyIndex, depthWidth, depthHeight) then 0
      else pixels[i])
  }

  /**
   * The masking loop: walks the mapping table and zeroes, in place, every
   * pixel that has no depth correspondence, maps outside the depth frame or
   * maps onto a depth pixel without a body.
   */
  method MaskBackground(pixels: array<bv32>, mapping: seq<DepthSpacePoint>, bodyIndex: seq<bv8>,
                        depthWidth: nat, depthHeight: nat)
    requires |mapping| <= pixels.Length
    requires |bodyIndex| >= depthWidth * depthHeight
    modifies pixels
    ensures pixels[..] == Masked(old(pixels[..]), mapping, bodyIndex, depthWidth, depthHeight)
  {
    var count := |mapping|;
    for colorIndex := 0 to count
      invariant forall k :: 0 <= k < colorIndex ==>
        pixels[k] == if KeepPixel(mapping[k], bodyIndex, depthWidth, depthHeight) then old(pixels[k]) else 0
      invariant forall k :: colorIndex <= k < pixels.Length ==> pixels[k] == old(pixels[k])
    {
      var p := mapping[colorIndex];
      if p.x.Finite? && p.y.Finite? {
        var depthX := DepthCoordinate(p.x.value);
        var depthY := DepthCoordinate(p.y.value);
        if depthX >= 0 && depthX < depthWidth && depthY >= 0 && depthY < depthHeight {
          DepthIndexInBounds(depthX, depthY, depthWidth, depthHeight);
          var depthIndex := depthY * depthWidth + depthX;
          if bodyIndex[depthIndex] != NoBody {
            continue;
          }
        }
      }
      pixels[colorIndex] := 0;
    }
  }

  /** A sentinel entry zeroes its pixel whatever the body-index bytes say. */
  lemma SentinelZeroes(pixels: seq<bv32>, mapping: seq<DepthSpacePoint>, bodyIndex: seq<bv8>,
                       depthWidth: nat, depthHeight: nat, i: nat)
    requires |mapping| <= |pixels| && |bodyIndex| >= depthWidth * depthHeight
    requires i < |mapping| && (mapping[i].x.NegativeInfinity? || mapping[i].y.NegativeInfinity?)
    ensures Masked(pixels, mapping, bodyIndex, depthWidth, depthHeight)[i] == 0
  {
  }

  /** An entry that lands outside the depth frame zeroes its pixel. */
  lemma OutOfFrameZeroes(pixels: seq<bv32>, mapping: seq<DepthSpacePoint>, bodyIndex: seq<bv8>,
                         depthWidth: nat, depthHeight: nat, i: nat)
    requires |mapping| <= |pixels| && |bodyIndex| >= depthWidth * depthHeight
    requires i < |mapping| && HasDepth(mapping[i])
    requires !InDepthFrame(DepthCoordinate(mapping[i].x.value), DepthCoordinate(mapping[i].y.value),
                           depthWidth, depthHeight)
    ensures Masked(pixels, mapping, bodyIndex, depthWidth, depthHeight)[i] == 0
  {
  }

  /**
   * An entry inside the depth frame keeps its pixel exactly when the body
   * index there is not "no body", and zeroes it otherwise.
   */
  lemma InFrameFollowsBodyIndex(pixels: seq<bv32>, mapping: seq<DepthSpacePoint>, bodyIndex: seq<bv8>,
                                depthWidth: nat, depthHeight: nat, i: nat)
    requires |mapping| <= |pixels| && |bodyIndex| >= depthWidth * depthHeight
    requires i < |mapping| && HasDepth(mapping[i])
    requires InDepthFrame(DepthCoordinate(mapping[i].x.value), DepthCoordinate(mapping[i].y.value),
                          depthWidth, depthHeight)
    ensures var depthIndex := DepthCoordinate(mapping[i].y.value) * depthWidth + DepthCoordinate(mapping[i].x.value);
      0 <= depthIndex < |bodyIndex| &&
      Masked(pixels, mapping, bodyIndex, depthWidth, depthHeight)[i] ==
        (if bodyIndex[depthIndex] != NoBody then pixels[i] else 0)
  {
    DepthIndexInBounds(DepthCoordinate(mapping[i].x.value), DepthCoordinate(mapping[i].y.value),
                       depthWidth, depthHeight);
  }

  /**
   * Every pixel is either unchanged or zero, and pixels beyond the mapping
   * table are never written.
   */
  lemma OnlyZeroesWithinTable(pixels: seq<bv32>, mapping: seq<DepthSpacePoint>, bodyIndex: seq<bv8>,
                              depthWidth: nat, depthHeight: nat)
    requires |mapping| <= |pixels| && |bodyIndex| >= depthWidth * depthHeight
    ensures var r := Masked(pixels, mapping, bodyIndex, depthWidth, depthHeight);
      |r| == |pixels| &&
      (forall i :: 0 <= i < |r| ==> r[i] == pixels[i] || r[i] == 0) &&
      (forall i :: |mapping| <= i < |r| ==> r[i] == pixels[i])
  {
  }

  /** Masking twice with the same inputs changes nothing more. */
  lemma MaskedIdempotent(pixels: seq<bv32>, mapping: seq<DepthSpacePoint>, bodyIndex: seq<bv8>,
                         depthWidth: nat, depthHeight: nat)
    requires |mapping| <= |pixels| && |bodyIndex| >= depthWidth * depthHeight
    ensures var r := Masked(pixels, mapping, bodyIndex, depthWidth, depthHeight);
      Masked(r, mapping, bodyIndex, depthWidth, depthHeight) == r
  {
  }

  /** A 4x4 colour image mapped one to one onto a 4x4 depth image. */
  function IdentityMapping4x4(): (m: seq<DepthSpacePoint>)
    ensures |m| == 16
  {
    seq(16, i => DepthSpacePoint(Finite((i % 4) as real), Finite((i / 4) as real)))
  }

  /** A body-index image with a body only at depth pixel 5. */
  function BodyOnlyAt5(): (b: seq<bv8>)
    ensures |b| == 16
  {
    seq(16, i => if i == 5 then 0x00 else NoBody)
  }

  /** With a body only at depth pixel 5, only colour pixel 5 survives. */
  lemma OnlyBodyPixelSurvives(pixels: seq<bv32>)
    requires |pixels| == 16
    ensures forall i :: 0 <= i < 16 ==>
      Masked(pixels, IdentityMapping4x4(), BodyOnlyAt5(), 4, 4)[i] == if i == 5 then pixels[5] else 0
  {
  }
}
