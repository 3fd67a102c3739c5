/**
 * Trivial accept/reject of a brush submodel's bounding box against the four
 * side planes of the view frustum, and the unrotated case of the box a
 * rotated submodel occupies. Plane distances are `real`: the rounding of
 * `float` is not modelled.
 */
module Clip {
  import opened Common

  /** `mplane_t` restricted to what the box test reads. */
  datatype Plane = Plane(normal: Vec3, dist: real)

  /**
   * The result of `R_BmodelCheckBBox`: the box is entirely outside one plane
   * (`BMODEL_FULLY_CLIPPED`), or the set of planes it crosses, bit `i` for
   * plane `i`.
   */
  datatype BBoxClip = FullyClipped | ClipFlags(mask: bv8)

  /** The four frustum planes and, for each, the six corner indexes into `minmaxs`. */
  predicate FrustumShape(planes: seq<Plane>, indexes: seq<seq<int>>)
  {
    && |planes| == 4 && |indexes| == 4
    && forall i | 0 <= i < 4 :: |indexes[i]| == 6 && forall j | 0 <= j < 6 :: 0 <= indexes[i][j] < 6
  }

  /** Signed distance of `pt` from `plane`: positive on the side the normal points to. */
  function PlaneDistance(plane: Plane, pt: Vec3): real
  {
    Dot(pt, plane.normal) - plane.dist
  }

  /** The box corner picked by indexes `base`, `base + 1`, `base + 2` of one plane's index row. */
  function Corner(minmaxs: seq<real>, index: seq<int>, base: int): Vec3
    requires |minmaxs| == 6 && |index| == 6 && (base == 0 || base == 3)
    requires forall j | 0 <= j < 6 :: 0 <= index[j] < 6
  {
    Vec3(minmaxs[index[base]], minmaxs[index[base + 1]], minmaxs[index[base + 2]])
  }

  /** Signed distance of plane `i`'s reject point (the corner furthest inside the plane). */
  function RejectDistance(planes: seq<Plane>, indexes: seq<seq<int>>, minmaxs: seq<real>, i: int): real
    requires FrustumShape(planes, indexes) && |minmaxs| == 6 && 0 <= i < 4
  {
    PlaneDistance(planes[i], Corner(minmaxs, indexes[i], 0))
  }

  /** Signed distance of plane `i`'s accept point (the corner furthest outside the plane). */
  function AcceptDistance(planes: seq<Plane>, indexes: seq<seq<int>>, minmaxs: seq<real>, i: int): real
    requires FrustumShape(planes, indexes) && |minmaxs| == 6 && 0 <= i < 4
  {
    PlaneDistance(planes[i], Corner(minmaxs, indexes[i], 3))
  }

  /** `1 << i`: the flag of frustum plane `i`. */
  function PlaneBit(i: int): (r: bv8)
    requires 0 <= i < 4
    ensures r == (1 as bv8) << i
  {
    if i == 0 then 1 else if i == 1 then 2 else if i == 2 then 4 else 8
  }

  /** The bits of the planes below `n` whose accept point is on or behind the plane. */
  function CrossedBelow(planes: seq<Plane>, indexes: seq<seq<int>>, minmaxs: seq<real>, n: nat): bv8
    requires FrustumShape(planes, indexes) && |minmaxs| == 6 && n <= 4
  {
    if n == 0 then 0
    else
      CrossedBelow(planes, indexes, minmaxs, n - 1)
      | (if AcceptDistance(planes, indexes, minmaxs, n - 1) <= 0.0 then PlaneBit(n - 1) else 0)
  }

  /**
   * The outcome the box test is meant to have: fully clipped when some
   * plane has the whole box behind it, else the set of planes the box crosses.
   */
  function BBoxClipSpec(planes: seq<Plane>, indexes: seq<seq<int>>, minmaxs: seq<real>): BBoxClip
    requires FrustumShape(planes, indexes) && |minmaxs| == 6
  {
    if exists i | 0 <= i < 4 :: RejectDistance(planes, indexes, minmaxs, i) <= 0.0 then FullyClipped
    else ClipFlags(CrossedBelow(planes, indexes, minmaxs, 4))
  }

  /** Bit `i` of the crossed set is set exactly when plane `i`'s accept distance is at most 0, and no bit above 3 is. */
  lemma CrossedBits(planes: seq<Plane>, indexes: seq<seq<int>>, minmaxs: seq<real>, i: int)
    requires FrustumShape(planes, indexes) && |minmaxs| == 6 && 0 <= i < 4
    ensures CrossedBelow(planes, indexes, minmaxs, 4) & PlaneBit(i) != 0
            <==> AcceptDistance(planes, indexes, minmaxs, i) <= 0.0
    ensures CrossedBelow(planes, indexes, minmaxs, 4) < 16
  {
    var a0 := AcceptDistance(planes, indexes, minmaxs, 0) <= 0.0;
    var a1 := AcceptDistance(planes, indexes, minmaxs, 1) <= 0.0;
    var a2 := AcceptDistance(planes, indexes, minmaxs, 2) <= 0.0;
    var a3 := AcceptDistance(planes, indexes, minmaxs, 3) <= 0.0;
    var m1: bv8 := if a0 then 1 else 0;
    var m2: bv8 := m1 | (if a1 then 2 else 0);
    var m3: bv8 := m2 | (if a2 then 4 else 0);
    var m4: bv8 := m3 | (if a3 then 8 else 0);
    assert CrossedBelow(planes, indexes, minmaxs, 1) == m1;
    assert CrossedBelow(planes, indexes, minmaxs, 2) == m2;
    assert CrossedBelow(planes, indexes, minmaxs, 3) == m3;
    assert CrossedBelow(planes, indexes, minmaxs, 4) == m4;
  }

  /** `R_BmodelCheckBBox`: the planes in order; the first reject point on or behind its plane ends the test. */
  method BmodelCheckBBox(planes: seq<Plane>, indexes: seq<seq<int>>, minmaxs: seq<real>) returns (r: BBoxClip)
    requires FrustumShape(planes, indexes) && |minmaxs| == 6
    ensures r == BBoxClipSpec(planes, indexes, minmaxs)
  {
    var clipflags: bv8 := 0;
    var i := 0;
    while i < 4
      invariant 0 <= i <= 4
      invariant forall j | 0 <= j < i :: RejectDistance(planes, indexes, minmaxs, j) > 0.0
      invariant clipflags == CrossedBelow(planes, indexes, minmaxs, i)
    {
      var pindex := indexes[i];
      var rejectpt := Corner(minmaxs, pindex, 0);
      var d := PlaneDistance(planes[i], rejectpt);
      if d <= 0.0 {
        assert RejectDistance(planes, indexes, minmaxs, i) <= 0.0;
        return FullyClipped;
      }
      assert RejectDistance(planes, indexes, minmaxs, i) > 0.0;
      var acceptpt := Corner(minmaxs, pindex, 3);
      d := PlaneDistance(planes[i], acceptpt);
      assert d == AcceptDistance(planes, indexes, minmaxs, i);
      if d <= 0.0 {
        clipflags := clipflags | PlaneBit(i);
      }
      assert clipflags == CrossedBelow(planes, indexes, minmaxs, i + 1);
      i := i + 1;
    }
    r := ClipFlags(clipflags);
  }

  /**
   * What the box test's outcome means: fully clipped exactly when some
   * plane's reject point is on or behind it; otherwise a mask below 16 whose
   * bit `i` is set exactly when plane `i`'s accept point is on or behind it.
   */
  lemma BBoxClipMeaning(planes: seq<Plane>, indexes: seq<seq<int>>, minmaxs: seq<real>)
    requires FrustumShape(planes, indexes) && |minmaxs| == 6
    ensures BBoxClipSpec(planes, indexes, minmaxs) == FullyClipped
            <==> exists i | 0 <= i < 4 :: RejectDistance(planes, indexes, minmaxs, i) <= 0.0
    ensures BBoxClipSpec(planes, indexes, minmaxs).ClipFlags? ==> BBoxClipSpec(planes, indexes, minmaxs).mask < 16
    ensures BBoxClipSpec(planes, indexes, minmaxs).ClipFlags? ==> forall i | 0 <= i < 4 ::
              (BBoxClipSpec(planes, indexes, minmaxs).mask & PlaneBit(i) != 0
               <==> AcceptDistance(planes, indexes, minmaxs, i) <= 0.0)
  {
    forall i | 0 <= i < 4
      ensures (CrossedBelow(planes, indexes, minmaxs, 4) & PlaneBit(i) != 0
               <==> AcceptDistance(planes, indexes, minmaxs, i) <= 0.0)
      ensures CrossedBelow(planes, indexes, minmaxs, 4) < 16
    {
      CrossedBits(planes, indexes, minmaxs, i);
    }
  }

  /** Whether every component of `angles` is zero. */
  predicate Unrotated(angles: Vec3)
  {
    angles.x == 0.0 && angles.y == 0.0 && angles.z == 0.0
  }

  /**
   * `RotatedBBox`. With no rotation the box is the model's own; otherwise it
   * is the axis-aligned box around the rotated corners, which the model
   * takes as `rotated` instead of computing it.
   */
  function RotatedBBox(mins: Vec3, maxs: Vec3, angles: Vec3, rotated: (Vec3, Vec3)): (Vec3, Vec3)
  {
    if Unrotated(angles) then (mins, maxs) else rotated
  }

  /** `minmaxs`: the box moved to the entity's origin, minimum corner first. */
  function MinMaxs(mins: Vec3, maxs: Vec3, origin: Vec3): (r: seq<real>)
    ensures |r| == 6
    ensures Corner(r, [0, 1, 2, 3, 4, 5], 0) == Add(mins, origin)
    ensures Corner(r, [0, 1, 2, 3, 4, 5], 3) == Add(maxs, origin)
  {
    var lo := Add(mins, origin);
    var hi := Add(maxs, origin);
    [lo.x, lo.y, lo.z, hi.x, hi.y, hi.z]
  }
}
