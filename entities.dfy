/**
 * The two entity passes of a frame: brush submodels, which are fed to the
 * edge list from `R_DrawBEntitiesOnList`, and sprites, alias models and
 * beams, which `R_DrawEntitiesOnList` draws afterwards, opaque ones first.
 * The drawing routines themselves are not part of this model; each call to
 * one is recorded as an event carrying the globals the routine reads.
 */
module Entities {
  import opened Common
  import opened Clip
  import opened Bsp

  /** `modtype_t`; `OtherModel` stands for `mod_bad`. */
  datatype ModelKind = BrushModel | SpriteModel | AliasModel | OtherModel

  /** The fields of `model_t` the entity passes read. */
  datatype Model = Model(kind: ModelKind, numModelSurfaces: int, mins: Vec3, maxs: Vec3)

  /**
   * `entity_t`: an optional model, the `RF_TRANSLUCENT` and `RF_BEAM`
   * flags, the origin and the rotation angles.
   */
  datatype Entity = Entity(model: Option<Model>, translucent: bool, beam: bool, origin: Vec3, angles: Vec3)

  datatype DrawKind = Beam | Sprite | Alias

  /** One call of `R_DrawBeam`, `R_DrawSprite` or `R_AliasDrawModel`, with `modelorg` and `r_entorigin` at that moment. */
  datatype Draw = Draw(kind: DrawKind, entity: nat, modelorg: Vec3, entorigin: Vec3)

  /** The globals the entity loop leaves behind: `modelorg` and `r_entorigin`. */
  datatype Origins = Origins(modelorg: Vec3, entorigin: Vec3)

  /** Whether the second pass draws the entity: a beam, or a model that is a sprite or an alias model. */
  predicate Drawable(e: Entity)
  {
    e.beam || (e.model.Some? && (e.model.value.kind == SpriteModel || e.model.value.kind == AliasModel))
  }

  /** Whether visiting the entity in its pass sets `modelorg` and `r_entorigin`: beams and entities with a model. */
  predicate SetsOrigins(e: Entity)
  {
    e.beam || e.model.Some?
  }

  /** The origins a visit sets: a beam is drawn from the world origin, a model relative to its own origin. */
  function OriginsFor(e: Entity, viewOrigin: Vec3): Origins
  {
    if e.beam then Origins(Neg(viewOrigin), Origin) else Origins(Sub(viewOrigin, e.origin), e.origin)
  }

  /** The event of drawing entity `i`. */
  function DrawOf(e: Entity, i: nat, viewOrigin: Vec3): Draw
    requires Drawable(e)
  {
    var o := OriginsFor(e, viewOrigin);
    var kind := if e.beam then Beam else if e.model.value.kind == SpriteModel then Sprite else Alias;
    Draw(kind, i, o.modelorg, o.entorigin)
  }

  /** The draws of one pass over the first `n` entities: the drawable ones whose translucency is `translucent`, in list order. */
  function Pass(ents: seq<Entity>, translucent: bool, n: nat, viewOrigin: Vec3): seq<Draw>
    requires n <= |ents|
  {
    if n == 0 then []
    else
      var e := ents[n - 1];
      Pass(ents, translucent, n - 1, viewOrigin)
      + (if e.translucent == translucent && Drawable(e) then [DrawOf(e, n - 1, viewOrigin)] else [])
  }

  /** `modelorg` and `r_entorigin` after one pass over the first `n` entities, starting from `start`. */
  function AfterPass(ents: seq<Entity>, translucent: bool, n: nat, viewOrigin: Vec3, start: Origins): Origins
    requires n <= |ents|
  {
    if n == 0 then start
    else
      var e := ents[n - 1];
      if e.translucent == translucent && SetsOrigins(e) then OriginsFor(e, viewOrigin)
      else AfterPass(ents, translucent, n - 1, viewOrigin, start)
  }

  /** Whether one of the first `n` entities is translucent. */
  predicate AnyTranslucent(ents: seq<Entity>, n: nat)
    requires n <= |ents|
  {
    exists j | 0 <= j < n :: ents[j].translucent
  }

  /** Everything `R_DrawEntitiesOnList` draws: nothing when entities are off, else the opaque pass and then the translucent one. */
  function DrawList(ents: seq<Entity>, drawEntities: bool, viewOrigin: Vec3): seq<Draw>
  {
    if !drawEntities then [] else Pass(ents, false, |ents|, viewOrigin) + Pass(ents, true, |ents|, viewOrigin)
  }

  /**
   * A pass lists only drawable entities of its translucency, in increasing
   * list order, each with the event its kind calls for.
   */
  lemma {:induction false} PassSound(ents: seq<Entity>, translucent: bool, n: nat, viewOrigin: Vec3)
    requires n <= |ents|
    ensures forall a | 0 <= a < |Pass(ents, translucent, n, viewOrigin)| ::
              var d := Pass(ents, translucent, n, viewOrigin)[a];
              && d.entity < n && ents[d.entity].translucent == translucent && Drawable(ents[d.entity])
              && d == DrawOf(ents[d.entity], d.entity, viewOrigin)
    ensures forall a, b | 0 <= a < b < |Pass(ents, translucent, n, viewOrigin)| ::
              Pass(ents, translucent, n, viewOrigin)[a].entity < Pass(ents, translucent, n, viewOrigin)[b].entity
  {
    if n > 0 {
      PassSound(ents, translucent, n - 1, viewOrigin);
      var before := Pass(ents, translucent, n - 1, viewOrigin);
      var p := Pass(ents, translucent, n, viewOrigin);
      var e := ents[n - 1];
      assert p == before + (if e.translucent == translucent && Drawable(e) then [DrawOf(e, n - 1, viewOrigin)] else []);
      assert forall a | 0 <= a < |before| :: p[a] == before[a];
    }
  }

  /** A pass lists every drawable entity of its translucency. */
  lemma {:induction false} PassComplete(ents: seq<Entity>, translucent: bool, n: nat, viewOrigin: Vec3, j: nat)
    requires n <= |ents| && j < n && ents[j].translucent == translucent && Drawable(ents[j])
    ensures exists a | 0 <= a < |Pass(ents, translucent, n, viewOrigin)| :: Pass(ents, translucent, n, viewOrigin)[a].entity == j
  {
    var before := Pass(ents, translucent, n - 1, viewOrigin);
    var p := Pass(ents, translucent, n, viewOrigin);
    var e := ents[n - 1];
    assert p == before + (if e.translucent == translucent && Drawable(e) then [DrawOf(e, n - 1, viewOrigin)] else []);
    if j < n - 1 {
      PassComplete(ents, translucent, n - 1, viewOrigin, j);
      var a :| 0 <= a < |before| && before[a].entity == j;
      assert p[a] == before[a];
    } else {
      assert p[|before|].entity == j;
    }
  }

  /** Without a translucent entity the translucent pass draws nothing and changes no origin. */
  lemma {:induction false} NoTranslucentPass(ents: seq<Entity>, n: nat, viewOrigin: Vec3, start: Origins)
    requires n <= |ents| && !AnyTranslucent(ents, n)
    ensures Pass(ents, true, n, viewOrigin) == []
    ensures AfterPass(ents, true, n, viewOrigin, start) == start
  {
    if n > 0 {
      NoTranslucentPass(ents, n - 1, viewOrigin, start);
    }
  }

  /** Every event of the frame's draw list is the event of a drawable entity of the list. */
  lemma DrawListEvents(ents: seq<Entity>, drawEntities: bool, viewOrigin: Vec3)
    ensures !drawEntities ==> DrawList(ents, drawEntities, viewOrigin) == []
    ensures forall d | d in DrawList(ents, drawEntities, viewOrigin) ::
              d.entity < |ents| && Drawable(ents[d.entity]) && d == DrawOf(ents[d.entity], d.entity, viewOrigin)
  {
    if drawEntities {
      PassSound(ents, false, |ents|, viewOrigin);
      PassSound(ents, true, |ents|, viewOrigin);
    }
  }

  /** An entity appears in the frame's draw list exactly when entities are on and it is drawable. */
  lemma DrawListCovers(ents: seq<Entity>, drawEntities: bool, viewOrigin: Vec3, j: nat)
    requires j < |ents|
    ensures (drawEntities && Drawable(ents[j]))
            <==> exists a | 0 <= a < |DrawList(ents, drawEntities, viewOrigin)| :: DrawList(ents, drawEntities, viewOrigin)[a].entity == j
  {
    if drawEntities {
      var n := |ents|;
      var firstPass := Pass(ents, false, n, viewOrigin);
      var clear := Pass(ents, true, n, viewOrigin);
      var all := firstPass + clear;
      assert all == DrawList(ents, drawEntities, viewOrigin);
      if Drawable(ents[j]) {
        PassComplete(ents, ents[j].translucent, n, viewOrigin, j);
        if ents[j].translucent {
          var c :| 0 <= c < |clear| && clear[c].entity == j;
          assert all[|firstPass| + c].entity == j;
        } else {
          var c :| 0 <= c < |firstPass| && firstPass[c].entity == j;
          assert all[c].entity == j;
        }
      } else if a :| 0 <= a < |all| && all[a].entity == j {
        PassSound(ents, false, n, viewOrigin);
        PassSound(ents, true, n, viewOrigin);
      }
    }
  }

  /**
   * The order of the frame's draw list: all opaque entities before any
   * translucent one, list order among entities of one translucency, and
   * so no entity twice.
   */
  lemma DrawListOrdered(ents: seq<Entity>, drawEntities: bool, viewOrigin: Vec3)
    ensures forall a, b | 0 <= a < b < |DrawList(ents, drawEntities, viewOrigin)| ::
              var da := DrawList(ents, drawEntities, viewOrigin)[a];
              var db := DrawList(ents, drawEntities, viewOrigin)[b];
              && da.entity < |ents| && db.entity < |ents| && da.entity != db.entity
              && (ents[da.entity].translucent ==> ents[db.entity].translucent)
              && (ents[da.entity].translucent == ents[db.entity].translucent ==> da.entity < db.entity)
  {
    if !drawEntities {
      assert DrawList(ents, drawEntities, viewOrigin) == [];
    } else {
      var n := |ents|;
      PassSound(ents, false, n, viewOrigin);
      PassSound(ents, true, n, viewOrigin);
      var firstPass := Pass(ents, false, n, viewOrigin);
      var clear := Pass(ents, true, n, viewOrigin);
      var all := firstPass + clear;
      assert all == DrawList(ents, drawEntities, viewOrigin);
      forall a, b | 0 <= a < b < |all|
        ensures && all[a].entity < n && all[b].entity < n && all[a].entity != all[b].entity
                && (ents[all[a].entity].translucent ==> ents[all[b].entity].translucent)
                && (ents[all[a].entity].translucent == ents[all[b].entity].translucent ==> all[a].entity < all[b].entity)
      {
        if b < |firstPass| {
          assert all[a] == firstPass[a] && all[b] == firstPass[b];
        } else if a >= |firstPass| {
          assert all[a] == clear[a - |firstPass|] && all[b] == clear[b - |firstPass|];
        } else {
          assert all[a] == firstPass[a] && all[b] == clear[b - |firstPass|];
        }
      }
    }
  }

  /**
   * One brush submodel handed to the edge list: clipped against the world
   * BSP from `topnode` (`R_DrawSolidClippedSubmodelPolygons`) when the top
   * node is a node, else put whole into the leaf (`R_DrawSubmodelPolygons`).
   */
  datatype SubmodelDraw = SubmodelDraw(entity: nat, topnode: nat, clipflags: bv8, clippedToWorld: bool)

  /** Per-entity outside inputs of `R_DrawBEntitiesOnList`: the rotated box when the angles are not zero, and the box's side of every split plane. */
  datatype BoxOracle = BoxOracle(rotated: (Vec3, Vec3), sides: seq<int>)

  /**
   * An entity with no rotation is box-tested with its model's own box at its
   * origin: the rotated box it would otherwise need plays no part.
   */
  lemma UnrotatedBoxTest(e: Entity, oracle: BoxOracle, other: BoxOracle, planes: seq<Plane>, indexes: seq<seq<int>>)
    requires e.model.Some? && Unrotated(e.angles) && FrustumShape(planes, indexes)
    ensures EntityMinMaxs(e, oracle) == MinMaxs(e.model.value.mins, e.model.value.maxs, e.origin)
    ensures BBoxClipSpec(planes, indexes, EntityMinMaxs(e, oracle)) == BBoxClipSpec(planes, indexes, EntityMinMaxs(e, other))
  {
  }

  /** The box test's view of a brush entity: its model's box, rotated, moved to its origin. */
  function EntityMinMaxs(e: Entity, oracle: BoxOracle): seq<real>
    requires e.model.Some?
  {
    var box := RotatedBBox(e.model.value.mins, e.model.value.maxs, e.angles, oracle.rotated);
    MinMaxs(box.0, box.1, e.origin)
  }

  /** Whether the submodel pass looks at the entity at all: a brush model with surfaces, not a beam. */
  predicate IsDrawnBrush(e: Entity)
  {
    e.model.Some? && e.model.value.numModelSurfaces != 0 && !e.beam && e.model.value.kind == BrushModel
  }

  /** What `R_DrawBEntitiesOnList` does with entity `i`: no draw, or the draw it hands on. */
  function SubmodelFor(t: Tree, stamps: seq<int>, count: int, planes: seq<Plane>, indexes: seq<seq<int>>,
                             e: Entity, i: nat, oracle: BoxOracle): (r: Option<SubmodelDraw>)
    requires WellFormed(t) && |stamps| == Size(t) && Size(t) > 0
    requires |oracle.sides| == t.numNodes && FrustumShape(planes, indexes)
    ensures r.Some? ==> IsDrawnBrush(e) && r.value.entity == i
    ensures r.Some? ==> BBoxClipSpec(planes, indexes, EntityMinMaxs(e, oracle)) == ClipFlags(r.value.clipflags)
    ensures r.Some? ==> Topnode(t, stamps, count, oracle.sides, 0) == Some(r.value.topnode)
    ensures r.Some? ==> r.value.clippedToWorld == (r.value.topnode < t.numNodes)
    ensures (IsDrawnBrush(e) && BBoxClipSpec(planes, indexes, EntityMinMaxs(e, oracle)).ClipFlags?
             && Topnode(t, stamps, count, oracle.sides, 0).Some?) ==> r.Some?
  {
    if !IsDrawnBrush(e) then None
    else
      var clip := BBoxClipSpec(planes, indexes, EntityMinMaxs(e, oracle));
      if clip == FullyClipped then None
      else
        var top := Topnode(t, stamps, count, oracle.sides, 0);
        if top.None? then None
        else Some(SubmodelDraw(i, top.value, clip.mask, t.contents[top.value] == CONTENTS_NODE))
  }

  /** The submodel draws of the first `n` entities, in list order. */
  function SubmodelDraws(t: Tree, stamps: seq<int>, count: int, planes: seq<Plane>, indexes: seq<seq<int>>,
                               ents: seq<Entity>, oracles: seq<BoxOracle>, n: nat): seq<SubmodelDraw>
    requires WellFormed(t) && |stamps| == Size(t) && Size(t) > 0
    requires n <= |ents| == |oracles| && FrustumShape(planes, indexes)
    requires forall i | 0 <= i < |oracles| :: |oracles[i].sides| == t.numNodes
  {
    if n == 0 then []
    else
      var d := SubmodelFor(t, stamps, count, planes, indexes, ents[n - 1], n - 1, oracles[n - 1]);
      SubmodelDraws(t, stamps, count, planes, indexes, ents, oracles, n - 1) + (if d.Some? then [d.value] else [])
  }

  /**
   * The submodel pass hands on, in increasing list order, only what
   * `SubmodelFor` draws for an entity.
   */
  lemma {:induction false} SubmodelDrawsSound(t: Tree, stamps: seq<int>, count: int, planes: seq<Plane>,
                                              indexes: seq<seq<int>>, ents: seq<Entity>, oracles: seq<BoxOracle>, n: nat)
    requires WellFormed(t) && |stamps| == Size(t) && Size(t) > 0
    requires n <= |ents| == |oracles| && FrustumShape(planes, indexes)
    requires forall i | 0 <= i < |oracles| :: |oracles[i].sides| == t.numNodes
    ensures forall a | 0 <= a < |SubmodelDraws(t, stamps, count, planes, indexes, ents, oracles, n)| ::
              var d := SubmodelDraws(t, stamps, count, planes, indexes, ents, oracles, n)[a];
              d.entity < n && SubmodelFor(t, stamps, count, planes, indexes, ents[d.entity], d.entity, oracles[d.entity]) == Some(d)
    ensures forall a, b | 0 <= a < b < |SubmodelDraws(t, stamps, count, planes, indexes, ents, oracles, n)| ::
              SubmodelDraws(t, stamps, count, planes, indexes, ents, oracles, n)[a].entity
              < SubmodelDraws(t, stamps, count, planes, indexes, ents, oracles, n)[b].entity
  {
    if n > 0 {
      SubmodelDrawsSound(t, stamps, count, planes, indexes, ents, oracles, n - 1);
      var before := SubmodelDraws(t, stamps, count, planes, indexes, ents, oracles, n - 1);
      var all := SubmodelDraws(t, stamps, count, planes, indexes, ents, oracles, n);
      var d := SubmodelFor(t, stamps, count, planes, indexes, ents[n - 1], n - 1, oracles[n - 1]);
      assert all == before + (if d.Some? then [d.value] else []);
      assert forall a | 0 <= a < |before| :: all[a] == before[a];
    }
  }

  /** Every entity `SubmodelFor` draws is handed on by the submodel pass. */
  lemma {:induction false} SubmodelDrawsComplete(t: Tree, stamps: seq<int>, count: int, planes: seq<Plane>,
                                                 indexes: seq<seq<int>>, ents: seq<Entity>, oracles: seq<BoxOracle>, n: nat, j: nat)
    requires WellFormed(t) && |stamps| == Size(t) && Size(t) > 0
    requires n <= |ents| == |oracles| && FrustumShape(planes, indexes)
    requires forall i | 0 <= i < |oracles| :: |oracles[i].sides| == t.numNodes
    requires j < n && SubmodelFor(t, stamps, count, planes, indexes, ents[j], j, oracles[j]).Some?
    ensures exists a | 0 <= a < |SubmodelDraws(t, stamps, count, planes, indexes, ents, oracles, n)| ::
              SubmodelDraws(t, stamps, count, planes, indexes, ents, oracles, n)[a]
              == SubmodelFor(t, stamps, count, planes, indexes, ents[j], j, oracles[j]).value
  {
    var before := SubmodelDraws(t, stamps, count, planes, indexes, ents, oracles, n - 1);
    var all := SubmodelDraws(t, stamps, count, planes, indexes, ents, oracles, n);
    var d := SubmodelFor(t, stamps, count, planes, indexes, ents[n - 1], n - 1, oracles[n - 1]);
    assert all == before + (if d.Some? then [d.value] else []);
    if j < n - 1 {
      SubmodelDrawsComplete(t, stamps, count, planes, indexes, ents, oracles, n - 1, j);
      var a :| 0 <= a < |before| && before[a] == SubmodelFor(t, stamps, count, planes, indexes, ents[j], j, oracles[j]).value;
      assert all[a] == before[a];
    } else {
      assert all[|before|] == d.value;
    }
  }

  /** The mask `r_clipflags` holds after the draws: that of the last draw clipped to the world, if any. */
  function LastWorldClipFlags(draws: seq<SubmodelDraw>, start: bv8): bv8
  {
    if |draws| == 0 then start
    else if draws[|draws| - 1].clippedToWorld then draws[|draws| - 1].clipflags
    else LastWorldClipFlags(draws[..|draws| - 1], start)
  }

  /** The view orientation `vpn`, `vup`, `vright`. */
  datatype Orientation = Orientation(forward: Vec3, up: Vec3, right: Vec3)

  /** `view_clipplanes` with the corner indexes `pfrustum_indexes` that go with them. */
  datatype Frustum = Frustum(planes: seq<Plane>, indexes: seq<seq<int>>)

  predicate ValidFrustum(f: Frustum)
  {
    FrustumShape(f.planes, f.indexes)
  }

  /**
   * The refresh globals the entity passes read and write: `currententity`,
   * `modelorg`, `r_entorigin`, the view orientation with its saved base
   * copy (`base_vpn`, ...), the frustum and the one `R_TransformFrustum`
   * computes from the base orientation, `insubmodel` and `r_clipflags`.
   */
  class Refresh {
    var currententity: int
    var modelorg: Vec3
    var entorigin: Vec3
    var view: Orientation
    var baseView: Orientation
    var frustum: Frustum
    var baseFrustum: Frustum
    var insubmodel: bool
    var clipflags: bv8

    constructor (orientation: Orientation, f: Frustum)
      requires ValidFrustum(f)
      ensures view == orientation && baseView == orientation && frustum == f && baseFrustum == f
      ensures currententity == -1 && modelorg == Origin && entorigin == Origin && !insubmodel && clipflags == 0
    {
      currententity := -1;
      modelorg, entorigin := Origin, Origin;
      view, baseView := orientation, orientation;
      frustum, baseFrustum := f, f;
      insubmodel := false;
      clipflags := 0;
    }

    /** One pass of `R_DrawEntitiesOnList` over all entities. */
    method EntityPass(ents: seq<Entity>, translucent: bool, viewOrigin: Vec3) returns (draws: seq<Draw>, sawTranslucent: bool)
      modifies this`currententity, this`modelorg, this`entorigin
      ensures draws == Pass(ents, translucent, |ents|, viewOrigin)
      ensures sawTranslucent == AnyTranslucent(ents, |ents|)
      ensures Origins(modelorg, entorigin)
              == AfterPass(ents, translucent, |ents|, viewOrigin, Origins(old(modelorg), old(entorigin)))
      ensures currententity == if |ents| == 0 then old(currententity) else |ents| - 1
    {
      ghost var start := Origins(modelorg, entorigin);
      draws := [];
      sawTranslucent := false;
      var i := 0;
      while i < |ents|
        invariant 0 <= i <= |ents|
        invariant draws == Pass(ents, translucent, i, viewOrigin)
        invariant sawTranslucent == AnyTranslucent(ents, i)
        invariant Origins(modelorg, entorigin) == AfterPass(ents, translucent, i, viewOrigin, start)
        invariant currententity == if i == 0 then old(currententity) else i - 1
      {
        currententity := i;
        var e := ents[i];
        assert AnyTranslucent(ents, i + 1) == (AnyTranslucent(ents, i) || e.translucent) by {
          if e.translucent {
            assert ents[i].translucent;
          }
        }
        if e.translucent {
          sawTranslucent := true;
        }
        if e.translucent == translucent {
          if e.beam {
            modelorg := Neg(viewOrigin);
            entorigin := Origin;
            draws := draws + [Draw(Beam, i, modelorg, entorigin)];
          } else if e.model.Some? {
            entorigin := e.origin;
            modelorg := Sub(viewOrigin, entorigin);
            match e.model.value.kind {
              case SpriteModel => draws := draws + [Draw(Sprite, i, modelorg, entorigin)];
              case AliasModel => draws := draws + [Draw(Alias, i, modelorg, entorigin)];
              case _ =>
            }
          }
        }
        i := i + 1;
      }
    }

    /** `R_DrawEntitiesOnList`: the opaque pass, then the translucent pass if the first one met a translucent entity. */
    method DrawEntitiesOnList(ents: seq<Entity>, drawEntities: bool, viewOrigin: Vec3) returns (draws: seq<Draw>)
      modifies this`currententity, this`modelorg, this`entorigin
      ensures draws == DrawList(ents, drawEntities, viewOrigin)
      ensures !drawEntities ==>
                currententity == old(currententity) && modelorg == old(modelorg) && entorigin == old(entorigin)
      ensures drawEntities ==>
                Origins(modelorg, entorigin)
                == AfterPass(ents, true, |ents|, viewOrigin,
                             AfterPass(ents, false, |ents|, viewOrigin, Origins(old(modelorg), old(entorigin))))
      ensures drawEntities ==> currententity == if |ents| == 0 then old(currententity) else |ents| - 1
    {
      if !drawEntities {
        return [];
      }
      var anyTranslucent;
      draws, anyTranslucent := EntityPass(ents, false, viewOrigin);
      if !anyTranslucent {
        NoTranslucentPass(ents, |ents|, viewOrigin, Origins(modelorg, entorigin));
        return;
      }
      var translucentDraws, _ := EntityPass(ents, true, viewOrigin);
      draws := draws + translucentDraws;
    }

    /** `R_RotateBmodel` is not part of this model: it leaves some `modelorg`, orientation and frustum behind. */
    method RotateBmodel()
      modifies this`modelorg, this`view, this`frustum
    {
      modelorg := *;
      view := *;
      frustum := *;
    }

    /**
     * The body of the submodel loop for entity `i`: the filters, then the
     * draw, then the orientation, frustum and `modelorg` put back.
     */
    method DrawSubmodel(w: World, e: Entity, i: nat, oracle: BoxOracle, viewOrigin: Vec3) returns (d: Option<SubmodelDraw>)
      requires WellFormed(w.tree) && w.visframe.Length == Size(w.tree) && Size(w.tree) > 0
      requires |oracle.sides| == w.tree.numNodes && forall k | 0 <= k < |oracle.sides| :: 1 <= oracle.sides[k] <= 3
      requires ValidFrustum(baseFrustum) && frustum == baseFrustum
      modifies this`entorigin, this`modelorg, this`view, this`frustum, this`clipflags
      ensures d == old(SubmodelFor(w.tree, w.visframe[..], w.visframecount, baseFrustum.planes, baseFrustum.indexes, e, i, oracle))
      ensures modelorg == old(modelorg) && frustum == baseFrustum
      ensures d.None? ==> entorigin == old(entorigin) && clipflags == old(clipflags) && view == old(view)
      ensures d.Some? ==> entorigin == e.origin && view == baseView
      ensures d.Some? ==> clipflags == if d.value.clippedToWorld then d.value.clipflags else old(clipflags)
    {
      ghost var spec := SubmodelFor(w.tree, w.visframe[..], w.visframecount, baseFrustum.planes, baseFrustum.indexes, e, i, oracle);
      if !IsDrawnBrush(e) {
        return None;
      }
      var box := RotatedBBox(e.model.value.mins, e.model.value.maxs, e.angles, oracle.rotated);
      var minmaxs := MinMaxs(box.0, box.1, e.origin);
      assert minmaxs == EntityMinMaxs(e, oracle);
      var clip := BmodelCheckBBox(frustum.planes, frustum.indexes, minmaxs);
      if clip == FullyClipped {
        return None;
      }
      var topnode := w.FindTopnode(oracle.sides);
      if topnode.None? {
        return None;
      }
      var clipped := w.tree.contents[topnode.value] == CONTENTS_NODE;
      d := Some(SubmodelDraw(i, topnode.value, clip.mask, clipped));
      assert d == spec;
      var oldorigin := modelorg;
      entorigin := e.origin;
      modelorg := Sub(viewOrigin, entorigin);
      RotateBmodel();
      if clipped {
        clipflags := clip.mask;
      }
      // put back the world orientation and frustum and the saved origin
      view := baseView;
      modelorg := oldorigin;
      frustum := baseFrustum;
    }

    /**
     * `R_DrawBEntitiesOnList`: every brush submodel that survives the
     * filters is handed on; the view orientation, the frustum and
     * `modelorg` are put back after each one.
     */
    method DrawBEntitiesOnList(w: World, ents: seq<Entity>, oracles: seq<BoxOracle>, drawEntities: bool, viewOrigin: Vec3)
      returns (draws: seq<SubmodelDraw>)
      requires WellFormed(w.tree) && w.visframe.Length == Size(w.tree) && Size(w.tree) > 0
      requires |ents| == |oracles|
      requires forall i | 0 <= i < |oracles| :: |oracles[i].sides| == w.tree.numNodes
      requires forall i, k | 0 <= i < |oracles| && 0 <= k < |oracles[i].sides| :: 1 <= oracles[i].sides[k] <= 3
      requires ValidFrustum(baseFrustum) && frustum == baseFrustum
      modifies this`currententity, this`entorigin, this`modelorg, this`view, this`frustum, this`clipflags, this`insubmodel
      ensures draws == if drawEntities
                       then old(SubmodelDraws(w.tree, w.visframe[..], w.visframecount, baseFrustum.planes, baseFrustum.indexes,
                                              ents, oracles, |ents|))
                       else []
      ensures modelorg == old(modelorg) && frustum == baseFrustum
      ensures insubmodel == if drawEntities then false else old(insubmodel)
      ensures view == if |draws| > 0 then baseView else old(view)
      ensures forall a | 0 <= a < |draws| :: draws[a].entity < |ents|
      ensures entorigin == if |draws| == 0 then old(entorigin) else ents[draws[|draws| - 1].entity].origin
      ensures clipflags == LastWorldClipFlags(draws, old(clipflags))
      ensures currententity == if drawEntities && |ents| > 0 then |ents| - 1 else old(currententity)
    {
      ghost var stamps, count := w.visframe[..], w.visframecount;
      draws := [];
      if !drawEntities {
        return;
      }
      insubmodel := true;
      var i := 0;
      while i < |ents|
        invariant 0 <= i <= |ents|
        invariant draws == SubmodelDraws(w.tree, stamps, count, baseFrustum.planes, baseFrustum.indexes, ents, oracles, i)
        invariant forall a | 0 <= a < |draws| :: draws[a].entity < i
        invariant modelorg == old(modelorg) && insubmodel && frustum == baseFrustum
        invariant view == if |draws| > 0 then baseView else old(view)
        invariant entorigin == if |draws| == 0 then old(entorigin) else ents[draws[|draws| - 1].entity].origin
        invariant clipflags == LastWorldClipFlags(draws, old(clipflags))
        invariant currententity == if i == 0 then old(currententity) else i - 1
      {
        currententity := i;
        var d := DrawSubmodel(w, ents[i], i, oracles[i], viewOrigin);
        if d.Some? {
          ghost var before := draws;
          draws := draws + [d.value];
          assert draws[..|draws| - 1] == before;
        }
        i := i + 1;
      }
      insubmodel := false;
    }
  }
}
