/**
 * The per-frame geometry pools of the edge/surface rasterizer (surfaces,
 * edges and alias-model vertices) and the rule by which their capacities grow
 * after a frame that ran out of room.
 */
module MapBuffers {
  import opened Common

  /** Built-in minimum capacities. */
  const NUMSTACKSURFACES: int := 1024
  const NUMSTACKEDGES: int := 2048
  const MAXALIASVERTS: int := 2048

  /** Surface index 0 is a dummy that means "no surface"; it has no storage behind it. */
  const DUMMY_SURFACE: int := 0
  /** Surface 1 is the background. */
  const BACKGROUND_SURFACE: int := 1
  /** The first surface that world and submodel polygons are given. */
  const FIRST_WORLD_SURFACE: int := 2

  /** A pool is (re)allocated when it was never sized or the last frame overflowed it. */
  predicate NeedsRealloc(capacity: int, overflow: int)
  {
    capacity == 0 || overflow != 0
  }

  /** The capacity after growth: doubled on overflow, then raised to the built-in floor. */
  function Grow(capacity: int, overflow: int, floor: int): (r: int)
    ensures r >= floor
    ensures overflow != 0 ==> r >= 2 * capacity
    ensures capacity >= 0 ==> r >= capacity
    ensures r == floor || r == (if overflow != 0 then 2 * capacity else capacity)
  {
    var doubled := if overflow != 0 then 2 * capacity else capacity;
    if doubled < floor then floor else doubled
  }

  /** Growth followed by the configured floor override (`sw_maxsurfs`, `sw_maxedges`). */
  function GrowWithOverride(capacity: int, overflow: int, floor: int, override: int): (r: int)
    ensures r >= floor && r >= override
    ensures overflow != 0 ==> r >= 2 * capacity
    ensures capacity >= 0 ==> r >= capacity
    ensures r == floor || r == override || r == (if overflow != 0 then 2 * capacity else capacity)
  {
    var grown := Grow(capacity, overflow, floor);
    if grown < override then override else grown
  }

  /** A grown pool with a positive floor is not regrown by the next call unless that frame overflows. */
  lemma GrownPoolIsStable(capacity: int, overflow: int, floor: int, override: int)
    requires floor > 0
    ensures !NeedsRealloc(GrowWithOverride(capacity, overflow, floor, override), 0)
    ensures !NeedsRealloc(Grow(capacity, overflow, floor), 0)
  {
  }

  /** The surface capacity after `frames` reallocations that each followed an overflowing frame. */
  function GrowOverflowing(capacity: int, frames: nat, override: int): int
  {
    if frames == 0 then capacity
    else GrowWithOverride(GrowOverflowing(capacity, frames - 1, override), 1, NUMSTACKSURFACES, override)
  }

  /** Repeated overflow at least doubles the surface capacity each time, from the built-in floor up. */
  lemma {:induction false} OverflowDoubles(capacity: int, frames: nat, override: int)
    requires capacity >= 0 && frames >= 1
    ensures GrowOverflowing(capacity, frames, override) >= Pow2(frames - 1) * NUMSTACKSURFACES
    ensures GrowOverflowing(capacity, frames, override) >= Pow2(frames - 1) * capacity
  {
    if frames > 1 {
      OverflowDoubles(capacity, frames - 1, override);
      var before := GrowOverflowing(capacity, frames - 1, override);
      assert before >= 0;
      assert Pow2(frames - 1) * NUMSTACKSURFACES == 2 * (Pow2(frames - 2) * NUMSTACKSURFACES);
      assert Pow2(frames - 1) * capacity == 2 * (Pow2(frames - 2) * capacity);
    }
  }

  /** One pool: its capacity counter, and whether its storage is allocated (non-NULL). */
  datatype Pool = Pool(capacity: int, present: bool)

  /**
   * The pool state of the renderer: the three capacity counters
   * (`r_cnumsurfs`, `r_numallocatededges`, `r_numallocatedverts`), the
   * overflow counts of the last frame (`r_outofsurfaces`, `r_outofedges`,
   * `r_outofverts`), the storage buffers and the surface and edge cursors.
   * Cursors and limits are indices: surfaces into the view `surfaces`,
   * which starts one slot before the allocation; edges into `r_edges`.
   */
  class PoolState {
    var surfaces: Pool
    var edges: Pool
    var verts: Pool
    var surfaceOverflow: int
    var edgeOverflow: int
    var vertOverflow: int
    /** `surface_p` and `surf_max` */
    var surfaceCursor: int
    var surfaceLimit: int
    /** `edge_p` and `edge_max` */
    var edgeCursor: int
    var edgeLimit: int
    /** `finalverts_max` */
    var vertLimit: int

    ghost predicate Valid()
      reads this
    {
      && surfaces.capacity >= 0 && edges.capacity >= 0 && verts.capacity >= 0
      && (surfaces.present ==>
            && surfaces.capacity >= NUMSTACKSURFACES
            && surfaceLimit == surfaces.capacity + 1
            && BACKGROUND_SURFACE <= surfaceCursor <= surfaceLimit)
      && (edges.present ==>
            && edges.capacity >= NUMSTACKEDGES
            && edgeLimit == edges.capacity
            && 0 <= edgeCursor <= edgeLimit)
      && (verts.present ==> verts.capacity >= MAXALIASVERTS && vertLimit == verts.capacity)
    }

    /** The state `SWimp_CreateRender` sets before its first reallocation: nothing counted, nothing allocated. */
    constructor ()
      ensures Valid()
      ensures surfaces == Pool(0, false) && edges == Pool(0, false) && verts == Pool(0, false)
      ensures surfaceOverflow == 0 && edgeOverflow == 0 && vertOverflow == 0
    {
      surfaces, edges, verts := Pool(0, false), Pool(0, false), Pool(0, false);
      surfaceOverflow, edgeOverflow, vertOverflow := 0, 0, 0;
      surfaceCursor, surfaceLimit, edgeCursor, edgeLimit, vertLimit := 0, 0, 0, 0, 0;
    }

    /** `malloc`: may succeed or fail; the model does not decide which. */
    method Malloc(count: int) returns (ok: bool)
    {
      ok := *;
    }

    /** The surface branch: regrow, and on success point the cursor at the background surface. */
    method ReallocSurfaces(maxSurfs: int) returns (ok: bool)
      modifies this`surfaces, this`surfaceCursor, this`surfaceLimit
      ensures surfaces == Pool(GrowWithOverride(old(surfaces.capacity), surfaceOverflow, NUMSTACKSURFACES, maxSurfs), ok)
      ensures ok ==> surfaceCursor == BACKGROUND_SURFACE && surfaceLimit == surfaces.capacity + 1
      ensures !ok ==> surfaceCursor == old(surfaceCursor) && surfaceLimit == old(surfaceLimit)
    {
      var n := GrowWithOverride(surfaces.capacity, surfaceOverflow, NUMSTACKSURFACES, maxSurfs);
      ok := Malloc(n);
      surfaces := Pool(n, ok);
      if !ok {
        return;
      }
      // the view starts one slot before the allocation: index 0 is the dummy
      surfaceLimit := n + 1;
      surfaceCursor := BACKGROUND_SURFACE;
    }

    /** The edge branch: regrow, and on success rewind the cursor. */
    method ReallocEdges(maxEdges: int) returns (ok: bool)
      modifies this`edges, this`edgeCursor, this`edgeLimit
      ensures edges == Pool(GrowWithOverride(old(edges.capacity), edgeOverflow, NUMSTACKEDGES, maxEdges), ok)
      ensures ok ==> edgeCursor == 0 && edgeLimit == edges.capacity
      ensures !ok ==> edgeCursor == old(edgeCursor) && edgeLimit == old(edgeLimit)
    {
      var n := GrowWithOverride(edges.capacity, edgeOverflow, NUMSTACKEDGES, maxEdges);
      ok := Malloc(n);
      edges := Pool(n, ok);
      if !ok {
        return;
      }
      edgeLimit := n;
      edgeCursor := 0;
    }

    /** The vertex branch: regrow, and on success set the limit. */
    method ReallocVerts() returns (ok: bool)
      modifies this`verts, this`vertLimit
      ensures verts == Pool(Grow(old(verts.capacity), vertOverflow, MAXALIASVERTS), ok)
      ensures ok ==> vertLimit == verts.capacity
      ensures !ok ==> vertLimit == old(vertLimit)
    {
      var n := Grow(verts.capacity, vertOverflow, MAXALIASVERTS);
      ok := Malloc(n);
      verts := Pool(n, ok);
      if !ok {
        return;
      }
      vertLimit := n;
    }

    /**
     * `R_ReallocateMapBuffers`. Each pool in turn (surfaces, edges, verts) is
     * regrown when `NeedsRealloc`; a failed allocation returns at once, leaving
     * the pools after it untouched.
     */
    method Reallocate(maxSurfs: int, maxEdges: int)
      requires Valid()
      modifies this`surfaces, this`surfaceCursor, this`surfaceLimit, this`edges, this`edgeCursor, this`edgeLimit
      modifies this`verts, this`vertLimit
      ensures Valid()
      // capacities never shrink
      ensures surfaces.capacity >= old(surfaces.capacity) && edges.capacity >= old(edges.capacity)
      ensures verts.capacity >= old(verts.capacity)
      // surfaces
      ensures !NeedsRealloc(old(surfaces.capacity), surfaceOverflow) ==>
                surfaces == old(surfaces) && surfaceCursor == old(surfaceCursor) && surfaceLimit == old(surfaceLimit)
      ensures NeedsRealloc(old(surfaces.capacity), surfaceOverflow) ==>
                surfaces.capacity == GrowWithOverride(old(surfaces.capacity), surfaceOverflow, NUMSTACKSURFACES, maxSurfs)
      ensures NeedsRealloc(old(surfaces.capacity), surfaceOverflow) && surfaces.present ==>
                surfaceCursor == BACKGROUND_SURFACE && surfaceLimit == surfaces.capacity + 1
      ensures NeedsRealloc(old(surfaces.capacity), surfaceOverflow) && !surfaces.present ==>
                surfaceCursor == old(surfaceCursor) && surfaceLimit == old(surfaceLimit)
                && edges == old(edges) && edgeCursor == old(edgeCursor) && edgeLimit == old(edgeLimit)
                && verts == old(verts) && vertLimit == old(vertLimit)
      // edges, reached when the surfaces did not fail
      ensures !NeedsRealloc(old(edges.capacity), edgeOverflow) ==>
                edges == old(edges) && edgeCursor == old(edgeCursor) && edgeLimit == old(edgeLimit)
      ensures NeedsRealloc(old(edges.capacity), edgeOverflow) && (!NeedsRealloc(old(surfaces.capacity), surfaceOverflow) || surfaces.present) ==>
                edges.capacity == GrowWithOverride(old(edges.capacity), edgeOverflow, NUMSTACKEDGES, maxEdges)
      ensures NeedsRealloc(old(edges.capacity), edgeOverflow) && (!NeedsRealloc(old(surfaces.capacity), surfaceOverflow) || surfaces.present)
              && edges.present ==>
                edgeCursor == 0 && edgeLimit == edges.capacity
      ensures NeedsRealloc(old(edges.capacity), edgeOverflow) && !edges.present ==>
                edgeCursor == old(edgeCursor) && edgeLimit == old(edgeLimit) && verts == old(verts) && vertLimit == old(vertLimit)
      // verts, reached when neither surfaces nor edges failed
      ensures !NeedsRealloc(old(verts.capacity), vertOverflow) ==> verts == old(verts) && vertLimit == old(vertLimit)
      ensures NeedsRealloc(old(verts.capacity), vertOverflow)
              && (!NeedsRealloc(old(surfaces.capacity), surfaceOverflow) || surfaces.present)
              && (!NeedsRealloc(old(edges.capacity), edgeOverflow) || edges.present) ==>
                verts.capacity == Grow(old(verts.capacity), vertOverflow, MAXALIASVERTS)
                && (verts.present ==> vertLimit == verts.capacity)
      // the pools are reached in order: a later pool only changes when the earlier ones are present
      ensures edges != old(edges) ==> !NeedsRealloc(old(surfaces.capacity), surfaceOverflow) || surfaces.present
      ensures verts != old(verts) ==>
                (!NeedsRealloc(old(surfaces.capacity), surfaceOverflow) || surfaces.present)
                && (!NeedsRealloc(old(edges.capacity), edgeOverflow) || edges.present)
    {
      var ok: bool;
      if NeedsRealloc(surfaces.capacity, surfaceOverflow) {
        ok := ReallocSurfaces(maxSurfs);
        if !ok {
          return;
        }
      }
      if NeedsRealloc(edges.capacity, edgeOverflow) {
        ok := ReallocEdges(maxEdges);
        if !ok {
          return;
        }
      }
      if NeedsRealloc(verts.capacity, vertOverflow) {
        ok := ReallocVerts();
        if !ok {
          return;
        }
      }
    }

    /**
     * The cursor reset of `R_EdgeDrawing`: nothing when the frame has no world
     * model; otherwise edges restart at the pool's start and surfaces at the
     * first slot after the dummy and the background.
     */
    method BeginEdgeDrawing(noWorldModel: bool)
      requires Valid()
      modifies this`surfaceCursor, this`edgeCursor
      ensures Valid()
      ensures noWorldModel ==> surfaceCursor == old(surfaceCursor) && edgeCursor == old(edgeCursor)
      ensures !noWorldModel ==> surfaceCursor == FIRST_WORLD_SURFACE && edgeCursor == 0
      ensures !noWorldModel && surfaces.present ==> DUMMY_SURFACE < BACKGROUND_SURFACE < surfaceCursor <= surfaceLimit
    {
      if noWorldModel {
        return;
      }
      edgeCursor := 0;
      surfaceCursor := FIRST_WORLD_SURFACE;
    }
  }

  /** From the initial state, one successful reallocation sizes every pool to its floor or override. */
  method InitialReallocation(maxSurfs: int, maxEdges: int) returns (p: PoolState)
    ensures p.Valid()
    ensures p.surfaces.capacity == (if maxSurfs > NUMSTACKSURFACES then maxSurfs else NUMSTACKSURFACES)
    ensures p.surfaces.present ==> p.edges.capacity == (if maxEdges > NUMSTACKEDGES then maxEdges else NUMSTACKEDGES)
    ensures p.surfaces.present && p.edges.present ==> p.verts.capacity == MAXALIASVERTS
    ensures p.surfaces.present ==> p.surfaces.capacity == (if maxSurfs > NUMSTACKSURFACES then maxSurfs else NUMSTACKSURFACES)
    ensures p.edges.present ==> p.edges.capacity == (if maxEdges > NUMSTACKEDGES then maxEdges else NUMSTACKEDGES)
    ensures p.verts.present ==> p.verts.capacity == MAXALIASVERTS
  {
    p := new PoolState();
    p.Reallocate(maxSurfs, maxEdges);
  }
}
