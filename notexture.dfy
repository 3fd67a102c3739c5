/**
 * The default "no texture" image: a 16x16 checkerboard with three smaller
 * mip levels, written into one 1024-byte buffer.
 */
module NoTexture {
  import opened Common

  const BUFFER_SIZE: nat := 1024
  const MIP_LEVELS: nat := 4
  const DARK: byte := 0
  const LIGHT: byte := 0xff

  /** Side of mip level `m`: `16 >> m`. */
  function Side(m: nat): nat
    requires m < MIP_LEVELS
  {
    if m == 0 then 16 else if m == 1 then 8 else if m == 2 then 4 else 2
  }

  /** Half the side of mip level `m`: `8 >> m`. */
  function Half(m: nat): nat
    requires m < MIP_LEVELS
  {
    Side(m) / 2
  }

  /** Offset of row `y` inside level `m`: the rows before it, one after another. */
  function RowStart(m: nat, y: nat): nat
    requires m < MIP_LEVELS
  {
    if y == 0 then 0 else RowStart(m, y - 1) + Side(m)
  }

  /** Byte offset of mip level `m` in the buffer (`pixels[m]`); `MipOffset(4)` is where the image ends. */
  function MipOffset(m: nat): nat
    requires m <= MIP_LEVELS
  {
    if m == 0 then 0 else if m == 1 then 256 else if m == 2 then 320 else if m == 3 then 336 else 340
  }

  /** Where the cursor stands when pixel (x, y) of level `m` is written. */
  function MipIndex(m: nat, x: nat, y: nat): nat
    requires m < MIP_LEVELS
  {
    MipOffset(m) + RowStart(m, y) + x
  }

  /** The checkerboard colour of pixel (x, y) at level `m`. */
  function CheckerPixel(m: nat, x: nat, y: nat): byte
    requires m < MIP_LEVELS
  {
    if (y < Half(m)) != (x < Half(m)) then DARK else LIGHT
  }

  /** Whether `buf` holds the checkerboard at every pixel of the first `n` rows of level `m`. */
  ghost predicate RowsDrawn(buf: seq<byte>, m: nat, n: nat)
    requires m < MIP_LEVELS
  {
    forall x, y | 0 <= x < Side(m) && 0 <= y < n ::
      MipIndex(m, x, y) < |buf| && buf[MipIndex(m, x, y)] == CheckerPixel(m, x, y)
  }

  /** Whether `buf` holds the checkerboard at every pixel of level `m`. */
  ghost predicate LevelDrawn(buf: seq<byte>, m: nat)
    requires m < MIP_LEVELS
  {
    RowsDrawn(buf, m, Side(m))
  }

  /** Row `y` of level `m` starts `y` full rows in. */
  lemma {:induction false} RowStartIsProduct(m: nat, y: nat)
    requires m < MIP_LEVELS
    ensures RowStart(m, y) == y * Side(m)
  {
    if y > 0 {
      RowStartIsProduct(m, y - 1);
    }
  }

  lemma {:induction false} RowStartMonotone(m: nat, y: nat, n: nat)
    requires m < MIP_LEVELS && y <= n
    ensures RowStart(m, y) <= RowStart(m, n)
  {
    if y < n {
      RowStartMonotone(m, y, n - 1);
    }
  }

  /**
   * Each level starts where the one before it ends, after `side * side`
   * bytes (the 16*16, 8*8, 4*4 of the `pixels` offsets), and the last one ends
   * inside the buffer.
   */
  lemma MipLayout(m: nat)
    requires m < MIP_LEVELS
    ensures MipOffset(m + 1) == MipOffset(m) + RowStart(m, Side(m)) == MipOffset(m) + Side(m) * Side(m)
    ensures MipOffset(MIP_LEVELS) <= BUFFER_SIZE
  {
    RowStartIsProduct(m, Side(m));
  }

  /** Inside a level the pixels are stored row-major: pixel (x, y) is `y * side + x` bytes in. */
  lemma MipIndexIsRowMajor(m: nat, x: nat, y: nat)
    requires m < MIP_LEVELS
    ensures MipIndex(m, x, y) == MipOffset(m) + y * Side(m) + x
  {
    RowStartIsProduct(m, y);
  }

  /** Every pixel of level `m` lies inside that level's bytes. */
  lemma MipIndexInLevel(m: nat, x: nat, y: nat)
    requires m < MIP_LEVELS && x < Side(m) && y < Side(m)
    ensures MipOffset(m) <= MipIndex(m, x, y) < MipOffset(m + 1)
  {
    RowStartMonotone(m, y + 1, Side(m));
    MipLayout(m);
  }

  /** No two pixels share a byte, so no write of the fill overwrites another. */
  lemma MipIndexInjective(m: nat, x: nat, y: nat, m': nat, x': nat, y': nat)
    requires m < MIP_LEVELS && x < Side(m) && y < Side(m)
    requires m' < MIP_LEVELS && x' < Side(m') && y' < Side(m')
    requires MipIndex(m, x, y) == MipIndex(m', x', y')
    ensures m == m' && x == x' && y == y'
  {
    MipIndexInLevel(m, x, y);
    MipIndexInLevel(m', x', y');
    if y < y' {
      RowStartMonotone(m, y + 1, y');
    } else if y' < y {
      RowStartMonotone(m, y' + 1, y);
    }
  }

  /** The rows of a level cover its bytes: every offset below `n` rows falls in one of those rows. */
  lemma {:induction false} RowsCover(m: nat, n: nat, r: nat)
    requires m < MIP_LEVELS && r < RowStart(m, n)
    ensures exists y | 0 <= y < n :: RowStart(m, y) <= r < RowStart(m, y) + Side(m)
  {
    if r < RowStart(m, n - 1) {
      RowsCover(m, n - 1, r);
      var y :| 0 <= y < n - 1 && RowStart(m, y) <= r < RowStart(m, y) + Side(m);
      assert 0 <= y < n;
    } else {
      assert RowStart(m, n - 1) <= r < RowStart(m, n - 1) + Side(m);
    }
  }

  /** The four levels tile the first 340 bytes: each one is the position of some pixel. */
  lemma MipsCoverImage(k: nat)
    requires k < MipOffset(MIP_LEVELS)
    ensures exists m, x, y | 0 <= m < MIP_LEVELS && 0 <= x < Side(m) && 0 <= y < Side(m) :: MipIndex(m, x, y) == k
  {
    var m := if k < 256 then 0 else if k < 320 then 1 else if k < 336 then 2 else 3;
    MipLayout(m);
    RowsCover(m, Side(m), k - MipOffset(m));
    var y :| 0 <= y < Side(m) && RowStart(m, y) <= k - MipOffset(m) < RowStart(m, y) + Side(m);
    var x := k - MipOffset(m) - RowStart(m, y);
    assert MipIndex(m, x, y) == k;
  }

  /** Writing row `n` of level `m` and nothing before it extends the drawn rows by one. */
  lemma RowsDrawnStep(before: seq<byte>, after: seq<byte>, m: nat, n: nat)
    requires m < MIP_LEVELS && n < Side(m) && |after| == |before|
    requires RowsDrawn(before, m, n)
    requires forall x | 0 <= x < Side(m) :: MipIndex(m, x, n) < |after| && after[MipIndex(m, x, n)] == CheckerPixel(m, x, n)
    requires forall k | 0 <= k < MipIndex(m, 0, n) :: after[k] == before[k]
    ensures RowsDrawn(after, m, n + 1)
  {
    forall x, y | 0 <= x < Side(m) && 0 <= y < n
      ensures MipIndex(m, x, y) < MipIndex(m, 0, n)
    {
      RowStartMonotone(m, y + 1, n);
    }
  }

  /** Writing only at or above level `m`'s offset keeps the levels below it drawn. */
  lemma LevelsKept(before: seq<byte>, after: seq<byte>, m: nat)
    requires m < MIP_LEVELS && |after| == |before|
    requires forall m' | 0 <= m' < m :: LevelDrawn(before, m')
    requires forall k | 0 <= k < MipOffset(m) && k < |before| :: after[k] == before[k]
    ensures forall m' | 0 <= m' < m :: LevelDrawn(after, m')
  {
    forall m' | 0 <= m' < m
      ensures LevelDrawn(after, m')
    {
      assert LevelDrawn(before, m');
      forall x, y | 0 <= x < Side(m') && 0 <= y < Side(m')
        ensures MipIndex(m', x, y) < MipOffset(m)
      {
        MipIndexInLevel(m', x, y);
      }
    }
  }

  /** A pixel is dark exactly when it lies in the top-right or bottom-left quadrant of its level. */
  lemma DarkQuadrants(m: nat, x: nat, y: nat)
    requires m < MIP_LEVELS && x < Side(m) && y < Side(m)
    ensures CheckerPixel(m, x, y) == DARK
            <==> (x >= Side(m) / 2 && y < Side(m) / 2) || (x < Side(m) / 2 && y >= Side(m) / 2)
  {
  }

  /** Each level is the previous one sampled at every other pixel. */
  lemma MipsAreDownsampled(m: nat, x: nat, y: nat)
    requires m + 1 < MIP_LEVELS
    ensures CheckerPixel(m + 1, x, y) == CheckerPixel(m, 2 * x, 2 * y)
  {
  }

  /** Writes row `y` of level `m` from the cursor `dest` on, one byte at a time. */
  method FillRow(buf: array<byte>, m: nat, y: nat, dest: nat)
    requires m < MIP_LEVELS && y < Side(m) && dest == MipIndex(m, 0, y) && dest + Side(m) <= buf.Length
    modifies buf
    ensures forall x | 0 <= x < Side(m) :: buf[MipIndex(m, x, y)] == CheckerPixel(m, x, y)
    ensures forall k | 0 <= k < buf.Length && !(dest <= k < dest + Side(m)) :: buf[k] == old(buf[k])
  {
    var side := Side(m);
    var x := 0;
    while x < side
      invariant 0 <= x <= side
      invariant forall x' | 0 <= x' < x :: buf[MipIndex(m, x', y)] == CheckerPixel(m, x', y)
      invariant forall k | 0 <= k < buf.Length && !(dest <= k < dest + x) :: buf[k] == old(buf[k])
    {
      if (y < Half(m)) != (x < Half(m)) {
        buf[dest + x] := DARK;
      } else {
        buf[dest + x] := LIGHT;
      }
      assert MipIndex(m, x, y) == dest + x;
      x := x + 1;
    }
  }

  /** Writes level `m` row by row, the cursor starting at the level's offset. */
  method FillLevel(buf: array<byte>, m: nat)
    requires m < MIP_LEVELS && MipOffset(m + 1) <= buf.Length
    modifies buf
    ensures LevelDrawn(buf[..], m)
    ensures forall k | 0 <= k < buf.Length && !(MipOffset(m) <= k < MipOffset(m + 1)) :: buf[k] == old(buf[k])
  {
    var side := Side(m);
    var dest := MipOffset(m);
    MipLayout(m);
    var y := 0;
    while y < side
      invariant 0 <= y <= side
      invariant dest == MipOffset(m) + RowStart(m, y) <= MipOffset(m + 1)
      invariant RowsDrawn(buf[..], m, y)
      invariant forall k | 0 <= k < buf.Length && !(MipOffset(m) <= k < dest) :: buf[k] == old(buf[k])
    {
      RowStartMonotone(m, y + 1, side);
      ghost var before := buf[..];
      FillRow(buf, m, y, dest);
      RowsDrawnStep(before, buf[..], m, y);
      dest := dest + side;
      y := y + 1;
    }
  }

  /** `r_notexture_mip` together with the buffer behind its pixels. */
  class NoTextureImage {
    var width: int
    var height: int
    /** `pixels[0..3]`, as offsets into `buffer`. */
    var pixels: seq<nat>
    const buffer: array<byte>

    constructor ()
      ensures buffer.Length == BUFFER_SIZE && fresh(buffer)
    {
      buffer := new byte[BUFFER_SIZE](_ => 0);
    }

    /** `R_InitTextures`: sets the size and level offsets and draws the checkerboard into every level. */
    method InitTextures()
      requires buffer.Length == BUFFER_SIZE
      modifies this, buffer
      ensures width == 16 && height == 16
      ensures |pixels| == MIP_LEVELS
      ensures forall m | 0 <= m < MIP_LEVELS :: pixels[m] == MipOffset(m)
      ensures forall m | 0 <= m < MIP_LEVELS :: LevelDrawn(buffer[..], m)
      ensures forall k | MipOffset(MIP_LEVELS) <= k < BUFFER_SIZE :: buffer[k] == old(buffer[k])
    {
      width, height := 16, 16;
      pixels := [0];
      pixels := pixels + [pixels[0] + 16 * 16];
      pixels := pixels + [pixels[1] + 8 * 8];
      pixels := pixels + [pixels[2] + 4 * 4];
      var m := 0;
      while m < MIP_LEVELS
        modifies buffer
        invariant 0 <= m <= MIP_LEVELS
        invariant forall m' | 0 <= m' < m :: LevelDrawn(buffer[..], m')
        invariant forall k | MipOffset(m) <= k < BUFFER_SIZE :: buffer[k] == old(buffer[k])
      {
        ghost var before := buffer[..];
        FillLevel(buffer, m);
        LevelsKept(before, buffer[..], m);
        m := m + 1;
      }
    }
  }
}
