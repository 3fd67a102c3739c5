/**
 * The software renderer's 8-bit palette pipeline: the base table
 * `d_8to24table` read from the colormap image, the screen blend, the gamma
 * table applied on the way to `sw_state.currentpalette`, and the two
 * readers of the 8-bit frame buffer `vid_buffer` that go through the
 * current palette: the frame copy to a 32-bit texture and the RGB24
 * screenshot. Palettes are 256 entries of four bytes, red first.
 */
module Palette {
  import opened Common

  const COLORS: nat := 256
  const PALETTE_BYTES: nat := 1024
  const RGB_BYTES: nat := 768
  /** `vid_alphamap` starts 64 rows of 256 into the colormap. */
  const ALPHAMAP_OFFSET: nat := 64 * 256

  /** Byte `k` of entry `i` in a four-byte-per-colour palette. */
  function Entry(i: int, k: int): int
  {
    4 * i + k
  }

  /** Byte `k` of entry `i` in a three-byte-per-colour palette or image. */
  function Rgb(i: int, k: int): int
  {
    3 * i + k
  }

  /** The start of row `y` in a buffer whose rows are `w` apart, counted row by row. */
  function RowOffset(y: nat, w: nat): nat
  {
    if y == 0 then 0 else RowOffset(y - 1, w) + w
  }

  /** Position of pixel (x, y) in a buffer whose rows are `w` apart. */
  function Index(y: nat, w: nat, x: int): int
  {
    RowOffset(y, w) + x
  }

  /** Row `y` starts at `y * w`. */
  lemma {:induction false} RowOffsetIsProduct(y: nat, w: nat)
    ensures RowOffset(y, w) == y * w
  {
    if y > 0 {
      RowOffsetIsProduct(y - 1, w);
      assert y * w == (y - 1) * w + w;
    }
  }

  lemma EntryDivMod(i: nat, k: nat)
    requires k < 4
    ensures Entry(i, k) / 4 == i && Entry(i, k) % 4 == k
  {
  }

  lemma RgbDivMod(i: nat, k: nat)
    requires k < 3
    ensures Rgb(i, k) / 3 == i && Rgb(i, k) % 3 == k
  {
  }

  /** A pixel of a `w`-wide, `h`-high image lies inside its `w * h` pixels. */
  lemma IndexInImage(y: nat, x: nat, w: nat, h: nat)
    requires y < h && x < w
    ensures Index(y, w, x) < w * h
  {
    assert Index(y, w, x) < Index(y + 1, w, 0);
    RowMonotone(y + 1, h, w, 0);
    RowOffsetIsProduct(h, w);
  }

  /** Every one of the `w * h` positions is the pixel of its row and column. */
  lemma IndexCovers(pos: nat, w: nat, h: nat)
    requires pos < w * h
    ensures w > 0 && pos / w < h && pos % w < w && Index(pos / w, w, pos % w) == pos
  {
    var y, x := pos / w, pos % w;
    assert pos == y * w + x;
    RowOffsetIsProduct(y, w);
  }

  /** Rows `pitch` apart with `pitch >= w`: a pixel of an earlier row comes before every pixel of a later one. */
  lemma {:induction false} EarlierRow(y: nat, x: nat, y': nat, pitch: nat)
    requires y < y' && x < pitch
    ensures Index(y, pitch, x) < Index(y', pitch, 0)
  {
    if y + 1 < y' {
      EarlierRow(y, x, y' - 1, pitch);
    }
    assert Index(y', pitch, 0) == Index(y' - 1, pitch, 0) + pitch;
  }

  /** Two pixels of a `w`-wide image at the same position are the same pixel. */
  lemma IndexInjective(y: nat, x: nat, y': nat, x': nat, w: nat)
    requires x < w && x' < w && Index(y, w, x) == Index(y', w, x')
    ensures y == y' && x == x'
  {
    if y < y' {
      EarlierRow(y, x, y', w);
    } else if y' < y {
      EarlierRow(y', x', y, w);
    }
  }

  /** Rows further down start further on. */
  lemma {:induction false} RowMonotone(y: nat, y': nat, pitch: nat, x: nat)
    requires y <= y'
    ensures Index(y, pitch, x) <= Index(y', pitch, x)
  {
    if y < y' {
      RowMonotone(y, y' - 1, pitch, x);
      assert Index(y', pitch, x) == Index(y' - 1, pitch, x) + pitch;
    }
  }

  // ---------------------------------------------------------------- gamma

  /**
   * What `R_GammaCorrectAndSetPalette` makes of the current palette `cur`:
   * red, green and blue of every entry looked up in `gamma`, the fourth byte
   * left as it was.
   */
  function GammaCorrected(cur: seq<byte>, gamma: seq<byte>, pal: seq<byte>): (r: seq<byte>)
    requires |cur| == PALETTE_BYTES && |gamma| == COLORS && |pal| == PALETTE_BYTES
    ensures |r| == PALETTE_BYTES
  {
    seq(PALETTE_BYTES, k requires 0 <= k < PALETTE_BYTES => if k % 4 == 3 then cur[k] else gamma[pal[k]])
  }

  /** Entry by entry: the colour bytes are `gamma[pal[...]]`, the fourth byte is untouched. */
  lemma GammaCorrectedEntries(cur: seq<byte>, gamma: seq<byte>, pal: seq<byte>, i: nat, k: nat)
    requires |cur| == PALETTE_BYTES && |gamma| == COLORS && |pal| == PALETTE_BYTES && i < COLORS && k < 4
    ensures k < 3 ==> GammaCorrected(cur, gamma, pal)[Entry(i, k)] == gamma[pal[Entry(i, k)]]
    ensures k == 3 ==> GammaCorrected(cur, gamma, pal)[Entry(i, k)] == cur[Entry(i, k)]
  {
    EntryDivMod(i, k);
  }

  /**
   * Only the source's colour bytes matter, and a second correction
   * replaces the first: correcting from `a` and then from `b` is
   * correcting from `b`.
   */
  lemma GammaCorrectedOverwrites(cur: seq<byte>, gamma: seq<byte>, a: seq<byte>, b: seq<byte>)
    requires |cur| == PALETTE_BYTES && |gamma| == COLORS && |a| == PALETTE_BYTES && |b| == PALETTE_BYTES
    ensures GammaCorrected(GammaCorrected(cur, gamma, a), gamma, b) == GammaCorrected(cur, gamma, b)
  {
  }

  /** Two sources with the same colour bytes give the same palette, whatever their fourth bytes. */
  lemma GammaIgnoresFourthByte(cur: seq<byte>, gamma: seq<byte>, a: seq<byte>, b: seq<byte>)
    requires |cur| == PALETTE_BYTES && |gamma| == COLORS && |a| == PALETTE_BYTES && |b| == PALETTE_BYTES
    requires forall i, k | 0 <= i < COLORS && 0 <= k < 3 :: a[Entry(i, k)] == b[Entry(i, k)]
    ensures GammaCorrected(cur, gamma, a) == GammaCorrected(cur, gamma, b)
  {
    forall j | 0 <= j < PALETTE_BYTES && j % 4 != 3
      ensures a[j] == b[j]
    {
      var i, k := j / 4, j % 4;
      assert j == Entry(i, k);
    }
  }

  // ---------------------------------------------------------- 3 to 4 bytes

  /** `RE_SetPalette`'s widening of a 768-byte RGB palette: each colour followed by 0xFF. */
  function Expand(pal: seq<byte>): (r: seq<byte>)
    requires |pal| >= RGB_BYTES
    ensures |r| == PALETTE_BYTES
  {
    seq(PALETTE_BYTES, k requires 0 <= k < PALETTE_BYTES => if k % 4 == 3 then 0xFF else pal[Rgb(k / 4, k % 4)])
  }

  /** The RGB bytes of a four-byte palette, the inverse of `Expand`. */
  function Narrow(pal32: seq<byte>): (r: seq<byte>)
    requires |pal32| == PALETTE_BYTES
    ensures |r| == RGB_BYTES
  {
    seq(RGB_BYTES, k requires 0 <= k < RGB_BYTES => pal32[Entry(k / 3, k % 3)])
  }

  /** Entry `i` of the widened palette is colour `i` of the RGB palette with a fourth byte of 0xFF. */
  lemma ExpandEntries(pal: seq<byte>, i: nat, k: nat)
    requires |pal| >= RGB_BYTES && i < COLORS && k < 4
    ensures k < 3 ==> Expand(pal)[Entry(i, k)] == pal[Rgb(i, k)]
    ensures k == 3 ==> Expand(pal)[Entry(i, k)] == 0xFF
  {
    EntryDivMod(i, k);
  }

  /** Widening loses nothing: narrowing it back gives the RGB palette. */
  lemma NarrowExpand(pal: seq<byte>)
    requires |pal| >= RGB_BYTES
    ensures Narrow(Expand(pal)) == pal[..RGB_BYTES]
  {
    forall j | 0 <= j < RGB_BYTES
      ensures Narrow(Expand(pal))[j] == pal[j]
    {
      var i, k := j / 3, j % 3;
      assert j == Rgb(i, k);
      ExpandEntries(pal, i, k);
    }
  }

  /** `Draw_GetPalette`'s copy into the base table: the colour bytes from the RGB palette, the fourth bytes kept. */
  function Unpacked(table: seq<byte>, pal: seq<byte>): (r: seq<byte>)
    requires |table| == PALETTE_BYTES && |pal| >= RGB_BYTES
    ensures |r| == PALETTE_BYTES
  {
    seq(PALETTE_BYTES, k requires 0 <= k < PALETTE_BYTES => if k % 4 == 3 then table[k] else pal[Rgb(k / 4, k % 4)])
  }

  /**
   * Loading a palette into the base table and setting the base table, or
   * setting the RGB palette directly, put the same colours on screen.
   */
  lemma SetFromTableOrRgb(cur: seq<byte>, gamma: seq<byte>, table: seq<byte>, pal: seq<byte>)
    requires |cur| == PALETTE_BYTES && |gamma| == COLORS && |table| == PALETTE_BYTES && |pal| >= RGB_BYTES
    ensures GammaCorrected(cur, gamma, Unpacked(table, pal)) == GammaCorrected(cur, gamma, Expand(pal))
  {
    forall i, k | 0 <= i < COLORS && 0 <= k < 3
      ensures Unpacked(table, pal)[Entry(i, k)] == Expand(pal)[Entry(i, k)]
    {
      EntryDivMod(i, k);
    }
    GammaIgnoresFourthByte(cur, gamma, Unpacked(table, pal), Expand(pal));
  }

  // ---------------------------------------------------------------- blend

  /** `r_newrefdef.blend`: the full-screen colour blend of this frame, alpha last. */
  datatype Blend = Blend(r: real, g: real, b: real, a: real)

  /** The conversion of a `float` to `int`, which drops the fraction toward zero. */
  function Trunc(v: real): int
  {
    if v >= 0.0 then v.Floor else -((-v).Floor)
  }

  /** The store of an `int` into a byte, which keeps it modulo 256. */
  function ToByte(v: int): byte
  {
    v % 256
  }

  /** One blended colour byte: `premult + (1 - alpha) * in`, truncated and capped at 255. */
  function BlendChannel(premult: real, oneMinusAlpha: real, c: byte): byte
  {
    var v := Trunc(premult + oneMinusAlpha * c as real);
    ToByte(if v > 255 then 255 else v)
  }

  /** The blend's alpha, capped at 1. */
  function BlendAlpha(blend: Blend): real
  {
    if blend.a > 1.0 then 1.0 else blend.a
  }

  /** The three premultiplied blend colours, red first. */
  function Premult(blend: Blend): (r: seq<real>)
    ensures |r| == 3
  {
    var alpha := BlendAlpha(blend);
    [blend.r * alpha * 255.0, blend.g * alpha * 255.0, blend.b * alpha * 255.0]
  }

  /** The local `palette` of `R_CalcPalette`: each base colour blended, every fourth byte 255. */
  function Blended(table: seq<byte>, blend: Blend): (r: seq<byte>)
    requires |table| == PALETTE_BYTES
    ensures |r| == PALETTE_BYTES
  {
    var pre := Premult(blend);
    var oma := 1.0 - BlendAlpha(blend);
    seq(PALETTE_BYTES, k requires 0 <= k < PALETTE_BYTES =>
      if k % 4 == 3 then 255 else BlendChannel(pre[k % 4], oma, table[k]))
  }

  /** Entry by entry: the colour bytes blend the base colour; the fourth byte is 255. */
  lemma BlendedEntries(table: seq<byte>, blend: Blend, i: nat, k: nat)
    requires |table| == PALETTE_BYTES && i < COLORS && k < 4
    ensures k < 3 ==> Blended(table, blend)[Entry(i, k)]
                      == BlendChannel(Premult(blend)[k], 1.0 - BlendAlpha(blend), table[Entry(i, k)])
    ensures k == 3 ==> Blended(table, blend)[Entry(i, k)] == 255
  {
    EntryDivMod(i, k);
  }

  /** A blend with alpha 1 or more paints every colour the blend colour, whatever the base table. */
  lemma OpaqueBlendIgnoresTable(a: seq<byte>, b: seq<byte>, blend: Blend)
    requires |a| == PALETTE_BYTES && |b| == PALETTE_BYTES && blend.a >= 1.0
    ensures Blended(a, blend) == Blended(b, blend)
  {
    forall p: real, c: byte, d: byte
      ensures BlendChannel(p, 0.0, c) == BlendChannel(p, 0.0, d)
    {
      assert 0.0 * c as real == 0.0 * d as real;
    }
  }

  /** The static `modified` flag of `R_CalcPalette` and the current palette. */
  datatype PaletteState = PaletteState(modified: bool, palette: seq<byte>)

  /**
   * `R_CalcPalette`: with no blend the palette goes back to the base table
   * once, the first frame after a blend, and is left alone after that; with
   * a blend the blended table is set and the flag raised.
   */
  function CalcPaletteStep(s: PaletteState, gamma: seq<byte>, table: seq<byte>, blend: Blend): (r: PaletteState)
    requires |s.palette| == PALETTE_BYTES && |gamma| == COLORS && |table| == PALETTE_BYTES
    ensures |r.palette| == PALETTE_BYTES
  {
    if blend.a <= 0.0 then
      if s.modified then PaletteState(false, GammaCorrected(s.palette, gamma, table)) else s
    else PaletteState(true, GammaCorrected(s.palette, gamma, Blended(table, blend)))
  }

  /** After a step the flag says whether this frame was blended, and no fourth palette byte has changed. */
  lemma CalcPaletteFlag(s: PaletteState, gamma: seq<byte>, table: seq<byte>, blend: Blend)
    requires |s.palette| == PALETTE_BYTES && |gamma| == COLORS && |table| == PALETTE_BYTES
    ensures CalcPaletteStep(s, gamma, table, blend).modified == (blend.a > 0.0)
    ensures forall i | 0 <= i < COLORS ::
              CalcPaletteStep(s, gamma, table, blend).palette[Entry(i, 3)] == s.palette[Entry(i, 3)]
  {
    forall i | 0 <= i < COLORS
      ensures CalcPaletteStep(s, gamma, table, blend).palette[Entry(i, 3)] == s.palette[Entry(i, 3)]
    {
      EntryDivMod(i, 3);
    }
  }

  /** An unblended frame after any frame leaves the palette as the gamma-corrected base table, and a further one changes nothing. */
  lemma UnblendedFrameRestores(s: PaletteState, gamma: seq<byte>, table: seq<byte>, blend: Blend, clear: Blend)
    requires |s.palette| == PALETTE_BYTES && |gamma| == COLORS && |table| == PALETTE_BYTES
    requires blend.a > 0.0 && clear.a <= 0.0
    ensures CalcPaletteStep(CalcPaletteStep(s, gamma, table, blend), gamma, table, clear)
            == PaletteState(false, GammaCorrected(s.palette, gamma, table))
    ensures var t := CalcPaletteStep(s, gamma, table, clear);
            CalcPaletteStep(t, gamma, table, clear) == t
  {
    GammaCorrectedOverwrites(s.palette, gamma, Blended(table, blend), table);
  }

  // ----------------------------------------------------------- frame reads

  /** `sw_state.currentpalette` seen as `Uint32` words on a little-endian host: entry `c` as one word. */
  function Pal32(pal: seq<byte>, c: byte): (r: nat)
    requires |pal| == PALETTE_BYTES
    ensures r < UINT32_LIMIT
  {
    U32LE(pal, Entry(c, 0))
  }

  /** The word of colour `c` holds the palette entry's four bytes in memory order. */
  lemma Pal32Bytes(pal: seq<byte>, c: byte)
    requires |pal| == PALETTE_BYTES
    ensures LE32(Pal32(pal, c)) == pal[Entry(c, 0)..Entry(c, 4)]
  {
    LE32OfU32LE(pal, Entry(c, 0));
  }

  /** `R_ScreenShot_f`'s buffer: pixel by pixel, the colour bytes of its palette entry. */
  function Rgb24(pal: seq<byte>, vid: seq<byte>): (r: seq<byte>)
    requires |pal| == PALETTE_BYTES
    ensures |r| == 3 * |vid|
  {
    seq(3 * |vid|, k requires 0 <= k < 3 * |vid| => pal[Entry(vid[k / 3], k % 3)])
  }

  /** Rows `0..n` of the `w`-wide frame `vid` are in `px`, `pitch` apart, as the words of their palette entries. */
  ghost predicate RowsCopied(px: seq<int>, pal: seq<byte>, vid: seq<byte>, w: nat, pitch: nat, n: nat)
    requires |pal| == PALETTE_BYTES
  {
    forall y, x | 0 <= y < n && 0 <= x < w ::
      Index(y, pitch, x) < |px| && 0 <= Index(y, w, x) < |vid| && px[Index(y, pitch, x)] == Pal32(pal, vid[Index(y, w, x)])
  }

  /** The words between the first `n` rows (past the width, before the next row) are those of `orig`. */
  ghost predicate GapsKept(px: seq<int>, orig: seq<int>, w: nat, pitch: nat, n: nat)
  {
    forall y, x | 0 <= y < n && w <= x < pitch && 0 <= Index(y, pitch, x) < |px| ::
      Index(y, pitch, x) < |orig| && px[Index(y, pitch, x)] == orig[Index(y, pitch, x)]
  }

  /** A straight copy of all `w * h` pixels is a row-by-row copy with rows `w` apart. */
  lemma StraightRows(px: seq<int>, pal: seq<byte>, vid: seq<byte>, w: nat, h: nat)
    requires |pal| == PALETTE_BYTES && |vid| == w * h && w * h <= |px|
    requires forall j | 0 <= j < w * h :: px[j] == Pal32(pal, vid[j])
    ensures RowsCopied(px, pal, vid, w, w, h)
  {
    forall y, x | 0 <= y < h && 0 <= x < w
      ensures Index(y, w, x) < w * h
    {
      IndexInImage(y, x, w, h);
    }
  }

  /** Copying row `y` into a buffer holding rows `0..y` gives one holding rows `0..y + 1`, gaps and tail untouched. */
  lemma RowCopiedStep(before: seq<int>, after: seq<int>, orig: seq<int>, pal: seq<byte>, vid: seq<byte>,
                      w: nat, pitch: nat, y: nat)
    requires |pal| == PALETTE_BYTES && |before| == |after| == |orig| && pitch >= w
    requires RowsCopied(before, pal, vid, w, pitch, y) && GapsKept(before, orig, w, pitch, y)
    requires forall k | Index(y, pitch, 0) <= k < |before| :: before[k] == orig[k]
    requires Index(y, pitch, w) <= |after| && Index(y, w, w) <= |vid|
    requires forall x | 0 <= x < w :: after[Index(y, pitch, x)] == Pal32(pal, vid[Index(y, w, x)])
    requires forall k | 0 <= k < |after| && !(Index(y, pitch, 0) <= k < Index(y, pitch, 0) + w) :: after[k] == before[k]
    ensures RowsCopied(after, pal, vid, w, pitch, y + 1) && GapsKept(after, orig, w, pitch, y + 1)
    ensures Index(y + 1, pitch, 0) == Index(y, pitch, 0) + pitch && Index(y + 1, w, 0) == Index(y, w, 0) + w
    ensures forall k | Index(y + 1, pitch, 0) <= k < |after| :: after[k] == orig[k]
  {
    var row := Index(y, pitch, 0);
    assert Index(y + 1, pitch, 0) == row + pitch;
    assert Index(y + 1, w, 0) == Index(y, w, 0) + w;
    forall y', x | 0 <= y' < y && 0 <= x < pitch
      ensures Index(y', pitch, x) < row
    {
      EarlierRow(y', x, y, pitch);
    }
    forall y', x | 0 <= y' < y + 1 && 0 <= x < w
      ensures Index(y', w, x) < |vid|
    {
      if y' < y {
        assert Index(y', w, x) < |vid|;
      } else {
        assert Index(y', w, x) < Index(y, w, w);
      }
    }
  }

  /**
   * `sw_state`, `vid` and the globals around them: the frame buffer
   * `vid_buffer` of `width * height` palette indexes, the gamma table, the
   * current palette, the base table `d_8to24table` (as its bytes), the
   * colormap and the position of `vid_alphamap` in it, and the static flag
   * of `R_CalcPalette`.
   */
  class Video {
    const width: nat
    const height: nat
    const vidBuffer: array<byte>
    const gammatable: array<byte>
    const currentpalette: array<byte>
    const table8to24: array<byte>
    var colormap: seq<byte>
    var alphamap: nat
    var modified: bool

    ghost predicate Valid()
      reads this
    {
      && vidBuffer.Length == width * height
      && gammatable.Length == COLORS && currentpalette.Length == PALETTE_BYTES && table8to24.Length == PALETTE_BYTES
      && vidBuffer != gammatable && vidBuffer != currentpalette && vidBuffer != table8to24
      && gammatable != currentpalette && gammatable != table8to24 && currentpalette != table8to24
    }

    constructor (w: nat, h: nat, gamma: seq<byte>)
      requires |gamma| == COLORS
      ensures Valid() && width == w && height == h && gammatable[..] == gamma && !modified
    {
      width, height := w, h;
      vidBuffer := new byte[w * h](_ => 0);
      gammatable := new byte[COLORS](k requires 0 <= k < COLORS reads {} => gamma[k]);
      currentpalette := new byte[PALETTE_BYTES](_ => 0);
      table8to24 := new byte[PALETTE_BYTES](_ => 0);
      colormap, alphamap, modified := [], 0, false;
      new;
      assert gammatable[..] == gamma;
    }

    /** `R_GammaCorrectAndSetPalette`. */
    method GammaCorrectAndSetPalette(pal: seq<byte>)
      requires Valid() && |pal| == PALETTE_BYTES
      modifies currentpalette
      ensures currentpalette[..] == GammaCorrected(old(currentpalette[..]), gammatable[..], pal)
    {
      ghost var cur := currentpalette[..];
      ghost var spec := GammaCorrected(cur, gammatable[..], pal);
      var i := 0;
      while i < COLORS
        invariant 0 <= i <= COLORS
        invariant forall k | 0 <= k < Entry(i, 0) :: currentpalette[k] == spec[k]
        invariant forall k | Entry(i, 0) <= k < PALETTE_BYTES :: currentpalette[k] == cur[k]
      {
        GammaCorrectedEntries(cur, gammatable[..], pal, i, 0);
        GammaCorrectedEntries(cur, gammatable[..], pal, i, 1);
        GammaCorrectedEntries(cur, gammatable[..], pal, i, 2);
        GammaCorrectedEntries(cur, gammatable[..], pal, i, 3);
        currentpalette[Entry(i, 0)] := gammatable[pal[Entry(i, 0)]];
        currentpalette[Entry(i, 1)] := gammatable[pal[Entry(i, 1)]];
        currentpalette[Entry(i, 2)] := gammatable[pal[Entry(i, 2)]];
        i := i + 1;
      }
      assert currentpalette[..] == spec;
    }

    /** The loop of `RE_SetPalette` that widens the RGB palette into `palette32`. */
    static method ExpandPalette(pal: seq<byte>) returns (palette32: array<byte>)
      requires |pal| >= RGB_BYTES
      ensures fresh(palette32) && palette32[..] == Expand(pal)
    {
      palette32 := new byte[PALETTE_BYTES];
      var i := 0;
      while i < COLORS
        invariant 0 <= i <= COLORS
        invariant forall k | 0 <= k < Entry(i, 0) :: palette32[k] == Expand(pal)[k]
      {
        ExpandEntries(pal, i, 0);
        ExpandEntries(pal, i, 1);
        ExpandEntries(pal, i, 2);
        ExpandEntries(pal, i, 3);
        palette32[Entry(i, 0)] := pal[Rgb(i, 0)];
        palette32[Entry(i, 1)] := pal[Rgb(i, 1)];
        palette32[Entry(i, 2)] := pal[Rgb(i, 2)];
        palette32[Entry(i, 3)] := 0xFF;
        i := i + 1;
      }
      assert palette32[..] == Expand(pal);
    }

    /**
     * `RE_SetPalette`: the frame buffer is cleared to index 0, then the
     * widened RGB palette, or the base table when there is none, is gamma
     * corrected into the current palette.
     */
    method SetPalette(palette: Option<seq<byte>>)
      requires Valid() && (palette.Some? ==> |palette.value| >= RGB_BYTES)
      modifies vidBuffer, currentpalette
      ensures forall k | 0 <= k < vidBuffer.Length :: vidBuffer[k] == 0
      ensures palette.Some? ==> currentpalette[..] == GammaCorrected(old(currentpalette[..]), gammatable[..], Expand(palette.value))
      ensures palette.None? ==> currentpalette[..] == GammaCorrected(old(currentpalette[..]), gammatable[..], table8to24[..])
    {
      forall k | 0 <= k < vidBuffer.Length {
        vidBuffer[k] := 0;
      }
      if palette.Some? {
        var palette32 := ExpandPalette(palette.value);
        GammaCorrectAndSetPalette(palette32[..]);
      } else {
        GammaCorrectAndSetPalette(table8to24[..]);
      }
    }

    /**
     * `Draw_GetPalette`, given what loading the colormap image produced: no
     * image is the fatal error (nothing changes); otherwise the colormap and
     * `vid_alphamap` are set and each base-table entry takes its colour
     * bytes from the image's palette, keeping its fourth byte.
     */
    method GetPalette(pcx: Option<(seq<byte>, seq<byte>)>) returns (ok: bool)
      requires Valid() && (pcx.Some? ==> |pcx.value.1| >= RGB_BYTES)
      modifies this`colormap, this`alphamap, table8to24
      ensures ok == pcx.Some?
      ensures !ok ==> colormap == old(colormap) && alphamap == old(alphamap) && table8to24[..] == old(table8to24[..])
      ensures ok ==> colormap == pcx.value.0 && alphamap == ALPHAMAP_OFFSET
      ensures ok ==> table8to24[..] == Unpacked(old(table8to24[..]), pcx.value.1)
    {
      if pcx.None? {
        return false;
      }
      ok := true;
      colormap := pcx.value.0;
      alphamap := ALPHAMAP_OFFSET;
      var pal := pcx.value.1;
      ghost var table := table8to24[..];
      ghost var spec := Unpacked(table, pal);
      var i := 0;
      while i < COLORS
        modifies table8to24
        invariant 0 <= i <= COLORS
        invariant forall k | 0 <= k < Entry(i, 0) :: table8to24[k] == spec[k]
        invariant forall k | Entry(i, 0) <= k < PALETTE_BYTES :: table8to24[k] == table[k]
      {
        EntryDivMod(i, 0);
        EntryDivMod(i, 1);
        EntryDivMod(i, 2);
        EntryDivMod(i, 3);
        var r, g, b := pal[Rgb(i, 0)], pal[Rgb(i, 1)], pal[Rgb(i, 2)];
        table8to24[Entry(i, 0)] := r;
        table8to24[Entry(i, 1)] := g;
        table8to24[Entry(i, 2)] := b;
        i := i + 1;
      }
      assert table8to24[..] == spec;
    }

    /** The loop of `R_CalcPalette` that blends the base table into its local `palette`. */
    method BlendPalette(blend: Blend) returns (palette: array<byte>)
      requires Valid()
      ensures fresh(palette) && palette[..] == Blended(table8to24[..], blend)
    {
      ghost var spec := Blended(table8to24[..], blend);
      var alpha := BlendAlpha(blend);
      var premult := Premult(blend);
      var oneMinusAlpha := 1.0 - alpha;
      palette := new byte[PALETTE_BYTES];
      var i := 0;
      while i < COLORS
        invariant 0 <= i <= COLORS
        invariant forall k | 0 <= k < Entry(i, 0) :: palette[k] == spec[k]
      {
        var j := 0;
        while j < 3
          invariant 0 <= j <= 3
          invariant forall k | 0 <= k < Entry(i, j) :: palette[k] == spec[k]
        {
          BlendedEntries(table8to24[..], blend, i, j);
          palette[Entry(i, j)] := BlendChannel(premult[j], oneMinusAlpha, table8to24[Entry(i, j)]);
          j := j + 1;
        }
        BlendedEntries(table8to24[..], blend, i, 3);
        palette[Entry(i, 3)] := 255;
        i := i + 1;
      }
      assert palette[..] == spec;
    }

    /** `R_CalcPalette`, one frame's blend at a time. */
    method CalcPalette(blend: Blend)
      requires Valid()
      modifies this`modified, currentpalette
      ensures PaletteState(modified, currentpalette[..])
              == CalcPaletteStep(PaletteState(old(modified), old(currentpalette[..])), gammatable[..], table8to24[..], blend)
    {
      if blend.a <= 0.0 {
        if modified {
          modified := false;
          GammaCorrectAndSetPalette(table8to24[..]);
          return;
        }
        return;
      }
      modified := true;
      var palette := BlendPalette(blend);
      GammaCorrectAndSetPalette(palette[..]);
    }

    /**
     * `RE_CopyFrame`: every pixel (x, y) of the frame buffer becomes the
     * 32-bit word of its palette entry at `pixels[y * pitch + x]`, by one
     * straight run when `pitch` is the width and row by row otherwise; the
     * words between rows and after the last row are left alone.
     */
    method CopyFrame(pixels: array<int>, pitch: nat)
      requires Valid() && pitch >= width
      requires height == 0 || Index(height - 1, pitch, width) <= pixels.Length
      modifies pixels
      ensures RowsCopied(pixels[..], currentpalette[..], vidBuffer[..], width, pitch, height)
      ensures GapsKept(pixels[..], old(pixels[..]), width, pitch, height)
      ensures forall k | Index(height, pitch, 0) <= k < pixels.Length :: pixels[k] == old(pixels[k])
    {
      var pal := currentpalette[..];
      if pitch == width {
        RowOffsetIsProduct(height, width);
        if height > 0 {
          assert Index(height - 1, pitch, width) == RowOffset(height, width);
        }
        CopyStraight(pixels, pal);
        StraightRows(pixels[..], pal, vidBuffer[..], width, height);
      } else {
        CopyRows(pixels, pitch, pal);
      }
    }

    /** The row-by-row branch of `RE_CopyFrame`: the row start advances by `pitch`, the buffer position by the width. */
    method CopyRows(pixels: array<int>, pitch: nat, pal: seq<byte>)
      requires Valid() && pitch >= width && pal == currentpalette[..]
      requires height == 0 || Index(height - 1, pitch, width) <= pixels.Length
      modifies pixels
      ensures RowsCopied(pixels[..], pal, vidBuffer[..], width, pitch, height)
      ensures GapsKept(pixels[..], old(pixels[..]), width, pitch, height)
      ensures forall k | Index(height, pitch, 0) <= k < pixels.Length :: pixels[k] == old(pixels[k])
    {
      ghost var orig := pixels[..];
      var row := 0;
      var bufferPos := 0;
      var y := 0;
      while y < height
        invariant 0 <= y <= height
        invariant row == Index(y, pitch, 0) && bufferPos == Index(y, width, 0)
        invariant RowsCopied(pixels[..], pal, vidBuffer[..], width, pitch, y)
        invariant GapsKept(pixels[..], orig, width, pitch, y)
        invariant forall k | row <= k < pixels.Length :: pixels[k] == orig[k]
      {
        RowFits(y, pitch, pixels.Length);
        ghost var before := pixels[..];
        CopyRow(pixels, pitch, y, row, bufferPos, pal);
        RowCopiedStep(before, pixels[..], orig, pal, vidBuffer[..], width, pitch, y);
        row := row + pitch;
        bufferPos := bufferPos + width;
        y := y + 1;
      }
    }

    /** The straight branch of `RE_CopyFrame`: one run over the `height * width` pixels. */
    method CopyStraight(pixels: array<int>, pal: seq<byte>)
      requires Valid() && |pal| == PALETTE_BYTES && width * height <= pixels.Length
      modifies pixels
      ensures forall j | 0 <= j < width * height :: pixels[j] == Pal32(pal, vidBuffer[j])
      ensures forall j | width * height <= j < pixels.Length :: pixels[j] == old(pixels[j])
    {
      var n := height * width;
      var k := 0;
      while k < n
        invariant 0 <= k <= n
        invariant forall j | 0 <= j < k :: pixels[j] == Pal32(pal, vidBuffer[j])
        invariant forall j | k <= j < pixels.Length :: pixels[j] == old(pixels[j])
      {
        pixels[k] := Pal32(pal, vidBuffer[k]);
        k := k + 1;
      }
    }

    lemma RowFits(y: nat, pitch: nat, len: nat)
      requires Valid() && y < height
      requires Index(height - 1, pitch, width) <= len
      ensures Index(y, pitch, width) <= len && Index(y, width, width) <= vidBuffer.Length
    {
      RowMonotone(y, height - 1, pitch, width);
      assert Index(y, width, width) == Index(y + 1, width, 0);
      RowMonotone(y + 1, height, width, 0);
      RowOffsetIsProduct(height, width);
    }

    /** One row of the row-by-row copy. */
    method CopyRow(pixels: array<int>, pitch: nat, y: nat, row: nat, bufferPos: nat, pal: seq<byte>)
      requires Valid() && |pal| == PALETTE_BYTES
      requires row == Index(y, pitch, 0) && bufferPos == Index(y, width, 0)
      requires Index(y, pitch, width) <= pixels.Length && Index(y, width, width) <= vidBuffer.Length
      modifies pixels
      ensures forall x | 0 <= x < width :: pixels[Index(y, pitch, x)] == Pal32(pal, vidBuffer[Index(y, width, x)])
      ensures forall k | 0 <= k < pixels.Length && !(row <= k < row + width) :: pixels[k] == old(pixels[k])
    {
      var x := 0;
      while x < width
        invariant 0 <= x <= width
        invariant forall x' | 0 <= x' < x :: pixels[Index(y, pitch, x')] == Pal32(pal, vidBuffer[Index(y, width, x')])
        invariant forall k | 0 <= k < pixels.Length && !(row <= k < row + x) :: pixels[k] == old(pixels[k])
      {
        assert Index(y, pitch, x) == row + x && Index(y, width, x) == bufferPos + x;
        pixels[row + x] := Pal32(pal, vidBuffer[bufferPos + x]);
        x := x + 1;
      }
    }

    /** The three colour bytes of pixel `pos` of the screenshot buffer. */
    static method SetRgb(buffer: array<byte>, pos: nat, r: byte, g: byte, b: byte)
      requires Rgb(pos, 3) <= buffer.Length
      modifies buffer
      ensures buffer[Rgb(pos, 0)] == r && buffer[Rgb(pos, 1)] == g && buffer[Rgb(pos, 2)] == b
      ensures forall j | 0 <= j < buffer.Length && !(Rgb(pos, 0) <= j < Rgb(pos, 3)) :: buffer[j] == old(buffer[j])
    {
      buffer[Rgb(pos, 0)] := r;
      buffer[Rgb(pos, 1)] := g;
      buffer[Rgb(pos, 2)] := b;
    }

    /**
     * `R_ScreenShot_f`: when the buffer can be allocated, the RGB24 image
     * handed to the screenshot writer holds, for each pixel, the colour
     * bytes of its palette entry. `ok` stands for the result of `malloc`.
     */
    method ScreenShot(ok: bool) returns (shot: Option<seq<byte>>)
      requires Valid()
      ensures !ok ==> shot == None
      ensures ok ==> shot == Some(Rgb24(currentpalette[..], vidBuffer[..]))
    {
      if !ok {
        return None;
      }
      var n := width * height;
      var buffer := new byte[3 * n];
      var pal := currentpalette[..];
      var vid := vidBuffer[..];
      var x := 0;
      while x < width
        invariant 0 <= x <= width
        invariant forall x', y | 0 <= x' < x && 0 <= y < height :: Shot(buffer[..], pal, vid, Index(y, width, x'))
      {
        ShotColumn(buffer, pal, vid, width, height, x);
        x := x + 1;
      }
      ShotComplete(buffer[..], pal, vid, width, height);
      return Some(buffer[..]);
    }
  }

  /** Pixel `pos` of the screenshot buffer holds the colour bytes of its palette entry. */
  ghost predicate Shot(buf: seq<byte>, pal: seq<byte>, vid: seq<byte>, pos: int)
    requires |pal| == PALETTE_BYTES
  {
    && 0 <= pos < |vid| && Rgb(pos, 3) <= |buf|
    && forall c | 0 <= c < 3 :: buf[Rgb(pos, c)] == pal[Entry(vid[pos], c)]
  }

  /** The inner loop of `R_ScreenShot_f`: column `x`, top to bottom. */
  method ShotColumn(buffer: array<byte>, pal: seq<byte>, vid: seq<byte>, w: nat, h: nat, x: nat)
    requires |pal| == PALETTE_BYTES && |vid| == w * h && buffer.Length == 3 * |vid| && x < w
    modifies buffer
    ensures forall y | 0 <= y < h :: Shot(buffer[..], pal, vid, Index(y, w, x))
    ensures forall x', y | 0 <= x' < w && x' != x && 0 <= y < h && old(Shot(buffer[..], pal, vid, Index(y, w, x'))) ::
              Shot(buffer[..], pal, vid, Index(y, w, x'))
  {
    var y := 0;
    while y < h
      invariant 0 <= y <= h
      invariant forall y' | 0 <= y' < y :: Shot(buffer[..], pal, vid, Index(y', w, x))
      invariant forall x', y' | 0 <= x' < w && x' != x && 0 <= y' < h && old(Shot(buffer[..], pal, vid, Index(y', w, x'))) ::
                  Shot(buffer[..], pal, vid, Index(y', w, x'))
    {
      var pos := Index(y, w, x);
      IndexInImage(y, x, w, h);
      ghost var before := buffer[..];
      var c := vid[pos];
      Video.SetRgb(buffer, pos, pal[Entry(c, 0)], pal[Entry(c, 1)], pal[Entry(c, 2)]);
      forall x', y' | 0 <= x' < w && 0 <= y' < h && (x' != x || y' < y) && Shot(before, pal, vid, Index(y', w, x'))
        ensures Shot(buffer[..], pal, vid, Index(y', w, x'))
      {
        if Index(y', w, x') == pos {
          IndexInjective(y', x', y, x, w);
        }
        ShotKept(before, buffer[..], pal, vid, Index(y', w, x'), pos);
      }
      y := y + 1;
    }
  }

  /** A buffer with every pixel of the image shot is the whole RGB24 image. */
  lemma ShotComplete(buf: seq<byte>, pal: seq<byte>, vid: seq<byte>, w: nat, h: nat)
    requires |pal| == PALETTE_BYTES && |vid| == w * h && |buf| == 3 * |vid|
    requires forall x, y | 0 <= x < w && 0 <= y < h :: Shot(buf, pal, vid, Index(y, w, x))
    ensures buf == Rgb24(pal, vid)
  {
    forall k | 0 <= k < |buf|
      ensures buf[k] == Rgb24(pal, vid)[k]
    {
      var pos, c := k / 3, k % 3;
      IndexCovers(pos, w, h);
      assert Shot(buf, pal, vid, Index(pos / w, w, pos % w));
      assert Rgb(pos, c) == k;
    }
  }

  /** Writing pixel `pos` keeps every other pixel of the buffer. */
  lemma ShotKept(before: seq<byte>, after: seq<byte>, pal: seq<byte>, vid: seq<byte>, p: int, pos: int)
    requires |pal| == PALETTE_BYTES && |before| == |after| && p != pos
    requires Shot(before, pal, vid, p)
    requires forall j | 0 <= j < |after| && !(Rgb(pos, 0) <= j < Rgb(pos, 3)) :: after[j] == before[j]
    ensures Shot(after, pal, vid, p)
  {
    forall c | 0 <= c < 3
      ensures after[Rgb(p, c)] == before[Rgb(p, c)]
    {
    }
  }
}
