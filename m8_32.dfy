/**
 * The Heretic 2 texture loaders of `m8_32.c`: the file name gets its
 * extension, the out-parameters are cleared, the file is loaded, the size
 * of mip level 0 is read from the fixed-layout header, and, when a picture
 * is asked for, level 0 is turned into RGBA: through the 256-colour
 * palette for `.m8`, byte for byte for `.m32`.
 *
 * `FS_LoadFile` is the map `files` from names to contents: a name that is
 * not in it is a file that cannot be loaded.
 */
module H2Textures {
  import opened Common

  /** The size of the local `filename` buffer, terminator included. */
  const FILENAME_SIZE: nat := 256

  // `m8tex_t`: version, 32-byte name, then 16 widths, 16 heights, 16 offsets,
  // a 32-byte animation name, 256 RGB palette entries and three ints.
  const M8_WIDTHS: nat := 36
  const M8_HEIGHTS: nat := 100
  const M8_OFFSETS: nat := 164
  const M8_PALETTE: nat := 260
  const M8_HEADER_SIZE: nat := 1040

  // `m32tex_t`: version and four 128-byte names, then 16 widths, 16 heights
  // and 16 offsets, and the fields up to the 18 unused ints.
  const M32_WIDTHS: nat := 516
  const M32_HEIGHTS: nat := 580
  const M32_OFFSETS: nat := 644
  const M32_HEADER_SIZE: nat := 968

  const INT32_LIMIT: nat := 0x8000_0000

  // ------------------------------------------------------------ file names

  /** The position of the last '.' in `s`, or -1 when there is none. */
  function LastDot(s: string): (r: int)
    ensures -1 <= r < |s|
    ensures r >= 0 ==> s[r] == '.'
    ensures forall j | r < j < |s| :: s[j] != '.'
  {
    if |s| == 0 then -1
    else if s[|s| - 1] == '.' then |s| - 1
    else LastDot(s[..|s| - 1])
  }

  /**
   * `COM_FileExtension`, which is not part of this model: the text after
   * the last '.', or nothing when there is no '.' or it is the first
   * character.
   */
  function FileExtension(s: string): (r: string)
    ensures LastDot(s) <= 0 ==> r == ""
    ensures LastDot(s) > 0 ==> r == s[LastDot(s) + 1..]
  {
    var d := LastDot(s);
    if d <= 0 then "" else s[d + 1..]
  }

  /**
   * The name a loader opens: `origname` cut to the buffer, with `.` and
   * `ext` appended, as far as the buffer holds them, unless `ext` already
   * is its extension.
   */
  function WithExtension(origname: string, ext: string): (r: string)
    ensures |r| < FILENAME_SIZE
  {
    var filename := Truncate(origname, FILENAME_SIZE - 1);
    if FileExtension(filename) == ext then filename
    else Truncate(filename + "." + ext, FILENAME_SIZE - 1)
  }

  /** The extension of `name + "." + ext` is `ext`, when `name` is not empty and `ext` has no dot. */
  lemma AppendedExtension(name: string, ext: string)
    requires |name| >= 1 && forall j | 0 <= j < |ext| :: ext[j] != '.'
    ensures FileExtension(name + "." + ext) == ext
  {
    var s := name + "." + ext;
    var d := LastDot(s);
    assert s[|name|] == '.';
    assert forall j | |name| < j < |s| :: s[j] == ext[j - |name| - 1];
    assert d == |name|;
    assert s[d + 1..] == ext;
  }

  /**
   * A short enough, non-empty name ends up with the extension asked for:
   * either it had it already and is kept, or it is the name with `.` and
   * the extension appended; asking again changes nothing.
   */
  lemma WithExtensionHasExtension(origname: string, ext: string)
    requires |origname| >= 1 && |origname| + 1 + |ext| < FILENAME_SIZE
    requires forall j | 0 <= j < |ext| :: ext[j] != '.'
    ensures FileExtension(origname) == ext ==> WithExtension(origname, ext) == origname
    ensures FileExtension(origname) != ext ==> WithExtension(origname, ext) == origname + "." + ext
    ensures FileExtension(WithExtension(origname, ext)) == ext
    ensures WithExtension(WithExtension(origname, ext), ext) == WithExtension(origname, ext)
  {
    if FileExtension(origname) != ext {
      AppendedExtension(origname, ext);
    }
  }

  /** The file `LoadM8` opens for `origname`. */
  function M8FileName(origname: string): string
  {
    WithExtension(origname, "m8")
  }

  /** The file `LoadM32` opens for `origname`. */
  function M32FileName(origname: string): string
  {
    WithExtension(origname, "m32")
  }

  // ----------------------------------------------------------------- .m8

  /** `LittleLong(texData->widths[0])` and so on, as the `int` it is stored in. */
  function M8Width(file: seq<byte>): int
    requires |file| >= M8_HEADER_SIZE
  {
    AsInt32(U32LE(file, M8_WIDTHS))
  }

  function M8Height(file: seq<byte>): int
    requires |file| >= M8_HEADER_SIZE
  {
    AsInt32(U32LE(file, M8_HEIGHTS))
  }

  function M8Offset(file: seq<byte>): int
    requires |file| >= M8_HEADER_SIZE
  {
    AsInt32(U32LE(file, M8_OFFSETS))
  }

  /**
   * A `w` by `h` level of `bytesPerPixel`-byte pixels at `offs` lies inside
   * a file of `size` bytes (the loaders do not check this), and its RGBA
   * size is an `int`.
   */
  predicate LevelInFile(size: nat, w: int, h: int, offs: int, bytesPerPixel: nat)
  {
    && w >= 0 && h >= 0 && offs >= 0
    && offs + bytesPerPixel * (w * h) <= size
    && 4 * (w * h) < INT32_LIMIT
  }

  /** What `LoadM8` needs of a file it converts: the whole header, and level 0's indexes inside the file. */
  predicate M8Readable(file: seq<byte>)
  {
    |file| >= M8_HEADER_SIZE && LevelInFile(|file|, M8Width(file), M8Height(file), M8Offset(file), 1)
  }

  /** Byte `k` of pixel `i` in an RGBA buffer. */
  function Rgba(i: int, k: int): int
  {
    4 * i + k
  }

  /** Colour byte `k` of palette entry `c` in the `.m8` header. */
  function PaletteByte(file: seq<byte>, c: byte, k: nat): byte
    requires |file| >= M8_HEADER_SIZE && k < 3
  {
    file[M8_PALETTE + 3 * c + k]
  }

  /**
   * The `n` pixels at `offs` of an `.m8` file as RGBA: each index looked up
   * in the header's palette, alpha 255.
   */
  function M8Rgba(file: seq<byte>, offs: nat, n: nat): (r: seq<byte>)
    requires |file| >= M8_HEADER_SIZE && offs + n <= |file|
    ensures |r| == 4 * n
  {
    seq(4 * n, k requires 0 <= k < 4 * n =>
      if k % 4 == 3 then 255 else PaletteByte(file, file[offs + k / 4], k % 4))
  }

  /** Pixel `i` of the RGBA image is the palette colour of index `i` of level 0, fully opaque. */
  lemma M8RgbaPixel(file: seq<byte>, offs: nat, n: nat, i: nat, k: nat)
    requires |file| >= M8_HEADER_SIZE && offs + n <= |file| && i < n && k < 4
    ensures k < 3 ==> M8Rgba(file, offs, n)[Rgba(i, k)] == PaletteByte(file, file[offs + i], k)
    ensures k == 3 ==> M8Rgba(file, offs, n)[Rgba(i, k)] == 255
  {
    assert Rgba(i, k) / 4 == i && Rgba(i, k) % 4 == k;
  }

  /** Level 0 of a readable `.m8` file as RGBA. */
  function M8Picture(file: seq<byte>): (r: seq<byte>)
    requires M8Readable(file)
  {
    M8Level(file, M8Width(file), M8Height(file), M8Offset(file))
  }

  /** The `w` by `h` level at `offs` as RGBA. */
  function M8Level(file: seq<byte>, w: int, h: int, offs: int): (r: seq<byte>)
    requires |file| >= M8_HEADER_SIZE && LevelInFile(|file|, w, h, offs, 1)
    ensures |r| == 4 * (w * h)
  {
    M8Rgba(file, offs, w * h)
  }

  /** The result of a loader: its return value and its three out-parameters. */
  datatype Loaded = Loaded(ok: bool, pic: Option<seq<byte>>, width: int, height: int)

  /**
   * `LoadM8`. `wantPic` is whether `pic` is non-null; the dimensions are
   * always reported.
   */
  method LoadM8(origname: string, files: map<string, seq<byte>>, wantPic: bool) returns (r: Loaded)
    requires M8FileName(origname) in files ==>
               |files[M8FileName(origname)]| >= M8_HEADER_SIZE
               && (wantPic ==> M8Readable(files[M8FileName(origname)]))
    ensures M8FileName(origname) !in files ==> r == Loaded(false, None, 0, 0)
    ensures M8FileName(origname) in files ==>
              var file := files[M8FileName(origname)];
              && r.ok && r.width == M8Width(file) && r.height == M8Height(file)
              && (!wantPic ==> r.pic == None)
              && (wantPic ==> r.pic == Some(M8Picture(file)))
  {
    var filename := M8FileName(origname);
    r := Loaded(false, None, 0, 0);
    if filename !in files {
      return;
    }
    var texData := files[filename];
    var w := M8Width(texData);
    var h := M8Height(texData);
    var offs := M8Offset(texData);
    r := r.(width := w, height := h);
    if wantPic {
      var outData := M8ToRgba(texData, offs, w * h);
      r := r.(pic := Some(outData[..]));
    }
    r := r.(ok := true);
  }

  /** The conversion loop of `LoadM8`: the cursor `cur` advances four bytes per pixel. */
  method M8ToRgba(texData: seq<byte>, offs: nat, numPixels: nat) returns (outData: array<byte>)
    requires |texData| >= M8_HEADER_SIZE && offs + numPixels <= |texData|
    ensures fresh(outData) && outData[..] == M8Rgba(texData, offs, numPixels)
  {
    ghost var spec := M8Rgba(texData, offs, numPixels);
    outData := new byte[numPixels * 4];
    var cur := 0;
    var i := 0;
    while i < numPixels
      invariant 0 <= i <= numPixels && cur == 4 * i
      invariant forall k | 0 <= k < Rgba(i, 0) :: outData[k] == spec[k]
    {
      var palEntry := texData[offs + i];
      M8RgbaPixel(texData, offs, numPixels, i, 0);
      M8RgbaPixel(texData, offs, numPixels, i, 1);
      M8RgbaPixel(texData, offs, numPixels, i, 2);
      M8RgbaPixel(texData, offs, numPixels, i, 3);
      outData[Rgba(i, 0)] := PaletteByte(texData, palEntry, 0);
      outData[Rgba(i, 1)] := PaletteByte(texData, palEntry, 1);
      outData[Rgba(i, 2)] := PaletteByte(texData, palEntry, 2);
      outData[Rgba(i, 3)] := 255;
      cur := cur + 4;
      i := i + 1;
    }
    assert outData[..] == spec;
  }

  /** `GetM8Info`: `LoadM8` without a picture; the dimensions stay 0 when the file cannot be loaded. */
  method GetM8Info(name: string, files: map<string, seq<byte>>) returns (width: int, height: int)
    requires M8FileName(name) in files ==> |files[M8FileName(name)]| >= M8_HEADER_SIZE
    ensures M8FileName(name) !in files ==> width == 0 && height == 0
    ensures M8FileName(name) in files ==>
              width == M8Width(files[M8FileName(name)]) && height == M8Height(files[M8FileName(name)])
  {
    var r := LoadM8(name, files, false);
    width, height := r.width, r.height;
  }

  // ---------------------------------------------------------------- .m32

  /**
   * A header field read as it lies in memory, without `LittleLong`: its
   * value depends on the byte order of the host.
   */
  function HostU32(file: seq<byte>, at: nat, bigEndianHost: bool): (r: nat)
    requires at + 4 <= |file|
    ensures r < UINT32_LIMIT
  {
    if bigEndianHost then U32BE(file, at) else U32LE(file, at)
  }

  function M32Width(file: seq<byte>, bigEndianHost: bool): int
    requires |file| >= M32_HEADER_SIZE
  {
    AsInt32(HostU32(file, M32_WIDTHS, bigEndianHost))
  }

  function M32Height(file: seq<byte>, bigEndianHost: bool): int
    requires |file| >= M32_HEADER_SIZE
  {
    AsInt32(HostU32(file, M32_HEIGHTS, bigEndianHost))
  }

  function M32Offset(file: seq<byte>, bigEndianHost: bool): int
    requires |file| >= M32_HEADER_SIZE
  {
    AsInt32(HostU32(file, M32_OFFSETS, bigEndianHost))
  }

  /** What `LoadM32` needs of a file it copies: the whole header, and the RGBA bytes of level 0 inside the file. */
  predicate M32Readable(file: seq<byte>, bigEndianHost: bool)
  {
    && |file| >= M32_HEADER_SIZE
    && LevelInFile(|file|, M32Width(file, bigEndianHost), M32Height(file, bigEndianHost), M32Offset(file, bigEndianHost), 4)
  }

  /**
   * The `.m8` size fields go through `LittleLong`: a header that stores the
   * width least significant byte first gives that width back, whatever the
   * host.
   */
  lemma M8HeaderRoundTrip(v: nat, prefix: seq<byte>, suffix: seq<byte>)
    requires v < UINT32_LIMIT && |prefix| == M8_WIDTHS && |prefix| + 4 + |suffix| >= M8_HEADER_SIZE
    ensures M8Width(prefix + LE32(v) + suffix) == AsInt32(v)
  {
    LE32RoundTrip(v, prefix, suffix);
  }

  /**
   * The `.m32` size fields are read as they lie in memory. A header that
   * stores the width least significant byte first gives it back on a
   * little-endian host; on a big-endian host a width below 256 is read as
   * that width times 2^24.
   */
  lemma HeaderByteOrder(v: nat, prefix: seq<byte>, suffix: seq<byte>)
    requires v < UINT32_LIMIT && |prefix| == M32_WIDTHS && |prefix| + 4 + |suffix| >= M32_HEADER_SIZE
    ensures M32Width(prefix + LE32(v) + suffix, false) == AsInt32(v)
    ensures 0 < v < 0x100 ==> M32Width(prefix + LE32(v) + suffix, true) == AsInt32(v * 0x100_0000)
    ensures 0 < v < 0x100 ==> M32Width(prefix + LE32(v) + suffix, true) != M32Width(prefix + LE32(v) + suffix, false)
  {
    LE32RoundTrip(v, prefix, suffix);
    if 0 < v < 0x100 {
      var s := prefix + LE32(v) + suffix;
      var p := |prefix|;
      assert LE32(v) == [v as byte, 0, 0, 0];
      assert s[p] == v as byte && s[p + 1] == 0 && s[p + 2] == 0 && s[p + 3] == 0;
      assert U32BE(s, p) == v * 0x100_0000;
    }
  }

  /** Level 0 of a readable `.m32` file: its `4 * w * h` bytes at the offset, unchanged. */
  function M32Picture(file: seq<byte>, bigEndianHost: bool): (r: seq<byte>)
    requires M32Readable(file, bigEndianHost)
  {
    M32Level(file, M32Width(file, bigEndianHost), M32Height(file, bigEndianHost), M32Offset(file, bigEndianHost))
  }

  /** The `4 * w * h` bytes at `offs`. */
  function M32Level(file: seq<byte>, w: int, h: int, offs: int): (r: seq<byte>)
    requires LevelInFile(|file|, w, h, offs, 4)
    ensures |r| == 4 * (w * h)
  {
    file[offs..offs + 4 * (w * h)]
  }

  /** The `memcpy` of `LoadM32`: `numPixels` RGBA pixels from `offs` into a new buffer. */
  method CopyPixels(texData: seq<byte>, offs: nat, numPixels: nat) returns (outData: array<byte>)
    requires offs + 4 * numPixels <= |texData|
    ensures fresh(outData) && outData[..] == texData[offs..offs + 4 * numPixels]
  {
    outData := new byte[numPixels * 4];
    forall k | 0 <= k < numPixels * 4 {
      outData[k] := texData[offs + k];
    }
    assert outData[..] == texData[offs..offs + 4 * numPixels];
  }

  /** The picture branch of `LoadM32`: `numPixels` is `w * h`. */
  method M32ToRgba(texData: seq<byte>, w: int, h: int, offs: int) returns (outData: array<byte>)
    requires LevelInFile(|texData|, w, h, offs, 4)
    ensures fresh(outData) && outData[..] == M32Level(texData, w, h, offs)
  {
    var numPixels := w * h;
    outData := CopyPixels(texData, offs, numPixels);
  }

  /**
   * `LoadM32`. `wantPic` is whether `pic` is non-null; the dimensions are
   * always reported. The picture is the `4 * w * h` bytes at level 0's
   * offset, unchanged.
   */
  method LoadM32(origname: string, files: map<string, seq<byte>>, wantPic: bool, bigEndianHost: bool) returns (r: Loaded)
    requires M32FileName(origname) in files ==>
               |files[M32FileName(origname)]| >= M32_HEADER_SIZE
               && (wantPic ==> M32Readable(files[M32FileName(origname)], bigEndianHost))
    ensures M32FileName(origname) !in files ==> r == Loaded(false, None, 0, 0)
    ensures M32FileName(origname) in files ==>
              var file := files[M32FileName(origname)];
              && r.ok && r.width == M32Width(file, bigEndianHost) && r.height == M32Height(file, bigEndianHost)
              && (!wantPic ==> r.pic == None)
              && (wantPic ==> r.pic == Some(M32Picture(file, bigEndianHost)))
  {
    var filename := M32FileName(origname);
    r := Loaded(false, None, 0, 0);
    if filename !in files {
      return;
    }
    var texData := files[filename];
    var w := M32Width(texData, bigEndianHost);
    var h := M32Height(texData, bigEndianHost);
    var offs := M32Offset(texData, bigEndianHost);
    r := r.(width := w, height := h);
    if wantPic {
      var outData := M32ToRgba(texData, w, h, offs);
      r := r.(pic := Some(outData[..]));
    }
    r := r.(ok := true);
  }

  /** `GetM32Info`: `LoadM32` without a picture; the dimensions stay 0 when the file cannot be loaded. */
  method GetM32Info(name: string, files: map<string, seq<byte>>, bigEndianHost: bool) returns (width: int, height: int)
    requires M32FileName(name) in files ==> |files[M32FileName(name)]| >= M32_HEADER_SIZE
    ensures M32FileName(name) !in files ==> width == 0 && height == 0
    ensures M32FileName(name) in files ==>
              width == M32Width(files[M32FileName(name)], bigEndianHost)
              && height == M32Height(files[M32FileName(name)], bigEndianHost)
  {
    var r := LoadM32(name, files, false, bigEndianHost);
    width, height := r.width, r.height;
  }
}
