/**
 * Shared vocabulary of the software renderer model: bytes, optional values,
 * three-component vectors and the 32-bit little-endian reads used by the
 * texture decoders.
 */
module Common {

  /** C's `byte` / `unsigned char`. */
  type byte = b: int | 0 <= b < 256

  const UINT32_LIMIT: nat := 0x1_0000_0000

  /** A reference that may be NULL, or an output that may be absent. */
  datatype Option<T> = None | Some(value: T)

  /** `vec3_t`, with `real` components (rounding of `float` is not modelled). */
  datatype Vec3 = Vec3(x: real, y: real, z: real)

  const Origin := Vec3(0.0, 0.0, 0.0)

  /** `DotProduct` */
  function Dot(a: Vec3, b: Vec3): real
  {
    a.x * b.x + a.y * b.y + a.z * b.z
  }

  /** `VectorAdd` */
  function Add(a: Vec3, b: Vec3): Vec3
  {
    Vec3(a.x + b.x, a.y + b.y, a.z + b.z)
  }

  /** `VectorSubtract` */
  function Sub(a: Vec3, b: Vec3): Vec3
  {
    Vec3(a.x - b.x, a.y - b.y, a.z - b.z)
  }

  function Neg(a: Vec3): Vec3
  {
    Vec3(-a.x, -a.y, -a.z)
  }

  function Pow2(k: nat): (r: nat)
    ensures r >= 1
  {
    if k == 0 then 1 else 2 * Pow2(k - 1)
  }

  /** `s` cut to at most `n` characters, as a bounded C string copy does. */
  function Truncate<T>(s: seq<T>, n: nat): (r: seq<T>)
    ensures |r| == if |s| <= n then |s| else n
    ensures r == s[..|r|]
  {
    if |s| <= n then s else s[..n]
  }

  /** Bit `k` of a byte, as `b & (1 << k)` tests it. */
  predicate BitSet(b: byte, k: nat)
    requires k < 8
  {
    (b / Pow2(k)) % 2 == 1
  }

  /** The unsigned value of the four bytes at `at`, least significant first. */
  function U32LE(s: seq<byte>, at: nat): (r: nat)
    requires at + 4 <= |s|
    ensures r < UINT32_LIMIT
  {
    (s[at] as int) + 0x100 * (s[at + 1] as int) + 0x1_0000 * (s[at + 2] as int) + 0x100_0000 * (s[at + 3] as int)
  }

  /** The unsigned value of the four bytes at `at`, most significant first. */
  function U32BE(s: seq<byte>, at: nat): (r: nat)
    requires at + 4 <= |s|
    ensures r < UINT32_LIMIT
  {
    (s[at + 3] as int) + 0x100 * (s[at + 2] as int) + 0x1_0000 * (s[at + 1] as int) + 0x100_0000 * (s[at] as int)
  }

  /** Conversion of an `unsigned` to a two's-complement 32-bit `int`. */
  function AsInt32(u: nat): (r: int)
    requires u < UINT32_LIMIT
    ensures -0x8000_0000 <= r < 0x8000_0000
    ensures r % UINT32_LIMIT == u
  {
    if u < 0x8000_0000 then u else u - UINT32_LIMIT
  }

  /** The four bytes that store `v` least significant first. */
  function LE32(v: nat): (r: seq<byte>)
    requires v < UINT32_LIMIT
    ensures |r| == 4
  {
    var q0 := v / 0x100;
    var q1 := q0 / 0x100;
    [v % 0x100, q0 % 0x100, q1 % 0x100, q1 / 0x100]
  }

  /** Writing back what `U32LE` read gives the four bytes that were read. */
  lemma LE32OfU32LE(s: seq<byte>, at: nat)
    requires at + 4 <= |s|
    ensures LE32(U32LE(s, at)) == s[at..at + 4]
  {
    var v := U32LE(s, at);
    var b0, b1, b2, b3 := s[at] as int, s[at + 1] as int, s[at + 2] as int, s[at + 3] as int;
    var q1 := b2 + 0x100 * b3;
    var q0 := b1 + 0x100 * q1;
    assert v == b0 + 0x100 * q0;
    assert v / 0x100 == q0 && v % 0x100 == b0;
    assert q0 / 0x100 == q1 && q0 % 0x100 == b1;
    assert q1 / 0x100 == b3 && q1 % 0x100 == b2;
  }

  /** Reading back what `LE32` wrote gives the value that was written. */
  lemma LE32RoundTrip(v: nat, prefix: seq<byte>, suffix: seq<byte>)
    requires v < UINT32_LIMIT
    ensures U32LE(prefix + LE32(v) + suffix, |prefix|) == v
  {
    var s := prefix + LE32(v) + suffix;
    var p := |prefix|;
    var q0 := v / 0x100;
    var q1 := q0 / 0x100;
    assert v == v % 0x100 + 0x100 * q0;
    assert q0 == q0 % 0x100 + 0x100 * q1;
    assert q1 == q1 % 0x100 + 0x100 * (q1 / 0x100);
    assert s[p] == v % 0x100 && s[p + 1] == q0 % 0x100;
    assert s[p + 2] == q1 % 0x100 && s[p + 3] == q1 / 0x100;
  }
}
