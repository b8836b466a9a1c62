/** Machine integers of the Rust source and the native-endian conversion between a
    `u32` word and its four bytes (`u32::to_ne_bytes` / `u32::from_ne_bytes`). */
module Words {

  datatype Option<+T> = None | Some(value: T)

  datatype Result<+T, +E> = Ok(value: T) | Err(error: E)

  const U32_MAX: int := 0xFFFF_FFFF
  const I32_MAX: int := 0x7FFF_FFFF
  const I32_MIN: int := -0x8000_0000
  /** `usize`, taken as 64 bits wide; 32-bit targets are not modelled. */
  const USIZE_MAX: int := 0xFFFF_FFFF_FFFF_FFFF
  /** Rust never makes a slice longer than `isize::MAX` elements. */
  const ISIZE_MAX: int := 0x7FFF_FFFF_FFFF_FFFF

  type u8 = x: int | 0 <= x < 0x100
  type u32 = x: int | 0 <= x <= U32_MAX
  type i32 = x: int | I32_MIN <= x <= I32_MAX
  type usize = x: int | 0 <= x <= USIZE_MAX

  /** The platform's native byte order: a fixed property of the target, not of the program. */
  datatype Endian = Little | Big

  /** Little-endian bytes of a word: least significant byte first. */
  function LeBytes(w: u32): (b: seq<u8>)
    ensures |b| == 4
  {
    [w % 0x100, (w / 0x100) % 0x100, (w / 0x1_0000) % 0x100, w / 0x100_0000]
  }

  /** The word whose little-endian bytes are `b`. */
  function LeWord(b: seq<u8>): u32
    requires |b| == 4
  {
    var b0: int, b1: int, b2: int, b3: int := b[0], b[1], b[2], b[3];
    b0 + 0x100 * (b1 + 0x100 * (b2 + 0x100 * b3))
  }

  function Reverse4(b: seq<u8>): (r: seq<u8>)
    requires |b| == 4
    ensures |r| == 4 && r[0] == b[3] && r[1] == b[2] && r[2] == b[1] && r[3] == b[0]
  {
    [b[3], b[2], b[1], b[0]]
  }

  /** `u32::to_ne_bytes`: the four bytes of `w` in native order. */
  function WordBytes(e: Endian, w: u32): (b: seq<u8>)
    ensures |b| == 4
  {
    match e
    case Little => LeBytes(w)
    case Big => Reverse4(LeBytes(w))
  }

  /** `u32::from_ne_bytes`: the word whose native-order bytes are `b`. */
  function WordOf(e: Endian, b: seq<u8>): u32
    requires |b| == 4
  {
    match e
    case Little => LeWord(b)
    case Big => LeWord(Reverse4(b))
  }

  /** Splitting off the low byte of `lo + 256 * hi` gives back `lo` and `hi`. */
  lemma SplitByte(lo: int, hi: int)
    requires 0 <= lo < 0x100 && 0 <= hi
    ensures (lo + 0x100 * hi) % 0x100 == lo && (lo + 0x100 * hi) / 0x100 == hi
  {
  }

  lemma LeWordBytes(w: u32)
    ensures LeWord(LeBytes(w)) == w
  {
  }

  lemma LeBytesWord(b: seq<u8>)
    requires |b| == 4
    ensures LeBytes(LeWord(b)) == b
  {
    var w := LeWord(b);
    var b1: int, b2: int, b3: int := b[1], b[2], b[3];
    SplitByte(b[0], b1 + 0x100 * (b2 + 0x100 * b3));
    SplitByte(b[1], b2 + 0x100 * b3);
    SplitByte(b[2], b[3]);
    assert w / 0x100 / 0x100 == w / 0x1_0000;
    assert w / 0x1_0000 / 0x100 == w / 0x100_0000;
  }

  /** `from_ne_bytes(to_ne_bytes(w)) == w`, whatever the native order. */
  lemma WordRoundTrip(e: Endian, w: u32)
    ensures WordOf(e, WordBytes(e, w)) == w
  {
    LeWordBytes(w);
    if e == Big {
      assert Reverse4(Reverse4(LeBytes(w))) == LeBytes(w);
    }
  }

  /** `to_ne_bytes(from_ne_bytes(b)) == b`, whatever the native order. */
  lemma BytesRoundTrip(e: Endian, b: seq<u8>)
    requires |b| == 4
    ensures WordBytes(e, WordOf(e, b)) == b
  {
    match e
    case Little => LeBytesWord(b);
    case Big =>
      LeBytesWord(Reverse4(b));
      assert Reverse4(Reverse4(b)) == b;
  }

  /** `n` zero bytes. */
  function Zeros(n: nat): (z: seq<u8>)
    ensures |z| == n && forall i :: 0 <= i < n ==> z[i] == 0
  {
    seq(n, _ => 0)
  }
}
