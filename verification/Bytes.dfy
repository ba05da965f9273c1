/** Machine integers of the C sources: bytes, 32-bit words, their little-endian
    image in memory, and unsigned 32-bit arithmetic written out modulo 2^32. */
module Bytes {

  datatype Option<+T> = None | Some(value: T)

  const TWO32 := 0x1_0000_0000

  type byte = x: int | 0 <= x < 256
  type u32 = x: int | 0 <= x < 0x1_0000_0000
  /** A file descriptor: a non-negative `int32_t`. */
  type Fd = x: int | 0 <= x < 0x8000_0000

  function Add32(a: int, b: int): u32 { (a + b) % TWO32 }

  function Sub32(a: int, b: int): u32 { (a - b) % TWO32 }

  /** Ids from here on are allocated by servers. */
  const SERVER_ID_START := 0xff000000

  /** `DIV_ROUNDUP(n, sizeof(uint32_t))`. */
  function Roundup(n: nat): (words: nat)
    ensures n <= 4 * words < n + 4
  {
    (n + 3) / 4
  }

  /** Number of bytes of `n` bytes padded to whole 32-bit words. */
  function Round4(n: nat): (m: nat)
    ensures m % 4 == 0 && n <= m < n + 4
  {
    4 * Roundup(n)
  }

  function Le32(w: u32): (b: seq<byte>)
    ensures |b| == 4
  {
    [w % 256, w / 256 % 256, w / 65536 % 256, w / 16777216]
  }

  function Word(b: seq<byte>): u32
    requires |b| == 4
  {
    var b0: int, b1: int, b2: int, b3: int := b[0], b[1], b[2], b[3];
    b0 + 256 * b1 + 65536 * b2 + 16777216 * b3
  }

  lemma WordOfLe32(w: u32)
    ensures Word(Le32(w)) == w
  {
    assert w / 65536 == w / 256 / 256 && w / 16777216 == w / 256 / 256 / 256;
  }

  lemma Le32OfWord(b: seq<byte>)
    requires |b| == 4
    ensures Le32(Word(b)) == b
  {
    var w := Word(b);
    var b1: int, b2: int, b3: int := b[1], b[2], b[3];
    assert w / 256 == b1 + 256 * b2 + 65536 * b3;
    assert w / 65536 == b2 + 256 * b3;
    assert w / 16777216 == b3;
  }

  /** File descriptors as they lie in a descriptor ring: four bytes each. */
  function FdBytes(fds: seq<Fd>): (b: seq<byte>)
    ensures |b| == 4 * |fds|
  {
    if fds == [] then [] else Le32(fds[0]) + FdBytes(fds[1..])
  }

  lemma {:induction false} FdBytesConcat(a: seq<Fd>, b: seq<Fd>)
    ensures FdBytes(a + b) == FdBytes(a) + FdBytes(b)
  {
    hide Le32, FdBytes;
    FdBytesAre([]);
    if a == [] {
      assert a + b == b && [] + FdBytes(b) == FdBytes(b);
    } else {
      FdBytesConcat(a[1..], b);
      assert (a + b)[1..] == a[1..] + b && (a + b)[0] == a[0];
      FdBytesAre(a);
      FdBytesAre(a + b);
      Associative(Le32(a[0]), FdBytes(a[1..]), FdBytes(b));
    }
  }

  lemma {:induction false} FdBytesAre(fds: seq<Fd>)
    ensures FdBytes(fds) == if fds == [] then [] else Le32(fds[0]) + FdBytes(fds[1..])
  {
  }

  lemma Associative<T>(x: seq<T>, y: seq<T>, z: seq<T>)
    ensures (x + y) + z == x + (y + z)
  {
  }

  /** Taking whole descriptors from the front of the byte image. */
  lemma {:induction false} FdBytesTake(fds: seq<Fd>, n: nat)
    requires n <= |fds|
    ensures FdBytes(fds[..n]) == FdBytes(fds)[..4 * n]
    ensures FdBytes(fds[n..]) == FdBytes(fds)[4 * n..]
  {
    assert fds == fds[..n] + fds[n..];
    FdBytesConcat(fds[..n], fds[n..]);
  }

  lemma {:induction false} ModShift(r: int, k: int)
    ensures (r + k * 4096) % 4096 == r % 4096
  {
  }

  lemma SliceOfSlice<T>(s: seq<T>, p: nat, e: nat, i: nat, j: nat)
    requires i <= j && p + j <= e <= |s|
    ensures s[p..e][i..j] == s[p + i..p + j]
  {
    forall k | i <= k < j ensures s[p..e][k] == s[p + k] {
    }
  }
}
