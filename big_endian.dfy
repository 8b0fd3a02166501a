/**
 * The big-endian integers of the atlas file, as Python's struct module
 * writes and reads them: '>I' (four bytes) and '>H' (two bytes).
 * Reading past the end of the buffer is struct.error, here None.
 */
module BigEndian {
  import opened Wrappers
  import opened SeqFacts

  type Byte = b: int | 0 <= b < 256

  const TwoTo16: nat := 0x1_0000
  const TwoTo32: nat := 0x1_0000_0000

  /** struct.pack('>I', n): the four base-256 digits of `n`, most significant first. */
  function PackU32(n: nat): (r: seq<Byte>)
    requires n < TwoTo32
    ensures |r| == 4
  {
    var q1 := n / 256;
    var q2 := q1 / 256;
    var q3 := q2 / 256;
    [q3, q2 % 256, q1 % 256, n % 256]
  }

  /** struct.unpack_from('>I', buf, off). */
  function UnpackU32(buf: seq<Byte>, off: nat): (r: Option<nat>)
    ensures r.Some? <==> off + 4 <= |buf|
    ensures r.Some? ==> r.value < TwoTo32
  {
    if off + 4 <= |buf| then
      Some(((buf[off] as int * 256 + buf[off + 1] as int) * 256 + buf[off + 2] as int) * 256 + buf[off + 3] as int)
    else None
  }

  /** struct.pack('>H', n). */
  function PackU16(n: nat): (r: seq<Byte>)
    requires n < TwoTo16
    ensures |r| == 2
  {
    [n / 256, n % 256]
  }

  /** struct.unpack_from('>H', buf, off). */
  function UnpackU16(buf: seq<Byte>, off: nat): (r: Option<nat>)
    ensures r.Some? <==> off + 2 <= |buf|
    ensures r.Some? ==> r.value < TwoTo16
  {
    if off + 2 <= |buf| then Some(buf[off] as int * 256 + buf[off + 1] as int) else None
  }

  /** The digits '>I' packs spell the number back. */
  lemma Digits32(n: nat)
    requires n < TwoTo32
    ensures var p := PackU32(n); ((p[0] as int * 256 + p[1] as int) * 256 + p[2] as int) * 256 + p[3] as int == n
  {
    var q1 := n / 256;
    var q2 := q1 / 256;
    assert n == q1 * 256 + n % 256;
    assert q1 == q2 * 256 + q1 % 256;
    assert q2 == (q2 / 256) * 256 + q2 % 256;
  }

  /** A packed '>I' found at `off` reads back there. */
  lemma U32At(buf: seq<Byte>, off: nat, n: nat)
    requires n < TwoTo32 && At(buf, off, PackU32(n))
    ensures UnpackU32(buf, off) == Some(n)
  {
    var p := PackU32(n);
    AtIndex(buf, off, p);
    assert buf[off] == p[0] && buf[off + 1] == p[1] && buf[off + 2] == p[2] && buf[off + 3] == p[3];
    Digits32(n);
  }

  /** A packed '>H' found at `off` reads back there. */
  lemma U16At(buf: seq<Byte>, off: nat, n: nat)
    requires n < TwoTo16 && At(buf, off, PackU16(n))
    ensures UnpackU16(buf, off) == Some(n)
  {
    var p := PackU16(n);
    AtIndex(buf, off, p);
    assert buf[off] == p[0] && buf[off + 1] == p[1];
  }
}
