/** Bytes, the little-endian signed 32-bit integer layout of Python's
    `struct` format "<l", and the file read that feeds it. */
module Int32Codec {

  /** One byte of a file opened in binary mode. */
  newtype byte = b: int | 0 <= b < 256

  const INT32_MIN: int := -0x8000_0000
  const INT32_MAX: int := 0x7FFF_FFFF

  /** Number of bytes of one "<l" item. */
  const INT32_SIZE: nat := 4

  predicate IsInt32(x: int) {
    INT32_MIN <= x <= INT32_MAX
  }

  datatype Option<T> = None | Some(value: T)

  /** The unsigned value of four bytes, least significant first. */
  function Unsigned32(s: seq<byte>): (u: int)
    requires |s| == 4
    ensures 0 <= u < 0x1_0000_0000
  {
    s[0] as int + 0x100 * (s[1] as int + 0x100 * (s[2] as int + 0x100 * (s[3] as int)))
  }

  /** Two's-complement reading of four little-endian bytes. */
  function Int32FromLE(s: seq<byte>): (x: int)
    requires |s| == 4
    ensures IsInt32(x)
    ensures x < 0 <==> s[3] >= 0x80
  {
    var u := Unsigned32(s);
    if u <= INT32_MAX then u else u - 0x1_0000_0000
  }

  /** The four little-endian bytes of a signed 32-bit value. */
  function Int32ToLE(x: int): (s: seq<byte>)
    requires IsInt32(x)
    ensures |s| == 4
  {
    var u := if x < 0 then x + 0x1_0000_0000 else x;
    var q1 := u / 0x100;
    var q2 := q1 / 0x100;
    [(u % 0x100) as byte, (q1 % 0x100) as byte, (q2 % 0x100) as byte, (q2 / 0x100) as byte]
  }

  lemma DecodeEncodeInt32(x: int)
    requires IsInt32(x)
    ensures Int32FromLE(Int32ToLE(x)) == x
  {
  }

  lemma EncodeDecodeInt32(s: seq<byte>)
    requires |s| == 4
    ensures Int32ToLE(Int32FromLE(s)) == s
  {
    var u := Unsigned32(s);
    var q1 := s[1] as int + 0x100 * (s[2] as int + 0x100 * (s[3] as int));
    var q2 := s[2] as int + 0x100 * (s[3] as int);
    assert u == s[0] as int + 0x100 * q1;
    assert u / 0x100 == q1 && u % 0x100 == s[0] as int;
    assert q1 / 0x100 == q2 && q1 % 0x100 == s[1] as int;
    assert q2 / 0x100 == s[3] as int && q2 % 0x100 == s[2] as int;
  }

  /** `struct.unpack("<l", s)`: fails unless the buffer holds exactly four bytes. */
  function UnpackL(s: seq<byte>): (r: Option<int>)
    ensures r.Some? <==> |s| == INT32_SIZE
    ensures r.Some? ==> IsInt32(r.value) && Int32ToLE(r.value) == s
    ensures r.Some? ==> r.value == Int32At(s, 0)
  {
    if |s| != INT32_SIZE then None
    else
      EncodeDecodeInt32(s);
      Some(Int32FromLE(s))
  }

  /** `struct.unpack("<ll", s)`: two "<l" items, in order; fails unless the
      buffer holds exactly eight bytes. */
  function UnpackLL(s: seq<byte>): (r: Option<(int, int)>)
    ensures r.Some? <==> |s| == 2 * INT32_SIZE
    ensures r.Some? ==> IsInt32(r.value.0) && IsInt32(r.value.1)
    ensures r.Some? ==> Int32ToLE(r.value.0) + Int32ToLE(r.value.1) == s
    ensures r.Some? ==> r.value == (Int32At(s, 0), Int32At(s, INT32_SIZE))
  {
    if |s| != 2 * INT32_SIZE then None
    else
      EncodeDecodeInt32(s[..4]);
      EncodeDecodeInt32(s[4..]);
      assert s == s[..4] + s[4..];
      Some((Int32FromLE(s[..4]), Int32FromLE(s[4..])))
  }

  /** `f.read(n)` on a file holding `data` whose cursor is at `pos`: the next
      `n` bytes, or all that remain when fewer than `n` do. */
  function ReadAt(data: seq<byte>, pos: nat, n: nat): (chunk: seq<byte>)
    ensures pos + n <= |data| ==> chunk == data[pos..pos + n]
    ensures |chunk| <= n
    ensures pos + n > |data| && n > 0 ==> |chunk| < n
    ensures pos <= |data| && pos + n > |data| ==> chunk == data[pos..]
    ensures pos >= |data| ==> chunk == []
  {
    if pos >= |data| then []
    else if pos + n <= |data| then data[pos..pos + n]
    else data[pos..]
  }

  /** The "<l" item stored at byte offset `pos`. */
  function Int32At(data: seq<byte>, pos: nat): (x: int)
    requires pos + INT32_SIZE <= |data|
    ensures IsInt32(x)
  {
    Int32FromLE(data[pos..pos + INT32_SIZE])
  }
}
