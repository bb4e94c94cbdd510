/** Bytes, fixed-width numbers and their big-endian form. */
module Bytes {
  type Byte = n: int | 0 <= n < 0x100
  type U16 = n: int | 0 <= n < 0x1_0000
  type U32 = n: int | 0 <= n < 0x1_0000_0000
  type U64 = n: int | 0 <= n < 0x1_0000_0000_0000_0000

  /** `as u32` keeps the low 32 bits. */
  const U32_RANGE := 0x1_0000_0000

  /** Native lengths are 64 bits wide. */
  const USIZE_MAX := 0xFFFF_FFFF_FFFF_FFFF

  /** The largest integer up to which a double holds every integer. */
  const MAX_SAFE_INTEGER := 0x1F_FFFF_FFFF_FFFF

  function Bit(flag: bool): (n: nat)
    ensures n < 2
  {
    if flag then 1 else 0
  }

  /** The `n` low bytes of a number, highest first. */
  function BigEndian(value: nat, n: nat): (bytes: seq<Byte>)
    ensures |bytes| == n
  {
    if n == 0 then [] else BigEndian(value / 0x100, n - 1) + [value % 0x100]
  }

  function FromBigEndian(bytes: seq<Byte>): nat {
    if bytes == [] then 0 else FromBigEndian(bytes[..|bytes| - 1]) * 0x100 + bytes[|bytes| - 1]
  }

  function Power256(n: nat): nat {
    if n == 0 then 1 else 0x100 * Power256(n - 1)
  }

  lemma {:induction false} NumberReadsBack(value: nat, n: nat)
    requires value < Power256(n)
    ensures FromBigEndian(BigEndian(value, n)) == value
  {
    if n > 0 {
      NumberReadsBack(value / 0x100, n - 1);
      assert BigEndian(value, n)[..n - 1] == BigEndian(value / 0x100, n - 1);
    }
  }

  lemma {:induction false} BytesReadBack(bytes: seq<Byte>)
    ensures FromBigEndian(bytes) < Power256(|bytes|)
    ensures BigEndian(FromBigEndian(bytes), |bytes|) == bytes
  {
    if bytes != [] {
      var front := bytes[..|bytes| - 1];
      BytesReadBack(front);
      var value := FromBigEndian(bytes);
      assert value / 0x100 == FromBigEndian(front) && value % 0x100 == bytes[|bytes| - 1];
    }
  }

  lemma Widths()
    ensures Power256(2) == 0x1_0000 && Power256(4) == U32_RANGE && Power256(8) == 0x1_0000_0000_0000_0000
  {
    assert Power256(1) == 0x100;
    assert Power256(2) == 0x1_0000;
    assert Power256(3) == 0x100_0000;
    assert Power256(4) == U32_RANGE;
    assert Power256(5) == 0x100_0000_0000;
    assert Power256(6) == 0x1_0000_0000_0000;
    assert Power256(7) == 0x100_0000_0000_0000;
  }
}
