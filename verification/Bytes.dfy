/** Bytes, fixed-width unsigned integers and their little-endian encoding. */
module Bytes {

  type byte = b: int | 0 <= b < 256

  const U32_MAX: nat := 0xFFFF_FFFF
  const U64_MAX: nat := 0xFFFF_FFFF_FFFF_FFFF

  type u64 = n: int | 0 <= n <= 0xFFFF_FFFF_FFFF_FFFF

  /** The number of values that `width` bytes can hold. */
  function Pow256(width: nat): (r: nat)
    ensures r >= 1
  {
    if width == 0 then 1 else 256 * Pow256(width - 1)
  }

  /** The `width` low bytes of `value`, least significant first. */
  function ToLe(value: nat, width: nat): (bytes: seq<byte>)
    ensures |bytes| == width
  {
    if width == 0 then [] else [value % 256] + ToLe(value / 256, width - 1)
  }

  /** The number whose little-endian encoding is `bytes`. */
  function FromLe(bytes: seq<byte>): (value: nat)
    ensures value < Pow256(|bytes|)
  {
    if bytes == [] then 0 else bytes[0] + 256 * FromLe(bytes[1..])
  }

  lemma {:induction false} FromToLe(value: nat, width: nat)
    requires value < Pow256(width)
    ensures FromLe(ToLe(value, width)) == value
  {
    if width > 0 {
      FromToLe(value / 256, width - 1);
      assert ToLe(value, width)[1..] == ToLe(value / 256, width - 1);
    }
  }

  lemma {:induction false} ToFromLe(bytes: seq<byte>)
    ensures ToLe(FromLe(bytes), |bytes|) == bytes
  {
    if bytes != [] {
      ToFromLe(bytes[1..]);
      assert bytes == [bytes[0]] + bytes[1..];
    }
  }

  lemma Pow256Widths()
    ensures Pow256(4) == U32_MAX + 1
    ensures Pow256(8) == U64_MAX + 1
  {
    assert Pow256(4) == 256 * Pow256(3);
    assert Pow256(8) == 256 * Pow256(7);
    assert Pow256(6) == 256 * Pow256(5);
  }

  lemma U64RoundTrip(value: u64)
    ensures FromLe(ToLe(value, 8)) == value
  {
    Pow256Widths();
    FromToLe(value, 8);
  }

  /** Little-endian numbers, byte by byte. */
  lemma LittleEndian(value: nat)
    ensures ToLe(value, 4) == [value % 256, value / 256 % 256, value / 65536 % 256, value / 16777216 % 256]
    ensures ToLe(value, 8) == ToLe(value, 4) + ToLe(value / 4294967296, 4)
  {
    var v1, v2, v3, v4 := value / 256, value / 65536, value / 16777216, value / 4294967296;
    assert v1 / 256 == v2 && v2 / 256 == v3 && v3 / 256 == v4;
    assert ToLe(v3, 1) == [v3 % 256] + ToLe(v4, 0);
    assert ToLe(v2, 2) == [v2 % 256] + ToLe(v3, 1);
    assert ToLe(v1, 3) == [v1 % 256] + ToLe(v2, 2);
    assert ToLe(v3, 5) == [v3 % 256] + ToLe(v4, 4);
    assert ToLe(v2, 6) == [v2 % 256] + ToLe(v3, 5);
    assert ToLe(v1, 7) == [v1 % 256] + ToLe(v2, 6);
  }
}
