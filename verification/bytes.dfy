/** Big-endian encoding of the fixed-width signed integers the wire protocol uses.
    Go's `int16`/`int32` are two's complement and wrap on overflow; both are written out here. */
module BigEndian {

  type byte = x: int | 0 <= x < 0x100
  type int16 = x: int | -0x8000 <= x < 0x8000
  type int32 = x: int | -0x8000_0000 <= x < 0x8000_0000

  const TWO16: nat := 0x1_0000
  const TWO32: nat := 0x1_0000_0000

  /** 256^n, the number of values n bytes can hold. */
  function Pow256(n: nat): (r: nat)
    ensures r >= 1
  {
    if n == 0 then 1 else 256 * Pow256(n - 1)
  }

  lemma Pow256Values()
    ensures Pow256(2) == TWO16
    ensures Pow256(4) == TWO32
  {
    assert Pow256(1) == 256;
    assert Pow256(3) == 256 * TWO16;
  }

  /** The unsigned value of a big-endian byte string. */
  function FromBE(s: seq<byte>): (u: nat)
    ensures u < Pow256(|s|)
  {
    if |s| == 0 then 0 else FromBE(s[..|s| - 1]) * 256 + s[|s| - 1]
  }

  /** The n-byte big-endian representation of an unsigned value that fits in n bytes. */
  function ToBE(u: nat, n: nat): (s: seq<byte>)
    requires u < Pow256(n)
    ensures |s| == n
  {
    if n == 0 then [] else ToBE(u / 256, n - 1) + [u % 256]
  }

  /** Reading back what was written yields the value written. */
  lemma {:induction false} FromToBE(u: nat, n: nat)
    requires u < Pow256(n)
    ensures FromBE(ToBE(u, n)) == u
  {
    if n > 0 {
      var s := ToBE(u, n);
      assert s[..n - 1] == ToBE(u / 256, n - 1);
      FromToBE(u / 256, n - 1);
    }
  }

  /** Writing back what was read yields the bytes read: every byte string is some value's encoding. */
  lemma {:induction false} ToFromBE(s: seq<byte>)
    ensures ToBE(FromBE(s), |s|) == s
  {
    if |s| > 0 {
      var init := s[..|s| - 1];
      var u := FromBE(s);
      assert u / 256 == FromBE(init) && u % 256 == s[|s| - 1];
      ToFromBE(init);
      assert s == init + [s[|s| - 1]];
    }
  }

  /** The value of two bytes, written out. */
  lemma FromBE2(s: seq<byte>)
    requires |s| == 2
    ensures FromBE(s) == (s[0] as int) * 0x100 + s[1] as int
  {
    assert s[..1][..0] == [];
  }

  /** The value of four bytes, written out. */
  lemma FromBE4(s: seq<byte>)
    requires |s| == 4
    ensures FromBE(s) == (s[0] as int) * 0x100_0000 + (s[1] as int) * 0x1_0000 + (s[2] as int) * 0x100 + s[3] as int
  {
    assert s[..3][..2] == s[..2];
    assert s[..2][..1] == s[..1];
    assert s[..1][..0] == [];
    assert FromBE(s[..1]) == s[0];
    assert FromBE(s[..2]) == (s[0] as int) * 0x100 + s[1] as int;
    assert FromBE(s[..3]) == ((s[0] as int) * 0x100 + s[1] as int) * 0x100 + s[2] as int;
  }

  /** Two's complement reinterpretation of a 16-bit unsigned value (Go's `int16(u)`). */
  function Signed16(u: nat): (x: int16)
    requires u < TWO16
    ensures x % TWO16 == u
  {
    if u < 0x8000 then u else u - TWO16
  }

  /** The unsigned bit pattern of a 16-bit signed value (Go's `uint16(x)`). */
  function Unsigned16(x: int16): (u: nat)
    ensures u < TWO16 && u % TWO16 == x % TWO16
  {
    if x < 0 then x + TWO16 else x
  }

  /** Two's complement reinterpretation of a 32-bit unsigned value (Go's `int32(u)`). */
  function Signed32(u: nat): (x: int32)
    requires u < TWO32
    ensures x % TWO32 == u
  {
    if u < 0x8000_0000 then u else u - TWO32
  }

  /** The unsigned bit pattern of a 32-bit signed value (Go's `uint32(x)`). */
  function Unsigned32(x: int32): (u: nat)
    ensures u < TWO32 && u % TWO32 == x % TWO32
  {
    if x < 0 then x + TWO32 else x
  }

  /** Go's wrap-around conversion of an unbounded integer result to `int32`. */
  function Wrap32(x: int): (w: int32)
    ensures w % TWO32 == x % TWO32
    ensures -0x8000_0000 <= x < 0x8000_0000 ==> w == x
  {
    Signed32(x % TWO32)
  }

  /** `BigEndian.PutInt16`: the two bytes of a signed 16-bit value. */
  function PutInt16(x: int16): (s: seq<byte>)
    ensures |s| == 2
  {
    Pow256Values();
    ToBE(Unsigned16(x), 2)
  }

  /** `BigEndian.Int16`: the signed 16-bit value of two bytes. */
  function Int16(s: seq<byte>): (x: int16)
    requires |s| == 2
  {
    Pow256Values();
    Signed16(FromBE(s))
  }

  /** `BigEndian.PutInt32`: the four bytes of a signed 32-bit value. */
  function PutInt32(x: int32): (s: seq<byte>)
    ensures |s| == 4
  {
    Pow256Values();
    ToBE(Unsigned32(x), 4)
  }

  /** `BigEndian.Int32`: the signed 32-bit value of four bytes. */
  function Int32(s: seq<byte>): (x: int32)
    requires |s| == 4
  {
    Pow256Values();
    Signed32(FromBE(s))
  }

  lemma Int16RoundTrip(x: int16)
    ensures Int16(PutInt16(x)) == x
  {
    Pow256Values();
    FromToBE(Unsigned16(x), 2);
  }

  lemma Int32RoundTrip(x: int32)
    ensures Int32(PutInt32(x)) == x
  {
    Pow256Values();
    FromToBE(Unsigned32(x), 4);
  }

  lemma PutInt16Onto(s: seq<byte>)
    requires |s| == 2
    ensures PutInt16(Int16(s)) == s
  {
    Pow256Values();
    ToFromBE(s);
  }

  lemma PutInt32Onto(s: seq<byte>)
    requires |s| == 4
    ensures PutInt32(Int32(s)) == s
  {
    Pow256Values();
    ToFromBE(s);
  }
}
