/** Java's 32-bit `int` and its four-byte big-endian wire form, as written by
    `DataOutputStream.writeInt` and read back by `DataInputStream.readInt`. */
module Int32 {

  /** One byte of a binary stream. */
  type byte = x: int | 0 <= x < 256

  const TWO_31: int := 0x8000_0000
  const TWO_32: int := 0x1_0000_0000

  /** True if `x` fits a Java `int`. */
  predicate IsInt32(x: int) {
    -TWO_31 <= x < TWO_31
  }

  /** The two's-complement bit pattern of a Java `int`, read as an unsigned number. */
  function ToUnsigned(x: int): (u: nat)
    requires IsInt32(x)
    ensures u < TWO_32
    ensures u % TWO_32 == x % TWO_32
  {
    if x < 0 then x + TWO_32 else x
  }

  /** Inverse of `ToUnsigned`: a 32-bit pattern read as a signed Java `int`. */
  function ToSigned(u: nat): (x: int)
    requires u < TWO_32
    ensures IsInt32(x)
    ensures ToUnsigned(x) == u
  {
    if u < TWO_31 then u else u - TWO_32
  }

  /** 256 to the power `n`: the number of values `n` bytes can hold. */
  function Pow256(n: nat): (p: nat)
    ensures p >= 1
  {
    if n == 0 then 1 else 256 * Pow256(n - 1)
  }

  /** The value of a byte string taken most significant byte first. */
  function FromBytes(b: seq<byte>): (u: nat)
    ensures u < Pow256(|b|)
  {
    if b == [] then 0 else FromBytes(b[..|b| - 1]) * 256 + b[|b| - 1]
  }

  /** The low `n` bytes of `u`, most significant first. */
  function ToBytes(u: nat, n: nat): (r: seq<byte>)
    ensures |r| == n
  {
    if n == 0 then [] else ToBytes(u / 256, n - 1) + [u % 256]
  }

  lemma {:induction false} FromToBytes(u: nat, n: nat)
    requires u < Pow256(n)
    ensures FromBytes(ToBytes(u, n)) == u
  {
    if n > 0 {
      var r := ToBytes(u, n);
      assert r[..n - 1] == ToBytes(u / 256, n - 1);
      FromToBytes(u / 256, n - 1);
    }
  }

  lemma {:induction false} ToFromBytes(b: seq<byte>)
    ensures ToBytes(FromBytes(b), |b|) == b
  {
    if b != [] {
      var u := FromBytes(b);
      var init := b[..|b| - 1];
      assert u / 256 == FromBytes(init) && u % 256 == b[|b| - 1];
      ToFromBytes(init);
      assert init + [b[|b| - 1]] == b;
    }
  }

  /** `writeInt`: the low 32 bits of `x` as four bytes, high byte first.
      For a Java `int` these are exactly its two's-complement bits. */
  function Write(x: int): (r: seq<byte>)
    ensures |r| == 4
    ensures FromBytes(r) == x % TWO_32
  {
    FromToBytes(x % TWO_32, 4);
    ToBytes(x % TWO_32, 4)
  }

  /** `readInt` once four bytes are available. */
  function Read(b: seq<byte>): (x: int)
    requires |b| == 4
    ensures IsInt32(x)
    ensures ToUnsigned(x) == FromBytes(b)
  {
    ToSigned(FromBytes(b))
  }

  /** The first byte written carries the sign: it is at least 0x80 exactly
      for negative values. */
  lemma WriteSignByte(x: int)
    requires IsInt32(x)
    ensures x < 0 <==> Write(x)[0] >= 0x80
  {
    var u := x % TWO_32;
    var r := Write(x);
    assert r == ToBytes(u, 4);
    assert r[0] == u / 256 / 256 / 256 % 256;
  }

  /** Reading back what was written gives the same `int`. */
  lemma ReadWrite(x: int)
    requires IsInt32(x)
    ensures Read(Write(x)) == x
  {
  }

  /** Writing back what was read gives the same four bytes. */
  lemma WriteRead(b: seq<byte>)
    requires |b| == 4
    ensures Write(Read(b)) == b
  {
    var u := FromBytes(b);
    assert u % TWO_32 == u;
    ToFromBytes(b);
  }
}
