/**
 * Big-endian integer assembly exactly as the decoder writes it: a sum of
 * bytes shifted with JavaScript's signed 32-bit `<<` operator.
 */
module BigEndian {

  /** One element of the input buffer (a `Uint8Array` entry). */
  type Byte = b: int | 0 <= b < 0x100

  const TWO_31: int := 0x8000_0000
  const TWO_32: int := 0x1_0000_0000

  predicate IsInt32(v: int) {
    -TWO_31 <= v < TWO_31
  }

  predicate IsUint32(v: int) {
    0 <= v < TWO_32
  }

  predicate IsUint16(v: int) {
    0 <= v < 0x1_0000
  }

  function Pow2(n: nat): (r: nat)
    ensures r > 0
  {
    if n == 0 then 1 else 2 * Pow2(n - 1)
  }

  /** ECMAScript ToInt32: the signed 32-bit integer congruent to `v` modulo 2^32. */
  function ToInt32(v: int): (r: int)
    ensures IsInt32(r)
    ensures (v - r) % TWO_32 == 0
    ensures IsInt32(v) ==> r == v
  {
    var m := v % TWO_32;
    if m >= TWO_31 then m - TWO_32 else m
  }

  /** JavaScript `x << n` for a shift count below 32. */
  function ShiftLeft(x: int, n: nat): (r: int)
    requires n < 32
    ensures IsInt32(r)
  {
    ToInt32(ToInt32(x) * Pow2(n))
  }

  /**
   * The unsigned reading of the four bytes at `i`, most significant first:
   * the bit pattern a `DataView.setInt32` of them stores.
   */
  function Unsigned32At(buf: seq<Byte>, i: nat): (r: nat)
    requires i + 4 <= |buf|
    ensures IsUint32(r)
  {
    (buf[i] as int) * 0x100_0000 + (buf[i + 1] as int) * 0x1_0000 + (buf[i + 2] as int) * 0x100 + buf[i + 3]
  }

  /** The unsigned 16-bit big-endian value at `i`. */
  function U16At(buf: seq<Byte>, i: nat): (r: int)
    requires i + 2 <= |buf|
    ensures IsUint16(r)
  {
    (buf[i] as int) * 0x100 + buf[i + 1]
  }

  /**
   * The two's-complement reading of the four big-endian bytes at `i`:
   * negative exactly when the first byte has its top bit set.
   */
  function Int32At(buf: seq<Byte>, i: nat): (r: int)
    requires i + 4 <= |buf|
    ensures IsInt32(r)
    ensures r < 0 <==> buf[i] >= 0x80
  {
    var u := Unsigned32At(buf, i);
    if buf[i] < 0x80 then u else u - TWO_32
  }

  /** The source's `(b0 << 8) + b1` is the unsigned 16-bit value. */
  lemma {:induction false} U16AtIsShiftSum(buf: seq<Byte>, i: nat)
    requires i + 2 <= |buf|
    ensures ShiftLeft(buf[i], 8) + buf[i + 1] == U16At(buf, i)
  {
    assert Pow2(8) == 0x100;
  }

  /**
   * The source's `(b0 << 24) + (b1 << 16) + (b2 << 8) + b3`: since `<<` yields
   * a signed 32-bit result, the sum is the two's-complement value, negative
   * for a first byte of 0x80 or more.
   */
  lemma {:induction false} Int32AtIsShiftSum(buf: seq<Byte>, i: nat)
    requires i + 4 <= |buf|
    ensures ShiftLeft(buf[i], 24) + ShiftLeft(buf[i + 1], 16) + ShiftLeft(buf[i + 2], 8) + buf[i + 3]
            == Int32At(buf, i)
  {
    assert Pow2(8) == 0x100 && Pow2(16) == 0x1_0000 && Pow2(24) == 0x100_0000;
  }

  /**
   * Storing the signed value with `setInt32` keeps exactly the four bytes:
   * the two's-complement value and the unsigned pattern agree modulo 2^32.
   */
  lemma {:induction false} Int32AtBitPattern(buf: seq<Byte>, i: nat)
    requires i + 4 <= |buf|
    ensures Int32At(buf, i) % TWO_32 == Unsigned32At(buf, i)
  {
  }

  /** The two bytes whose 16-bit big-endian reading is `v`. */
  function EncodeU16(v: int): (bs: seq<Byte>)
    requires IsUint16(v)
    ensures |bs| == 2
  {
    [v / 0x100, v % 0x100]
  }

  /** The four bytes whose unsigned big-endian reading is `u`. */
  function EncodeUint32(u: int): (bs: seq<Byte>)
    requires IsUint32(u)
    ensures |bs| == 4
  {
    [u / 0x100_0000, (u / 0x1_0000) % 0x100, (u / 0x100) % 0x100, u % 0x100]
  }

  /** The four bytes whose two's-complement big-endian reading is `v`. */
  function EncodeInt32(v: int): (bs: seq<Byte>)
    requires IsInt32(v)
    ensures |bs| == 4
  {
    EncodeUint32(v % TWO_32)
  }

  lemma {:induction false} U16RoundTrip(v: int)
    requires IsUint16(v)
    ensures U16At(EncodeU16(v), 0) == v
  {
  }

  lemma {:induction false} U16Bijective(bs: seq<Byte>)
    requires |bs| == 2
    ensures EncodeU16(U16At(bs, 0)) == bs
  {
  }

  /** Reassembling the four bytes of `EncodeInt32` gives back the unsigned residue. */
  lemma {:induction false} Unsigned32OfDigits(u: int)
    requires 0 <= u < TWO_32
    ensures (u / 0x100_0000) * 0x100_0000 + ((u / 0x1_0000) % 0x100) * 0x1_0000
            + ((u / 0x100) % 0x100) * 0x100 + u % 0x100 == u
  {
    var q1 := u / 0x100;
    var q2 := u / 0x1_0000;
    var q3 := u / 0x100_0000;
    assert q2 == q1 / 0x100;
    assert q3 == q2 / 0x100;
    assert u == q1 * 0x100 + u % 0x100;
    assert q1 == q2 * 0x100 + q1 % 0x100;
    assert q2 == q3 * 0x100 + q2 % 0x100;
  }

  /** Splitting an unsigned 32-bit value into digits base 256 recovers the bytes. */
  lemma {:induction false} DigitsOfUnsigned32(bs: seq<Byte>)
    requires |bs| == 4
    ensures var u := Unsigned32At(bs, 0);
            && u / 0x100_0000 == bs[0] && (u / 0x1_0000) % 0x100 == bs[1]
            && (u / 0x100) % 0x100 == bs[2] && u % 0x100 == bs[3]
  {
    var u := Unsigned32At(bs, 0);
    var q1 := (bs[0] as int) * 0x1_0000 + (bs[1] as int) * 0x100 + bs[2];
    var q2 := (bs[0] as int) * 0x100 + bs[1];
    assert u == q1 * 0x100 + bs[3];
    assert u / 0x100 == q1 && u % 0x100 == bs[3];
    assert u == q2 * 0x1_0000 + (bs[2] as int) * 0x100 + bs[3];
    assert u / 0x1_0000 == q2;
    assert q1 % 0x100 == bs[2];
    assert q2 % 0x100 == bs[1];
    assert u / 0x100_0000 == bs[0];
  }

  lemma {:induction false} Uint32RoundTrip(u: int)
    requires IsUint32(u)
    ensures Unsigned32At(EncodeUint32(u), 0) == u
  {
    Unsigned32OfDigits(u);
  }

  lemma {:induction false} Uint32Bijective(bs: seq<Byte>)
    requires |bs| == 4
    ensures EncodeUint32(Unsigned32At(bs, 0)) == bs
  {
    DigitsOfUnsigned32(bs);
  }

  lemma {:induction false} Int32RoundTrip(v: int)
    requires IsInt32(v)
    ensures Int32At(EncodeInt32(v), 0) == v
  {
    Uint32RoundTrip(v % TWO_32);
  }

  lemma {:induction false} Int32Bijective(bs: seq<Byte>)
    requires |bs| == 4
    ensures EncodeInt32(Int32At(bs, 0)) == bs
  {
    Int32AtBitPattern(bs, 0);
    Uint32Bijective(bs);
  }
}
