/**
 * Java's fixed-width integers as the ledger uses them: `byte`, `int` and
 * `long`, the wrap-around of `int` arithmetic, `Math.abs`, and the
 * big-endian byte layout that `ByteBuffer.putInt` / `putLong` produce.
 */
module JavaInts {

  const TWO_31: int := 0x8000_0000
  const TWO_32: int := 0x1_0000_0000
  const TWO_64: int := 0x1_0000_0000_0000_0000

  /** Java `byte`: signed, two's complement. */
  type Int8 = x: int | -0x80 <= x < 0x80
  /** Java `int`. */
  type Int32 = x: int | -0x8000_0000 <= x < 0x8000_0000
  /** Java `long`. */
  type Int64 = x: int | -0x8000_0000_0000_0000 <= x < 0x8000_0000_0000_0000

  const INT32_MIN: Int32 := -0x8000_0000
  const INT32_MAX: Int32 := 0x7fff_ffff

  /** The `int` that holds the mathematical value x after any number of overflows: x reduced modulo 2^32 into range. */
  function Wrap32(x: int): (r: Int32)
    ensures -TWO_31 <= x < TWO_31 ==> r == x
  {
    (x + TWO_31) % TWO_32 - TWO_31
  }

  /** Wrapping changes a value by a multiple of 2^32: q is that multiple. */
  lemma Wrap32Quotient(x: int) returns (q: int)
    ensures x - Wrap32(x) == q * TWO_32
  {
    q := (x + TWO_31) / TWO_32;
  }

  /** Two values that differ by a multiple of 2^32 wrap to the same `int`. */
  lemma Wrap32Congruent(x: int, y: int, k: int)
    requires x - y == k * TWO_32
    ensures Wrap32(x) == Wrap32(y)
  {
    var qx := Wrap32Quotient(x);
    var qy := Wrap32Quotient(y);
    assert Wrap32(x) - Wrap32(y) == (k - qx + qy) * TWO_32;
  }

  /** Wrapping both operands of a sum does not change the wrapped sum. */
  lemma Wrap32Sum(x: int, y: int, total: int)
    requires x + y == total
    ensures Wrap32(Wrap32(x) + Wrap32(y)) == Wrap32(total)
  {
    var qx := Wrap32Quotient(x);
    var qy := Wrap32Quotient(y);
    Wrap32Congruent(Wrap32(x) + Wrap32(y), total, -qx - qy);
  }

  /** Java's `a + b` on `int`s: the exact sum, moved back into range when it overflows. */
  function Add32(a: Int32, b: Int32): (r: Int32)
    ensures INT32_MIN <= a as int + b <= INT32_MAX ==> r == a as int + b
  {
    var s := a as int + b;
    if s > INT32_MAX then s - TWO_32 else if s < INT32_MIN then s + TWO_32 else s
  }

  /** Java's `a - b` on `int`s. */
  function Sub32(a: Int32, b: Int32): (r: Int32)
    ensures INT32_MIN <= a as int - b <= INT32_MAX ==> r == a as int - b
  {
    var s := a as int - b;
    if s > INT32_MAX then s - TWO_32 else if s < INT32_MIN then s + TWO_32 else s
  }

  /** One Java addition is the wrapped mathematical sum. */
  lemma Add32Wraps(a: Int32, b: Int32)
    ensures Add32(a, b) == Wrap32(a as int + b)
  {
    var s := a as int + b;
    if s > INT32_MAX {
      Wrap32Congruent(s, s - TWO_32, 1);
    } else if s < INT32_MIN {
      Wrap32Congruent(s, s + TWO_32, -1);
    }
  }

  /** One Java subtraction is the wrapped mathematical difference. */
  lemma Sub32Wraps(a: Int32, b: Int32)
    ensures Sub32(a, b) == Wrap32(a as int - b)
  {
    var s := a as int - b;
    if s > INT32_MAX {
      Wrap32Congruent(s, s - TWO_32, 1);
    } else if s < INT32_MIN {
      Wrap32Congruent(s, s + TWO_32, -1);
    }
  }

  /** Incrementing an `int` counter that holds Wrap32(n) gives Wrap32(n + 1). */
  lemma Wrap32Increment(n: int)
    ensures Add32(Wrap32(n), 1) == Wrap32(n + 1)
  {
    var q := Wrap32Quotient(n);
    Add32Wraps(Wrap32(n), 1);
    Wrap32Congruent(Wrap32(n) + 1, n + 1, -q);
  }

  /** Moving d from one `int` to another keeps their Java sum: (a - d) + (b + d) == a + b. */
  lemma Add32Moved(a: Int32, b: Int32, d: Int32)
    ensures Add32(Sub32(a, d), Add32(b, d)) == Add32(a, b)
  {
    Sub32Wraps(a, d);
    Add32Wraps(b, d);
    Add32Wraps(Sub32(a, d), Add32(b, d));
    Add32Wraps(a, b);
    Wrap32Sum(a as int - d, b as int + d, a as int + b);
  }

  /** Java's `Math.abs(int)`: the negation wraps, so the minimum is its own absolute value. */
  function Abs32(x: Int32): (r: Int32)
    ensures x != INT32_MIN ==> r >= 0 && (r == x || r == -x)
    ensures x == INT32_MIN ==> r == INT32_MIN
  {
    if x < 0 then Sub32(0, x) else x
  }

  /** Java's `Byte.toUnsignedInt`. */
  function Unsigned8(b: Int8): (u: nat)
    ensures u < 0x100 && (u - b) % 0x100 == 0
  {
    if b < 0 then b + 0x100 else b
  }

  /** The `byte` whose unsigned value is u: Java's narrowing cast `(byte) u`. */
  function Signed8(u: nat): (b: Int8)
    requires u < 0x100
    ensures Unsigned8(b) == u
  {
    if u < 0x80 then u else u - 0x100
  }

  function Pow256(n: nat): (p: nat)
    ensures p >= 1
  {
    if n == 0 then 1 else 0x100 * Pow256(n - 1)
  }

  /** The n low-order bytes of u, most significant first. */
  function BigEndian(u: nat, n: nat): (bs: seq<Int8>)
    ensures |bs| == n
  {
    if n == 0 then [] else BigEndian(u / 0x100, n - 1) + [Signed8(u % 0x100)]
  }

  /** The unsigned value of a big-endian byte sequence. */
  function FromBigEndian(bs: seq<Int8>): (u: nat)
    ensures u < Pow256(|bs|)
  {
    if bs == [] then 0 else FromBigEndian(bs[..|bs| - 1]) * 0x100 + Unsigned8(bs[|bs| - 1])
  }

  lemma {:induction false} BigEndianRoundTrip(u: nat, n: nat)
    requires u < Pow256(n)
    ensures FromBigEndian(BigEndian(u, n)) == u
  {
    if n > 0 {
      var bs := BigEndian(u, n);
      assert bs[..n - 1] == BigEndian(u / 0x100, n - 1);
      BigEndianRoundTrip(u / 0x100, n - 1);
    }
  }

  /** `ByteBuffer.allocate(4).putInt(x).array()`: two's complement, big-endian. */
  function PutInt(x: Int32): (bs: seq<Int8>)
    ensures |bs| == 4
  {
    BigEndian(x % TWO_32, 4)
  }

  /** `ByteBuffer.allocate(8).putLong(x).array()`: two's complement, big-endian. */
  function PutLong(x: Int64): (bs: seq<Int8>)
    ensures |bs| == 8
  {
    BigEndian(x % TWO_64, 8)
  }

  /** `ByteBuffer.wrap(bs).getInt()`: the inverse of PutInt. */
  function GetInt(bs: seq<Int8>): Int32
    requires |bs| == 4
  {
    assert Pow256(4) == TWO_32;
    var u := FromBigEndian(bs);
    if u < TWO_31 then u else u - TWO_32
  }

  /** `ByteBuffer.wrap(bs).getLong()`: the inverse of PutLong. */
  function GetLong(bs: seq<Int8>): Int64
    requires |bs| == 8
  {
    assert Pow256(8) == TWO_64;
    var u := FromBigEndian(bs);
    if u < TWO_64 / 2 then u else u - TWO_64
  }

  lemma PutIntRoundTrip(x: Int32)
    ensures GetInt(PutInt(x)) == x
  {
    assert Pow256(4) == TWO_32;
    BigEndianRoundTrip(x % TWO_32, 4);
  }

  lemma PutLongRoundTrip(x: Int64)
    ensures GetLong(PutLong(x)) == x
  {
    assert Pow256(8) == TWO_64;
    BigEndianRoundTrip(x % TWO_64, 8);
  }
}
