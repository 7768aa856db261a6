/** Little-endian fixed-width integer encoding (`support::endian::write64le`). */
module Endian {
  import opened Ints

  /** 256^n: the number of values an n-byte field can hold. */
  function Pow256(n: nat): (p: nat)
    ensures p > 0
  {
    if n == 0 then 1 else 256 * Pow256(n - 1)
  }

  lemma Pow256Eight()
    ensures Pow256(8) == 0x1_0000_0000_0000_0000
  {
  }

  /** `x` written as `n` bytes, least significant byte first. */
  function ToLE(x: nat, n: nat): (bytes: seq<byte>)
    ensures |bytes| == n
  {
    if n == 0 then [] else [(x % 256) as byte] + ToLE(x / 256, n - 1)
  }

  /** The number whose little-endian bytes are `bytes`. */
  function FromLE(bytes: seq<byte>): (x: nat)
    ensures x < Pow256(|bytes|)
  {
    if |bytes| == 0 then 0
    else
      var high := FromLE(bytes[1..]);
      assert high + 1 <= Pow256(|bytes| - 1);
      assert 256 * (high + 1) <= 256 * Pow256(|bytes| - 1);
      bytes[0] as nat + 256 * high
  }

  /** Decoding the n-byte encoding of a value that fits gives the value back. */
  lemma {:induction false} FromLEToLE(x: nat, n: nat)
    requires x < Pow256(n)
    ensures FromLE(ToLE(x, n)) == x
  {
    if n > 0 {
      assert x / 256 < Pow256(n - 1);
      FromLEToLE(x / 256, n - 1);
      assert ToLE(x, n)[1..] == ToLE(x / 256, n - 1);
    }
  }

  /** Encoding the value of a byte string in as many bytes gives it back. */
  lemma {:induction false} ToLEFromLE(bytes: seq<byte>)
    ensures ToLE(FromLE(bytes), |bytes|) == bytes
  {
    if |bytes| > 0 {
      var x := FromLE(bytes);
      assert x == bytes[0] as nat + 256 * FromLE(bytes[1..]);
      assert x % 256 == bytes[0] as nat;
      assert x / 256 == FromLE(bytes[1..]);
      ToLEFromLE(bytes[1..]);
      assert bytes == [bytes[0]] + bytes[1..];
    }
  }

  lemma MulLeft(d: nat, a: nat, b: nat)
    ensures a <= b ==> d * a <= d * b
  {
    if a <= b {
      assert d * b == d * a + d * (b - a);
    }
  }

  /** The quotient is the only q with x == d * q + r and 0 <= r < d. */
  lemma DivUnique(x: nat, d: nat, q: nat, r: nat)
    requires d > 0 && x == d * q + r && r < d
    ensures x / d == q
  {
    var q', r' := x / d, x % d;
    assert x == d * q' + r' && r' < d;
    var above', above := q' + 1, q + 1;
    MulLeft(d, above', q);
    MulLeft(d, above, q');
    assert d * above' == d * q' + d;
    assert d * above == d * q + d;
  }

  lemma MulDistrib(a: nat, b: nat, q: nat, r: nat)
    ensures a * (b * q + r) == (a * b) * q + a * r
  {
    assert a * (b * q + r) == a * (b * q) + a * r;
  }

  lemma MulBelow(a: nat, r: nat, b: nat)
    requires r < b
    ensures a * r + a <= a * b
  {
    var next := r + 1;
    MulLeft(a, next, b);
    assert a * next == a * r + a;
  }

  /** x == a * (b * q2 + r2) + r with both remainders in range makes q2 the
      quotient of x by a * b. */
  lemma QuotientOfProduct(x: nat, a: nat, b: nat, q2: nat, r2: nat, r: nat)
    requires a > 0 && b > 0 && r < a && r2 < b
    requires x == a * (b * q2 + r2) + r
    ensures x / (a * b) == q2
  {
    MulDistrib(a, b, q2, r2);
    MulBelow(a, r2, b);
    var ab, low := a * b, a * r2 + r;
    assert x == ab * q2 + low && low < ab;
    DivUnique(x, ab, q2, low);
  }

  /** Dividing by a then by b is dividing by a * b. */
  lemma DivDiv(x: nat, a: nat, b: nat)
    requires a > 0 && b > 0
    ensures x / a / b == x / (a * b)
  {
    var q, r := x / a, x % a;
    var q2, r2 := q / b, q % b;
    assert q == b * q2 + r2;
    QuotientOfProduct(x, a, b, q2, r2, r);
  }

  /** Byte i of the n-byte encoding is digit i of x in base 256. */
  lemma {:induction false} ToLEDigit(x: nat, n: nat, i: nat)
    requires i < n
    ensures ToLE(x, n)[i] as nat == (x / Pow256(i)) % 256
  {
    if i > 0 {
      ToLEDigit(x / 256, n - 1, i - 1);
      DivDiv(x, 256, Pow256(i - 1));
    }
  }

  /** `write64le`: the eight little-endian bytes of a 64-bit value. */
  function Write64le(v: uint64): (bytes: seq<byte>)
    ensures |bytes| == 8
    ensures forall i :: 0 <= i < 8 ==> bytes[i] as nat == (v as nat / Pow256(i)) % 256
  {
    var bytes := ToLE(v as nat, 8);
    forall i | 0 <= i < 8
      ensures bytes[i] as nat == (v as nat / Pow256(i)) % 256
    {
      ToLEDigit(v as nat, 8, i);
    }
    bytes
  }

  /** `read64le`: the 64-bit value of eight little-endian bytes. */
  function Read64le(bytes: seq<byte>): (v: uint64)
    requires |bytes| == 8
  {
    Pow256Eight();
    FromLE(bytes) as uint64
  }

  /** Reading back the bytes written for a value gives the value. */
  lemma Read64leWrite64le(v: uint64)
    ensures Read64le(Write64le(v)) == v
  {
    Pow256Eight();
    FromLEToLE(v as nat, 8);
  }

  /** Writing the value read from eight bytes gives the bytes. */
  lemma Write64leRead64le(bytes: seq<byte>)
    requires |bytes| == 8
    ensures Write64le(Read64le(bytes)) == bytes
  {
    ToLEFromLE(bytes);
  }

  /** The encoding of zero is eight zero bytes. */
  lemma Write64leZero()
    ensures Write64le(0) == [0, 0, 0, 0, 0, 0, 0, 0]
  {
    var bytes := Write64le(0);
    forall i | 0 <= i < 8
      ensures bytes[i] == 0
    {
      assert 0 / Pow256(i) == 0;
    }
  }
}
