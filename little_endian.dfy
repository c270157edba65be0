/*
 * Little-endian byte encoding of unsigned integers, the byte order the
 * librpc packet layout is documented in (librpc.h: "rpc_packet define
 * (little endian)").
 */
module LittleEndian {

  /** The fixed-width unsigned integers of <stdint.h>. */
  newtype uint8 = x: int | 0 <= x < 0x100
  newtype uint32 = x: int | 0 <= x < 0x1_0000_0000
  newtype uint64 = x: int | 0 <= x < 0x1_0000_0000_0000_0000

  /** 256 to the power n: the number of values n bytes can hold. */
  function Pow256(n: nat): (p: nat)
    ensures p >= 1
    ensures n >= 1 ==> p >= 256
  {
    if n == 0 then 1 else 256 * Pow256(n - 1)
  }

  /** The low n bytes of x, least-significant byte first. */
  function ToBytes(x: nat, n: nat): (s: seq<uint8>)
    ensures |s| == n
  {
    if n == 0 then [] else [(x % 256) as uint8] + ToBytes(x / 256, n - 1)
  }

  /** Byte i of the encoding is the base-256 digit of x of weight 256^i. */
  lemma {:induction false} ToBytesDigits(x: nat, n: nat, i: nat)
    requires i < n
    ensures ToBytes(x, n)[i] as nat == x / Pow256(i) % 256
  {
    if i > 0 {
      ToBytesDigits(x / 256, n - 1, i - 1);
      DivDiv256(x, Pow256(i - 1));
    }
  }

  /** The number whose least-significant-byte-first encoding is s. */
  function FromBytes(s: seq<uint8>): (x: nat)
    ensures x < Pow256(|s|)
  {
    if s == [] then 0 else s[0] as nat + 256 * FromBytes(s[1..])
  }

  /** Encoding a value that fits in n bytes and decoding it gives the value back. */
  lemma {:induction false} FromToBytes(x: nat, n: nat)
    requires x < Pow256(n)
    ensures FromBytes(ToBytes(x, n)) == x
  {
    if n > 0 {
      FromToBytes(x / 256, n - 1);
      assert ToBytes(x, n)[1..] == ToBytes(x / 256, n - 1);
    }
  }

  /** Decoding n bytes and encoding the result in n bytes gives the same bytes back. */
  lemma {:induction false} ToFromBytes(s: seq<uint8>)
    ensures ToBytes(FromBytes(s), |s|) == s
  {
    if s != [] {
      ToFromBytes(s[1..]);
      var x := FromBytes(s);
      assert x / 256 == FromBytes(s[1..]);
      assert x % 256 == s[0] as nat;
    }
  }

  /** Dividing by 256 and then by b is dividing by 256 * b. */
  lemma DivDiv256(x: nat, b: nat)
    requires b > 0
    ensures x / 256 / b == x / (256 * b)
  {
    var q, r := x / 256, x % 256;
    var q2, r2 := q / b, q % b;
    assert q == b * q2 + r2;
    var r' := 256 * r2 + r;
    assert 256 * q == 256 * b * q2 + 256 * r2 by {
      MulDistributes(256, b * q2, r2);
    }
    assert x == (256 * b) * q2 + r';
    assert r' < 256 * b by {
      MulMonotone(256, r2, b - 1);
    }
    DivUnique(x, 256 * b, q2, r');
  }

  lemma MulDistributes(a: int, b: int, c: int)
    ensures a * (b + c) == a * b + a * c
  {
  }

  lemma MulMonotone(a: nat, b: int, c: int)
    requires b <= c
    ensures a * b <= a * c
  {
  }

  /** The quotient is the unique q with x == d * q + r and 0 <= r < d. */
  lemma DivUnique(x: nat, d: nat, q: int, r: int)
    requires d > 0 && 0 <= r < d && x == d * q + r
    ensures x / d == q
  {
    var q0, r0 := x / d, x % d;
    assert x == d * q0 + r0;
    if q0 < q {
      MulMonotone(d, q0 + 1, q);
      MulDistributes(d, q0, 1);
      assert false;
    } else if q0 > q {
      MulMonotone(d, q + 1, q0);
      MulDistributes(d, q, 1);
      assert false;
    }
  }
}
