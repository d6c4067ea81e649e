/**
 * The integer codec of types/types.go: a Go `int` (64 bits wide) is widened
 * to `int64` and written as 8 bytes in network byte order (big-endian, two's
 * complement); decoding reads the first 8 bytes back.
 */
module Types {
  import opened Widths

  newtype byte = x: int | 0 <= x < 256

  newtype int64 = x: int | -0x8000_0000_0000_0000 <= x < 0x8000_0000_0000_0000

  const TWO_TO_THE_63: int := 0x8000_0000_0000_0000
  const TWO_TO_THE_56: int := 0x100_0000_0000_0000

  /** 256 to the power w: the number of distinct values of w bytes. */
  function Pow256(w: nat): (p: nat)
    ensures p > 0
  {
    if w == 0 then 1 else 256 * Pow256(w - 1)
  }

  /** The unsigned value of a byte string read most significant byte first. */
  function Unsigned(b: seq<byte>): nat
  {
    if b == [] then 0 else Unsigned(b[..|b| - 1]) * 256 + b[|b| - 1] as nat
  }

  /** The w low-order bytes of u, most significant first. */
  function BigEndian(u: nat, w: nat): (r: seq<byte>)
    ensures |r| == w
  {
    if w == 0 then [] else BigEndian(u / 256, w - 1) + [(u % 256) as byte]
  }

  /** The 64-bit two's-complement bit pattern of n, read as an unsigned number. */
  function TwosComplement(n: int64): (u: nat)
    ensures u < TWO_TO_THE_64
    ensures n >= 0 ==> u == n as int
    ensures n < 0 ==> u == n as int + TWO_TO_THE_64
  {
    (n as int) % TWO_TO_THE_64
  }

  /** The signed int64 whose two's-complement bit pattern is u. */
  function FromTwosComplement(u: nat): (n: int64)
    requires u < TWO_TO_THE_64
    ensures TwosComplement(n) == u
  {
    if u < TWO_TO_THE_63 then u as int64 else (u - TWO_TO_THE_64) as int64
  }

  /** IntToByte (types/types.go:16-21). */
  function IntToByte(num: int64): (r: seq<byte>)
    ensures |r| == 8
  {
    BigEndian(TwosComplement(num), 8)
  }

  /**
   * ByteToInt (types/types.go:8-14): `binary.Read` fills the int64 from the
   * first 8 bytes; with fewer than 8 it fails before writing, the error is
   * discarded and the zero-initialised value is returned.
   */
  function ByteToInt(b: seq<byte>): (n: int64)
    ensures |b| < 8 ==> n == 0
    ensures |b| >= 8 ==> TwosComplement(n) == Unsigned(b[..8])
  {
    if |b| < 8 then 0 else UnsignedBound8(b[..8]); FromTwosComplement(Unsigned(b[..8]))
  }

  lemma Pow256At8()
    ensures Pow256(8) == TWO_TO_THE_64
    ensures Pow256(7) == TWO_TO_THE_56
  {
    assert Pow256(7) == 256 * Pow256(6) == 256 * 256 * Pow256(5);
  }

  lemma UnsignedBound8(b: seq<byte>)
    requires |b| == 8
    ensures Unsigned(b) < TWO_TO_THE_64
  {
    UnsignedBound(b);
    Pow256At8();
  }

  lemma {:induction false} UnsignedBound(b: seq<byte>)
    ensures Unsigned(b) < Pow256(|b|)
  {
    if b != [] {
      var p := b[..|b| - 1];
      UnsignedBound(p);
      assert Unsigned(b) == Unsigned(p) * 256 + b[|b| - 1] as nat;
      assert Unsigned(p) + 1 <= Pow256(|p|);
      assert Unsigned(p) * 256 + 256 <= Pow256(|p|) * 256;
    }
  }

  /** Decoding w big-endian bytes of u gives u back, whenever u fits in w bytes. */
  lemma {:induction false} DecodeEncode(u: nat, w: nat)
    requires u < Pow256(w)
    ensures Unsigned(BigEndian(u, w)) == u
  {
    if w > 0 {
      var r := BigEndian(u, w);
      assert u / 256 < Pow256(w - 1);
      DecodeEncode(u / 256, w - 1);
      assert r[..|r| - 1] == BigEndian(u / 256, w - 1);
    }
  }

  /** Encoding the value of a byte string in as many bytes gives the string back. */
  lemma {:induction false} EncodeDecode(b: seq<byte>)
    ensures BigEndian(Unsigned(b), |b|) == b
  {
    if b != [] {
      var p := b[..|b| - 1];
      var u := Unsigned(b);
      assert u == Unsigned(p) * 256 + b[|b| - 1] as nat;
      assert u / 256 == Unsigned(p) && u % 256 == b[|b| - 1] as nat;
      EncodeDecode(p);
    }
  }

  /** (u / a) / c == u / (a * c) for positive divisors. */
  lemma DivDiv(u: nat, a: nat, c: nat)
    requires a > 0 && c > 0
    ensures (u / a) / c == u / (a * c)
  {
    var q, r := u / a, u % a;
    var q2, r2 := q / c, q % c;
    var s := a * r2 + r;
    assert a * q == a * (c * q2) + a * r2 by {
      MulAdd(a, c * q2, r2);
    }
    assert a * (c * q2) == (a * c) * q2;
    assert u == (a * c) * q2 + s;
    assert s < a * c by {
      MulLe(a, r2, c - 1);
      MulAdd(a, c - 1, 1);
    }
    DivUnique(u, a * c, q2, s);
  }

  lemma MulAdd(a: int, b: int, c: int)
    ensures a * (b + c) == a * b + a * c
  {
  }

  lemma MulLe(a: nat, b: nat, c: nat)
    requires b <= c
    ensures a * b <= a * c
  {
    MulAdd(a, b, c - b);
  }

  lemma DivUnique(u: nat, d: nat, q: nat, r: nat)
    requires d > 0 && r < d && u == d * q + r
    ensures u / d == q
  {
    var q0, r0 := u / d, u % d;
    assert d * q0 + r0 == d * q + r;
    if q0 < q {
      MulAdd(d, q0, q - q0);
      MulLe(d, 1, q - q0);
      assert false;
    } else if q0 > q {
      MulAdd(d, q, q0 - q);
      MulLe(d, 1, q0 - q);
      assert false;
    }
  }

  /** Byte i of the w-byte big-endian encoding of u is digit w-1-i of u in base 256. */
  lemma {:induction false} BigEndianAt(u: nat, w: nat, i: nat)
    requires i < w
    ensures BigEndian(u, w)[i] as int == (u / Pow256(w - 1 - i)) % 256
  {
    if i < w - 1 {
      BigEndianAt(u / 256, w - 1, i);
      DivDiv(u, 256, Pow256(w - 2 - i));
    }
  }

  /**
   * IntToByte always yields exactly 8 bytes, byte i holding the base-256
   * digit of weight 256^(7-i) of the two's-complement pattern: byte 0 is the
   * most significant, and a negative input has its top bit set.
   */
  lemma IntToByteLayout(num: int64)
    ensures |IntToByte(num)| == 8
    ensures forall i :: 0 <= i < 8 ==>
      IntToByte(num)[i] as int == (TwosComplement(num) / Pow256(7 - i)) % 256
    ensures IntToByte(num)[0] as int == TwosComplement(num) / TWO_TO_THE_56
    ensures num < 0 <==> IntToByte(num)[0] >= 128
  {
    forall i | 0 <= i < 8
      ensures IntToByte(num)[i] as int == (TwosComplement(num) / Pow256(7 - i)) % 256
    {
      BigEndianAt(TwosComplement(num), 8, i);
    }
    Pow256At8();
  }

  /** Decoding an encoding gives the original integer back. */
  lemma ByteToIntIntToByte(num: int64)
    ensures ByteToInt(IntToByte(num)) == num
  {
    Pow256At8();
    DecodeEncode(TwosComplement(num), 8);
    assert IntToByte(num)[..8] == IntToByte(num);
  }

  /** Re-encoding a decoded value gives back the first 8 bytes of the input. */
  lemma IntToByteByteToInt(b: seq<byte>)
    requires |b| >= 8
    ensures IntToByte(ByteToInt(b)) == b[..8]
  {
    UnsignedBound8(b[..8]);
    EncodeDecode(b[..8]);
  }

  /** Only the first 8 bytes are read: trailing bytes never change the result. */
  lemma ByteToIntIgnoresTrailing(b: seq<byte>, trailing: seq<byte>)
    requires |b| >= 8
    ensures ByteToInt(b + trailing) == ByteToInt(b)
  {
    assert (b + trailing)[..8] == b[..8];
  }

  /** An input shorter than 8 bytes decodes to 0, the int64's zero value. */
  lemma ShortInputDecodesToZero(b: seq<byte>)
    requires |b| < 8
    ensures ByteToInt(b) == 0
  {
  }

  /** -1 is the all-ones pattern; 1 sets only the last byte. */
  lemma EncodingExamples()
    ensures IntToByte(-1) == [255, 255, 255, 255, 255, 255, 255, 255]
    ensures IntToByte(1) == [0, 0, 0, 0, 0, 0, 0, 1]
  {
  }
}
