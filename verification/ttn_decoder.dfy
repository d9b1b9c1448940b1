/** The LoRaWAN uplink payload decoder (ttn_decoder_fp_v6.js): little-endian integers built with
    JavaScript's 32-bit `<<` and `|=`, fixed-width field readers that throw on a wrong length,
    the bit-string temperature reader, the status bitmap and the mask-driven `decode`.
    Values that the source turns into floating point are kept as exact integers: scaled
    numbers, or the sign, significand and exponent of a single-precision float. */
module TtnDecoder {
  import opened Common

  // ---------------------------------------------------------------------------------------
  // JavaScript's 32-bit integer operators

  const Two31: int := 0x8000_0000
  const Two32: int := 0x1_0000_0000

  /** ECMAScript's ToUint32: the number modulo 2^32. */
  function ToUint32(n: int): (r: nat)
    ensures r < Two32
    ensures 0 <= n < Two32 ==> r == n
  {
    n % Two32
  }

  /** ECMAScript's ToInt32: the number modulo 2^32, read as a signed 32-bit value. */
  function ToInt32(n: int): (r: int)
    ensures -Two31 <= r < Two31
    ensures ToUint32(r) == ToUint32(n)
    ensures 0 <= n < Two31 ==> r == n
  {
    var m := ToUint32(n);
    if m < Two31 then m else m - Two32
  }

  /** The bitwise OR of the lowest `n` bits of `a` and `b`. */
  function OrBits(a: nat, b: nat, n: nat): (r: nat)
    ensures r < Pow2(n)
    decreases n
  {
    if n == 0 then 0
    else 2 * OrBits(a / 2, b / 2, n - 1) + (if a % 2 == 1 || b % 2 == 1 then 1 else 0)
  }

  /** `x | y`: both operands as 32 bits, OR-ed, read as signed. */
  function BitOr(x: int, y: int): int
  {
    ToInt32(OrBits(ToUint32(x), ToUint32(y), 32))
  }

  /** `x << y`: the 32-bit value of `x` shifted by `y` modulo 32, overflowing bits dropped. */
  function ShiftLeft(x: int, y: int): int
  {
    ToInt32(ToInt32(x) * Pow2(ToUint32(y) % 32))
  }

  lemma {:induction false} OrBitsComm(a: nat, b: nat, n: nat)
    ensures OrBits(a, b, n) == OrBits(b, a, n)
    decreases n
  {
    if n > 0 {
      OrBitsComm(a / 2, b / 2, n - 1);
    }
  }

  lemma {:induction false} OrBitsZero(b: nat, n: nat)
    requires b < Pow2(n)
    ensures OrBits(0, b, n) == b
    decreases n
  {
    if n > 0 {
      OrBitsZero(b / 2, n - 1);
    }
  }

  /** When `a` lies below bit `m` and the other operand is a multiple of `2^m`, their bits do not
      overlap and OR is addition. */
  lemma {:induction false} OrBitsDisjoint(a: nat, c: nat, m: nat, n: nat)
    requires m <= n && a < Pow2(m) && c * Pow2(m) < Pow2(n)
    ensures OrBits(a, c * Pow2(m), n) == a + c * Pow2(m)
    decreases m
  {
    if m == 0 {
      OrBitsZero(c, n);
    } else {
      var x := c * Pow2(m - 1);
      assert c * Pow2(m) == 2 * x;
      OrBitsDisjoint(a / 2, c, m - 1, n - 1);
    }
  }

  // ---------------------------------------------------------------------------------------
  // bytesToInt

  /** The value of `i` once the loop of `bytesToInt` has consumed `bytes`. */
  function Accumulated(bytes: seq<Byte>): int
    decreases |bytes|
  {
    if bytes == [] then 0
    else BitOr(Accumulated(bytes[..|bytes| - 1]), ShiftLeft(bytes[|bytes| - 1] as int, (|bytes| - 1) * 8))
  }

  /** `bytesToInt`: OR each byte, shifted to its position, into an accumulator. */
  method BytesToInt(bytes: seq<Byte>) returns (i: int)
    ensures i == Accumulated(bytes)
    ensures |bytes| <= 4 ==> i == ToInt32(LittleEndian(bytes))
  {
    i := 0;
    for x := 0 to |bytes|
      invariant i == Accumulated(bytes[..x])
    {
      assert bytes[..x + 1][..x] == bytes[..x];
      i := BitOr(i, ShiftLeft(bytes[x] as int, x * 8));
    }
    assert bytes[..|bytes|] == bytes;
    if |bytes| <= 4 {
      AccumulatedLittleEndian(bytes);
    }
  }

  /** The little-endian value of the bytes: the sum of `bytes[x] * 2^(8x)`. */
  function LittleEndian(bytes: seq<Byte>): nat
    decreases |bytes|
  {
    if bytes == [] then 0
    else LittleEndian(bytes[..|bytes| - 1]) + bytes[|bytes| - 1] as int * Pow2(8 * (|bytes| - 1))
  }

  lemma {:induction false} LittleEndianBound(bytes: seq<Byte>)
    ensures LittleEndian(bytes) < Pow2(8 * |bytes|)
    decreases |bytes|
  {
    if bytes != [] {
      var k := |bytes| - 1;
      var b: int, p := bytes[k], Pow2(8 * k);
      LittleEndianBound(bytes[..k]);
      assert LittleEndian(bytes) == LittleEndian(bytes[..k]) + b * p;
      Pow2Mul256(8 * k);
      assert 8 * |bytes| == 8 * k + 8;
      MulLe(b, 255, p);
    }
  }

  lemma MulLe(x: int, y: int, p: nat)
    requires x <= y
    ensures x * p <= y * p
  {
    assert y * p - x * p == (y - x) * p;
  }

  lemma Pow2Mul256(m: nat)
    ensures Pow2(m + 8) == 256 * Pow2(m)
  {
    assert Pow2(m + 8) == 2 * Pow2(m + 7) == 4 * Pow2(m + 6) == 8 * Pow2(m + 5) == 16 * Pow2(m + 4);
    assert Pow2(m + 4) == 2 * Pow2(m + 3) == 4 * Pow2(m + 2) == 8 * Pow2(m + 1) == 16 * Pow2(m);
  }

  /** What `bytesToInt` returns for at most four bytes (`AccumulatedLittleEndian`): the
      little-endian value read as signed 32 bits, which below four bytes is the value itself. */
  function IntOf(bytes: seq<Byte>): (r: int)
    requires |bytes| <= 4
    ensures |bytes| <= 3 ==> r == LittleEndian(bytes)
  {
    LittleEndianBound(bytes);
    Pow2Bytes();
    assert |bytes| <= 3 ==> Pow2(8 * |bytes|) <= 0x100_0000;
    ToInt32(LittleEndian(bytes))
  }

  lemma Pow2Bytes()
    ensures Pow2(0) == 1 && Pow2(8) == 0x100 && Pow2(16) == 0x1_0000 && Pow2(24) == 0x100_0000
    ensures Pow2(32) == Two32
  {
  }

  lemma Pow2Word()
    ensures Pow2(15) == 0x8000 && Pow2(16) == 0x1_0000
  {
    Pow2Bytes();
    assert Pow2(16) == 2 * Pow2(15);
  }

  /** A byte shifted to one of the first four positions keeps all its bits. */
  lemma ShiftByte(b: Byte, k: nat)
    requires k < 4
    ensures ToUint32(ShiftLeft(b as int, k * 8)) == b as int * Pow2(8 * k)
    ensures b as int * Pow2(8 * k) < Two32
  {
    Pow2Bytes();
    var p := Pow2(8 * k);
    assert ToUint32(k * 8) % 32 == 8 * k;
    assert p == 1 || p == 0x100 || p == 0x1_0000 || p == 0x100_0000;
    var v := b as int * p;
    assert 0 <= v < Two31 || (k == 3 && b >= 0x80 && Two31 <= v < Two32);
    assert ShiftLeft(b as int, k * 8) == ToInt32(v);
  }

  /** Up to four bytes, `bytesToInt` is the little-endian value read as signed 32 bits. */
  lemma {:induction false} AccumulatedLittleEndian(bytes: seq<Byte>)
    requires |bytes| <= 4
    ensures Accumulated(bytes) == ToInt32(LittleEndian(bytes))
    ensures LittleEndian(bytes) < Pow2(8 * |bytes|)
    decreases |bytes|
  {
    LittleEndianBound(bytes);
    if bytes != [] {
      var k := |bytes| - 1;
      var prefix, b := bytes[..k], bytes[k];
      AccumulatedLittleEndian(prefix);
      var low := LittleEndian(prefix);
      Pow2Bytes();
      Pow2Monotone(8 * k, 24);
      assert ToUint32(Accumulated(prefix)) == low;
      ShiftByte(b, k);
      OrAbove(Accumulated(prefix), ShiftLeft(b, k * 8), b, 8 * k);
    }
  }

  /** For four bytes `bytesToInt` is the little-endian value read as signed 32 bits, negative
      once `bytes[3] >= 0x80`. */
  lemma Signed32Value(bytes: seq<Byte>)
    requires |bytes| == 4
    ensures IntOf(bytes) == Signed32(bytes)
    ensures IntOf(bytes) < 0 <==> bytes[3] >= 0x80
  {
    Pow2Bytes();
    LittleEndianBound(bytes);
    LittleEndianBound(bytes[..3]);
    var value := LittleEndian(bytes);
    assert value == LittleEndian(bytes[..3]) + bytes[3] as int * 0x100_0000;
    assert ToUint32(value) == value;
    assert value < Two31 <==> bytes[3] < 0x80;
  }

  // ---------------------------------------------------------------------------------------
  // Integer readers

  /** The value of four little-endian bytes read as signed 32 bits. */
  function Signed32(bytes: seq<Byte>): int
    requires |bytes| == 4
  {
    LittleEndian(bytes) - (if bytes[3] >= 0x80 then Two32 else 0)
  }

  lemma LittleEndian1(bytes: seq<Byte>)
    requires |bytes| == 1
    ensures LittleEndian(bytes) == bytes[0] as int
  {
    assert bytes[..0] == [];
  }

  lemma LittleEndian2(bytes: seq<Byte>)
    requires |bytes| == 2
    ensures LittleEndian(bytes) == bytes[0] as int + 256 * bytes[1] as int
  {
    Pow2Bytes();
    LittleEndian1(bytes[..1]);
  }

  lemma LittleEndian4(bytes: seq<Byte>)
    requires |bytes| == 4
    ensures LittleEndian(bytes) ==
              bytes[0] as int + 0x100 * bytes[1] as int + 0x1_0000 * bytes[2] as int + 0x100_0000 * bytes[3] as int
  {
    Pow2Bytes();
    LittleEndian2(bytes[..2]);
    assert bytes[..3][..2] == bytes[..2];
  }

  /** `uint8`: exactly one byte, its value. */
  function ReadUint8(bytes: seq<Byte>): (r: Result<int>)
    ensures r.Ok? <==> |bytes| == 1
    ensures r.Ok? ==> r.value == bytes[0] as int
  {
    if |bytes| != 1 then Err("int must have exactly 1 byte")
    else
      LittleEndian1(bytes);
      Ok(IntOf(bytes))
  }

  /** `uint16`: exactly two bytes, little-endian. */
  function ReadUint16(bytes: seq<Byte>): (r: Result<int>)
    ensures r.Ok? <==> |bytes| == 2
    ensures r.Ok? ==> r.value == bytes[0] as int + 256 * bytes[1] as int
  {
    if |bytes| != 2 then Err("int must have exactly 2 bytes")
    else
      LittleEndian2(bytes);
      Ok(IntOf(bytes))
  }

  /** `uint32`: exactly four bytes; not truly unsigned, since `bytesToInt` yields a signed
      32-bit number, negative when the top byte is at least 0x80. */
  function ReadUint32(bytes: seq<Byte>): (r: Result<int>)
    ensures r.Ok? <==> |bytes| == 4
    ensures r.Ok? ==> r.value == Signed32(bytes)
    ensures r.Ok? ==> (r.value < 0 <==> bytes[3] >= 0x80)
  {
    if |bytes| != 4 then Err("int must have exactly 4 bytes")
    else
      Signed32Value(bytes);
      Ok(IntOf(bytes))
  }

  /** `unixtime`: the same four-byte value as `uint32`, with its own error text. */
  function ReadUnixtime(bytes: seq<Byte>): (r: Result<int>)
    ensures r.Ok? <==> |bytes| == 4
    ensures r.Ok? ==> r == ReadUint32(bytes)
  {
    if |bytes| != 4 then Err("Unix time must have exactly 4 bytes")
    else Ok(IntOf(bytes))
  }

  /** `uint16fp1`: two bytes; the result is the value in tenths (the source multiplies by 0.1
      and formats one decimal, which is exactly this number of tenths). */
  function ReadUint16Fp1(bytes: seq<Byte>): (r: Result<int>)
    ensures r.Ok? <==> |bytes| == 2
    ensures r.Ok? ==> r == ReadUint16(bytes)
  {
    if |bytes| != 2 then Err("int must have exactly 2 bytes")
    else Ok(IntOf(bytes))
  }

  /** `humidity`: two bytes; the value in hundredths (the source divides by 100). */
  function ReadHumidity(bytes: seq<Byte>): (r: Result<int>)
    ensures r.Ok? <==> |bytes| == 2
    ensures r.Ok? ==> r == ReadUint16(bytes)
  {
    if |bytes| != 2 then Err("Humidity must have exactly 2 bytes")
    else Ok(IntOf(bytes))
  }

  /** `latLng`: eight bytes, two four-byte `bytesToInt` values in millionths of a degree. */
  function ReadLatLng(bytes: seq<Byte>): (r: Result<(int, int)>)
    ensures r.Ok? <==> |bytes| == 8
    ensures r.Ok? ==> r.value == (Signed32(bytes[..4]), Signed32(bytes[4..]))
  {
    if |bytes| != 8 then Err("Lat/Long must have exactly 8 bytes")
    else
      var lat, lng := bytes[..4], bytes[4..];
      Signed32Value(lat);
      Signed32Value(lng);
      Ok((IntOf(lat), IntOf(lng)))
  }

  /** A single-precision float as `rawfloat` takes it apart: its value is
      `sign * significand * 2^(exponent - 150)`. */
  datatype FloatParts = FloatParts(sign: int, significand: nat, exponent: nat)

  /** The fields of the 32 bits `u`: the sign from bit 31, the exponent from bits 23-30, the
      fraction from bits 0-22 with the hidden bit added, or doubled when the exponent is 0. */
  function Unpack(u: nat): (f: FloatParts)
    ensures f.sign == 1 || f.sign == -1
    ensures f.exponent < 256 && f.significand < 0x100_0000
    ensures f.exponent != 0 ==> f.significand >= 0x80_0000
    ensures f.exponent == 0 ==> f.significand % 2 == 0
  {
    var e := (u / 0x80_0000) % 256;
    var fraction := u % 0x80_0000;
    FloatParts(if (u / Two31) % 2 == 0 then 1 else -1,
               if e == 0 then fraction * 2 else fraction + 0x80_0000,
               e)
  }

  /** `bytes[3]<<24 | bytes[2]<<16 | bytes[1]<<8 | bytes[0]` with JavaScript's operators. */
  function RawBits(b0: Byte, b1: Byte, b2: Byte, b3: Byte): int
  {
    BitOr(BitOr(BitOr(ShiftLeft(b3, 24), ShiftLeft(b2, 16)), ShiftLeft(b1, 8)), b0)
  }

  /** `rawfloat`: four bytes OR-ed together least significant first into the 32 bits of an
      IEEE single, taken apart with `>>>` and `&` on those bits as unsigned; the bits are the
      little-endian value of the bytes. */
  function ReadRawFloat(bytes: seq<Byte>): (r: Result<FloatParts>)
    ensures r.Ok? <==> |bytes| == 4
    ensures r.Ok? ==> r.value == Unpack(LittleEndian(bytes))
  {
    if |bytes| != 4 then Err("Float must have exactly 4 bytes")
    else
      var bits := RawBits(bytes[0], bytes[1], bytes[2], bytes[3]);
      RawFloatBits(bytes);
      Ok(Unpack(ToUint32(bits)))
  }

  /** The OR of the four shifted bytes holds the little-endian value in its 32 bits. */
  lemma RawFloatBits(bytes: seq<Byte>)
    requires |bytes| == 4
    ensures ToUint32(RawBits(bytes[0], bytes[1], bytes[2], bytes[3])) == LittleEndian(bytes)
  {
    LittleEndian4(bytes);
    RawBitsSum(bytes[0], bytes[1], bytes[2], bytes[3]);
  }

  lemma RawBitsSum(b0: Byte, b1: Byte, b2: Byte, b3: Byte)
    ensures ToUint32(RawBits(b0, b1, b2, b3)) == b0 + 0x100 * b1 + 0x1_0000 * b2 + 0x100_0000 * b3
  {
    var t2 := BitOr(BitOr(ShiftLeft(b3, 24), ShiftLeft(b2, 16)), ShiftLeft(b1, 8));
    RawBitsMid(b1, b2, b3);
    var c1 := b1 + 0x100 * b2 + 0x1_0000 * b3;
    assert ToUint32(BitOr(t2, b0)) == b0 + c1 * 0x100 by {
      Pow2Bytes();
      assert c1 * Pow2(8) == c1 * 0x100;
      OrBelow(t2, b0, c1, 8);
    }
  }

  /** The upper three bytes of `rawfloat`'s bits, OR-ed together. */
  lemma RawBitsMid(b1: Byte, b2: Byte, b3: Byte)
    ensures ToUint32(BitOr(BitOr(ShiftLeft(b3, 24), ShiftLeft(b2, 16)), ShiftLeft(b1, 8)))
            == 0x100 * b1 + 0x1_0000 * b2 + 0x100_0000 * b3
  {
    var t1, s1 := BitOr(ShiftLeft(b3, 24), ShiftLeft(b2, 16)), ShiftLeft(b1, 8);
    RawBitsHigh(b2, b3);
    var c2 := b2 + 0x100 * b3;
    assert ToUint32(s1) == b1 * 0x100 by {
      Pow2Bytes();
      ShiftByte(b1, 1);
    }
    assert ToUint32(BitOr(t1, s1)) == b1 * 0x100 + c2 * 0x1_0000 by {
      Pow2Bytes();
      assert c2 * Pow2(16) == c2 * 0x1_0000;
      OrBelow(t1, s1, c2, 16);
    }
  }

  /** The upper two bytes of `rawfloat`'s bits, OR-ed together. */
  lemma RawBitsHigh(b2: Byte, b3: Byte)
    ensures ToUint32(BitOr(ShiftLeft(b3, 24), ShiftLeft(b2, 16))) == 0x1_0000 * b2 + 0x100_0000 * b3
  {
    var s3, s2 := ShiftLeft(b3, 24), ShiftLeft(b2, 16);
    assert ToUint32(s3) == b3 * 0x100_0000 && ToUint32(s2) == b2 * 0x1_0000 by {
      Pow2Bytes();
      ShiftByte(b3, 3);
      ShiftByte(b2, 2);
    }
    assert ToUint32(BitOr(s3, s2)) == b2 * 0x1_0000 + b3 * 0x100_0000 by {
      Pow2Bytes();
      assert b3 * Pow2(24) == b3 * 0x100_0000;
      OrBelow(s3, s2, b3, 24);
    }
  }

  /** OR-ing a value below bit `m` into a multiple of `2^m` adds it. */
  lemma OrBelow(hi: int, lo: int, c: nat, m: nat)
    requires m <= 32 && ToUint32(hi) == c * Pow2(m) && ToUint32(lo) < Pow2(m)
    ensures ToUint32(BitOr(hi, lo)) == ToUint32(lo) + ToUint32(hi)
  {
    var a, h := ToUint32(lo), ToUint32(hi);
    var v := OrBits(h, a, 32);
    assert v == a + h by {
      OrAbove(lo, hi, c, m);
      OrBitsComm(h, a, 32);
    }
    assert v < Two32 by {
      Pow2Bytes();
    }
    assert BitOr(hi, lo) == ToInt32(v);
  }

  /** The same with the operands the other way round, as in `bytesToInt`. */
  lemma OrAbove(lo: int, hi: int, c: nat, m: nat)
    requires m <= 32 && ToUint32(hi) == c * Pow2(m) && ToUint32(lo) < Pow2(m)
    ensures OrBits(ToUint32(lo), ToUint32(hi), 32) == ToUint32(lo) + ToUint32(hi)
  {
    assert m <= 32 && ToUint32(lo) < Pow2(m) && c * Pow2(m) < Pow2(32) by {
      Pow2Bytes();
    }
    OrBitsDisjoint(ToUint32(lo), c, m, 32);
  }

  lemma {:induction false} Pow2Monotone(m: nat, n: nat)
    requires m <= n
    ensures Pow2(m) <= Pow2(n)
    decreases n - m
  {
    if m < n {
      Pow2Monotone(m + 1, n);
    }
  }

  /** Dividing `q * d + r` by `d` gives back `q` and `r` when `r` lies below `d`. */
  lemma DivPlus(q: int, r: int, d: int)
    requires 0 <= r < d
    ensures (q * d + r) / d == q && (q * d + r) % d == r
  {
    var n := q * d + r;
    var q', r' := n / d, n % d;
    assert (q - q') * d == r' - r;
    if q' < q {
      MulAtLeast(q - q', d);
    } else if q < q' {
      MulAtLeast(q' - q, d);
    }
  }

  lemma MulAtLeast(a: int, d: int)
    requires a >= 1 && d >= 0
    ensures a * d >= d
  {
    assert a * d == (a - 1) * d + d;
  }

  /** The fields of the float in terms of the four bytes: the sign is the top bit of the last
      byte, the exponent its other seven bits followed by the top bit of the third byte, and the
      fraction the remaining 23 bits. */
  lemma UnpackBytes(bytes: seq<Byte>)
    requires |bytes| == 4
    ensures var b0, b1, b2, b3 := bytes[0] as int, bytes[1] as int, bytes[2] as int, bytes[3] as int;
            var e := 2 * (b3 % 0x80) + b2 / 0x80;
            var fraction := 0x1_0000 * (b2 % 0x80) + 0x100 * b1 + b0;
            Unpack(LittleEndian(bytes)) ==
              FloatParts(if b3 < 0x80 then 1 else -1,
                         if e == 0 then fraction * 2 else fraction + 0x80_0000, e)
  {
    LittleEndian4(bytes);
    UnpackSum(bytes[0], bytes[1], bytes[2], bytes[3]);
  }

  lemma UnpackSum(b0: Byte, b1: Byte, b2: Byte, b3: Byte)
    ensures var e := 2 * (b3 % 0x80) + b2 / 0x80;
            var fraction := 0x1_0000 * (b2 % 0x80) + 0x100 * b1 + b0;
            Unpack(b0 + 0x100 * b1 + 0x1_0000 * b2 + 0x100_0000 * b3) ==
              FloatParts(if b3 < 0x80 then 1 else -1,
                         if e == 0 then fraction * 2 else fraction + 0x80_0000, e)
  {
    var u: int := b0 + 0x100 * b1 + 0x1_0000 * b2 + 0x100_0000 * b3;
    var e: int := 2 * (b3 % 0x80) + b2 / 0x80;
    var fraction: int := 0x1_0000 * (b2 % 0x80) + 0x100 * b1 + b0;
    var high: int := b2 / 0x80 + 2 * b3;
    assert u == high * 0x80_0000 + fraction;
    DivPlus(high, fraction, 0x80_0000);
    assert high == (b3 / 0x80) * 256 + e;
    DivPlus(b3 / 0x80, e, 256);
    var low: int := (b3 % 0x80) * 0x100_0000 + 0x1_0000 * b2 + 0x100 * b1 + b0;
    assert u == (b3 / 0x80) * Two31 + low;
    DivPlus(b3 / 0x80, low, Two31);
  }

  /** `rawfloat` in terms of the bytes: the sign is the top bit of the last byte, the exponent
      its other seven bits followed by the top bit of the third byte, and the fraction the
      remaining 23 bits, with the hidden bit added (or the fraction doubled for exponent 0).
      For 00 00 80 3F this is a significand of 2^23 with exponent 127, the float 1.0. */
  lemma RawFloatFields(bytes: seq<Byte>)
    requires |bytes| == 4
    ensures var b0, b1, b2, b3 := bytes[0] as int, bytes[1] as int, bytes[2] as int, bytes[3] as int;
            var e := 2 * (b3 % 0x80) + b2 / 0x80;
            var fraction := 0x1_0000 * (b2 % 0x80) + 0x100 * b1 + b0;
            ReadRawFloat(bytes) ==
              Ok(FloatParts(if b3 < 0x80 then 1 else -1,
                            if e == 0 then fraction * 2 else fraction + 0x80_0000, e))
  {
    UnpackBytes(bytes);
  }

  /** The top bit of the last byte is the sign. */
  lemma RawFloatSign(bytes: seq<Byte>)
    requires |bytes| == 4
    ensures ReadRawFloat(bytes).value.sign == (if bytes[3] as int >= 0x80 then -1 else 1)
  {
    RawFloatFields(bytes);
  }

  // ---------------------------------------------------------------------------------------
  // Bit strings: the text of binary digits the source builds, most significant digit first,
  // with `true` standing for '1'.

  function Bit(b: bool): nat
  {
    if b then 1 else 0
  }

  /** The last `n` binary digits of `v`, most significant first: for a byte, what
      `('00000000' + v.toString(2)).slice(-8)` builds. */
  function ToBits(v: nat, n: nat): (s: seq<bool>)
    ensures |s| == n
    decreases n
  {
    if n == 0 then [] else ToBits(v / 2, n - 1) + [v % 2 == 1]
  }

  /** `parseInt(s, 2)`. */
  function FromBits(s: seq<bool>): nat
    decreases |s|
  {
    if s == [] then 0 else 2 * FromBits(s[..|s| - 1]) + Bit(s[|s| - 1])
  }

  /** Every digit negated: `split('').map(function(x) { return !Number(x); })`. */
  function Invert(s: seq<bool>): (t: seq<bool>)
    ensures |t| == |s|
    ensures forall i :: 0 <= i < |s| ==> t[i] == !s[i]
  {
    seq(|s|, i requires 0 <= i < |s| => !s[i])
  }

  lemma {:induction false} FromBitsBound(s: seq<bool>)
    ensures FromBits(s) < Pow2(|s|)
    decreases |s|
  {
    if s != [] {
      FromBitsBound(s[..|s| - 1]);
    }
  }

  /** Reading back the digits of a number below `2^n` gives the number. */
  lemma {:induction false} FromToBits(v: nat, n: nat)
    requires v < Pow2(n)
    ensures FromBits(ToBits(v, n)) == v
    decreases n
  {
    if n > 0 {
      FromToBits(v / 2, n - 1);
      var s := ToBits(v, n);
      assert s[..n - 1] == ToBits(v / 2, n - 1);
    }
  }

  /** Concatenating digit strings: the first string's value is shifted past the second's. */
  lemma {:induction false} FromBitsAppend(s: seq<bool>, t: seq<bool>)
    ensures FromBits(s + t) == FromBits(s) * Pow2(|t|) + FromBits(t)
    decreases |t|
  {
    if t == [] {
      assert s + t == s;
    } else {
      var n := |t|;
      var init := t[..n - 1];
      assert (s + t)[..|s + t| - 1] == s + init;
      FromBitsAppend(s, init);
      var a, p, x, d := FromBits(s), Pow2(n - 1), FromBits(init), Bit(t[n - 1]);
      assert FromBits(s + t) == 2 * (a * p + x) + d;
      assert FromBits(t) == 2 * x + d;
      assert a * Pow2(n) == 2 * (a * p);
    }
  }

  /** The leading digit is set exactly when the value reaches `2^(n-1)`. */
  lemma FirstBit(s: seq<bool>)
    requires |s| > 0
    ensures s[0] <==> FromBits(s) >= Pow2(|s| - 1)
  {
    assert s == [s[0]] + s[1..];
    FromBitsAppend([s[0]], s[1..]);
    assert FromBits([s[0]]) == Bit(s[0]) by {
      assert [s[0]][..0] == [];
    }
    FromBitsBound(s[1..]);
  }

  /** Negating every digit of an `n`-digit string gives `2^n - 1` minus its value. */
  lemma {:induction false} InvertValue(s: seq<bool>)
    ensures FromBits(Invert(s)) == Pow2(|s|) - 1 - FromBits(s)
    decreases |s|
  {
    if s != [] {
      var n := |s|;
      assert Invert(s)[..n - 1] == Invert(s[..n - 1]);
      InvertValue(s[..n - 1]);
    }
  }

  /** Setting digit `k` to `x` changes the value by that digit's weight `2^(n-1-k)`. */
  lemma {:induction false} FlipValue(s: seq<bool>, k: nat, x: bool)
    requires k < |s|
    ensures FromBits(s[k := x]) ==
              FromBits(s) + (if x then Pow2(|s| - 1 - k) else 0) - (if s[k] then Pow2(|s| - 1 - k) else 0)
    decreases |s|
  {
    var n := |s|;
    var t := s[k := x];
    if k < n - 1 {
      assert t[..n - 1] == s[..n - 1][k := x];
      FlipValue(s[..n - 1], k, x);
    } else {
      assert t[..n - 1] == s[..n - 1];
    }
  }

  /** Bit `p` of `v`, counting from the least significant. */
  function BitAt(v: nat, p: nat): bool
    decreases p
  {
    if p == 0 then v % 2 == 1 else BitAt(v / 2, p - 1)
  }

  /** Digit `k` of the `n`-digit string of `v` is bit `n - 1 - k` of `v`. */
  lemma {:induction false} ToBitsAt(v: nat, n: nat, k: nat)
    requires k < n
    ensures ToBits(v, n)[k] == BitAt(v, n - 1 - k)
    decreases n
  {
    if k < n - 1 {
      ToBitsAt(v / 2, n - 1, k);
    }
  }

  lemma ToBitsEvery(v: nat, n: nat)
    ensures forall k :: 0 <= k < n ==> ToBits(v, n)[k] == BitAt(v, n - 1 - k)
  {
    forall k | 0 <= k < n ensures ToBits(v, n)[k] == BitAt(v, n - 1 - k) {
      ToBitsAt(v, n, k);
    }
  }

  // ---------------------------------------------------------------------------------------
  // temperature

  /** A big-endian 16-bit two's-complement temperature in hundredths of a degree, except that
      0x8000 reads as 0 rather than -32768. */
  function TemperatureValue(bytes: seq<Byte>): (r: Result<int>)
    ensures r.Ok? <==> |bytes| == 2
    ensures r.Ok? ==> -32767 <= r.value <= 32767
  {
    if |bytes| != 2 then Err("Temperature must have exactly 2 bytes")
    else
      var raw := 256 * bytes[0] as int + bytes[1] as int;
      Ok(if raw < 0x8000 then raw else if raw == 0x8000 then 0 else raw - 0x1_0000)
  }

  /** Away from 0x8000 the temperature is the signed 16-bit value with `bytes[0]` as high byte. */
  lemma TemperatureTwosComplement(hi: Byte, lo: Byte)
    requires hi != 0x80 || lo != 0
    ensures TemperatureValue([hi, lo]) ==
              Ok(256 * hi as int + lo as int - (if hi >= 0x80 then 0x1_0000 else 0))
  {
  }

  /** The edge case: [0x80, 0x00] reads as 0, because the carry loop stops before digit 0. */
  lemma TemperatureMinIsZero()
    ensures TemperatureValue([0x80, 0x00]) == Ok(0)
  {
  }

  lemma HighBitSet(b: Byte)
    ensures ((b as bv8) & 0x80 != 0) <==> b >= 0x80
  {
  }

  /** The digit string of two bytes, high byte first, has the 16-bit value and its leading
      digit is the sign bit. */
  lemma TwoByteBits(hi: Byte, lo: Byte)
    ensures var b := ToBits(hi as int, 8) + ToBits(lo as int, 8);
      FromBits(b) == 256 * hi as int + lo as int && (b[0] <==> hi >= 0x80)
  {
    var h, l := ToBits(hi as int, 8), ToBits(lo as int, 8);
    assert Pow2(8) == 256 && Pow2(7) == 128;
    FromToBits(hi as int, 8);
    FromToBits(lo as int, 8);
    FromBitsAppend(h, l);
    FirstBit(h);
    assert (h + l)[0] == h[0];
  }

  /** One step of the carry loop at digit `i > 0`, where the digits from 0 to `i` are still
      the negated ones: setting a 0 digit to 1 finishes the addition of one; setting a 1 digit to
      0 carries on to digit `i - 1`. */
  lemma CarryStep(before: seq<bool>, inv: seq<bool>, i: nat)
    requires |before| == |inv| == 16 && 0 < i <= 15
    requires before[..i + 1] == inv[..i + 1]
    requires FromBits(before) == FromBits(inv) - (Pow2(15 - i) - 1)
    ensures before[i] == inv[i]
    ensures var after := before[i := !inv[i]];
      if after[i] then after[0] == inv[0] && FromBits(after) == FromBits(inv) + 1
      else after[..i] == inv[..i] && FromBits(after) == FromBits(inv) - (Pow2(15 - (i - 1)) - 1)
  {
    assert before[i] == inv[i] by {
      assert before[..i + 1][i] == inv[..i + 1][i];
    }
    assert before[0] == inv[0] by {
      assert before[..i + 1][0] == inv[..i + 1][0];
    }
    var after := before[i := !inv[i]];
    assert after[..i] == inv[..i] by {
      assert after[..i] == before[..i + 1][..i];
    }
    FlipValue(before, i, !inv[i]);
  }

  /** The carry stopped at a digit after 0: the result is the negated digits plus one, below
      `2^15` since digit 0 is still the negated sign; `raw` cannot have been 0x8000. */
  lemma CarryStops(b: seq<bool>, c: seq<bool>)
    requires |b| == 16 && b[0] && |c| == 16 && c[0] == !b[0]
    requires FromBits(c) == FromBits(Invert(b)) + 1
    ensures FromBits(c) == if FromBits(b) == 0x8000 then 0 else 0x1_0000 - FromBits(b)
  {
    InvertValue(b);
    Pow2Word();
    FirstBit(c);
  }

  /** The carry ran through every digit after 0: those were all 1, so the negated digits had
      the value `2^15 - 1` and `raw` was 0x8000. */
  lemma CarryRunsOut(b: seq<bool>, c: seq<bool>)
    requires |b| == 16 && b[0]
    requires FromBits(c) == FromBits(Invert(b)) - (Pow2(15) - 1)
    ensures FromBits(c) == if FromBits(b) == 0x8000 then 0 else 0x1_0000 - FromBits(b)
  {
    InvertValue(b);
    Pow2Word();
    FirstBit(b);
    assert |Invert(b)| == 16;
    FirstBit(Invert(b));
    assert !Invert(b)[0];
  }

  /** The negative branch of `temperature` on the 16 digits of a value `raw >= 0x8000`: every
      digit is negated into an array, then one is added from the last digit towards the first,
      stopping at the first digit that becomes 1 and never touching digit 0. The digits give
      the magnitude `0x10000 - raw`, except that 0x8000 gives 0 because its carry runs out. */
  method NegateDigits(b: seq<bool>) returns (c: seq<bool>)
    requires |b| == 16 && b[0]
    ensures |c| == 16
    ensures FromBits(c) == if FromBits(b) == 0x8000 then 0 else 0x1_0000 - FromBits(b)
  {
    var arr := new bool[16](k requires 0 <= k < 16 => !b[k]);
    ghost var inv := arr[..];
    assert inv == Invert(b);
    var i := 15;
    while i > 0
      invariant 0 <= i <= 15
      invariant arr[..i + 1] == inv[..i + 1]
      invariant FromBits(arr[..]) == FromBits(inv) - (Pow2(15 - i) - 1)
    {
      ghost var before := arr[..];
      CarryStep(before, inv, i);
      arr[i] := !arr[i];
      assert arr[..] == before[i := !inv[i]];
      if arr[i] {
        c := arr[..];
        CarryStops(b, c);
        return;
      }
      i := i - 1;
    }
    c := arr[..];
    CarryRunsOut(b, c);
  }

  /** `temperature`: the digits of both bytes as text; for a negative value the digits are
      replaced by those of its magnitude, read back, and the sign restored. */
  method ReadTemperature(bytes: seq<Byte>) returns (r: Result<int>)
    ensures r == TemperatureValue(bytes)
  {
    if |bytes| != 2 {
      return Err("Temperature must have exactly 2 bytes");
    }
    var isNegative := (bytes[0] as bv8) & 0x80 != 0;
    var b := ToBits(bytes[0] as int, 8) + ToBits(bytes[1] as int, 8);
    ghost var digits := b;
    TemperatureDigits(bytes, digits);
    assert isNegative == digits[0] by {
      HighBitSet(bytes[0]);
    }
    if isNegative {
      b := NegateDigits(b);
    }
    var t: int := FromBits(b);
    if isNegative {
      t := -t;
    }
    r := Ok(t);
  }

  /** The digits of the two bytes carry the temperature: their value when the leading digit is
      0, and otherwise minus the magnitude that the carry loop computes from them. */
  lemma TemperatureDigits(bytes: seq<Byte>, b: seq<bool>)
    requires |bytes| == 2
    requires b == ToBits(bytes[0] as int, 8) + ToBits(bytes[1] as int, 8)
    ensures |b| == 16 && (b[0] <==> bytes[0] >= 0x80)
    ensures TemperatureValue(bytes) == Ok(
      if !b[0] then FromBits(b)
      else -(if FromBits(b) == 0x8000 then 0 else 0x1_0000 - FromBits(b)))
  {
    assert FromBits(b) == 256 * bytes[0] as int + bytes[1] as int && (b[0] <==> bytes[0] >= 0x80) by {
      TwoByteBits(bytes[0], bytes[1]);
    }
    TemperatureRaw(bytes, b[0], FromBits(b));
  }

  /** The temperature of two bytes, as a function of their 16-bit value `v` and its sign bit. */
  lemma TemperatureRaw(bytes: seq<Byte>, negative: bool, v: int)
    requires |bytes| == 2 && v == 256 * bytes[0] as int + bytes[1] as int
    requires negative <==> bytes[0] >= 0x80
    ensures TemperatureValue(bytes)
      == Ok(if !negative then v else -(if v == 0x8000 then 0 else 0x1_0000 - v))
  {
  }

  // ---------------------------------------------------------------------------------------
  // bitmap

  /** The flag names of the status byte, most significant bit first. */
  const BitmapNames: seq<string> :=
    ["res2", "res1", "res0", "ble_ok", "s1_dec_ok", "s1_batt_ok", "ws_dec_ok", "ws_batt_ok"]

  /** The object that `reduce` builds by assigning `vals[k]` to key `keys[k]`, in order; a
      later assignment to the same key overwrites an earlier one. */
  function Assign<V>(keys: seq<string>, vals: seq<V>): map<string, V>
    requires |keys| == |vals|
    decreases |keys|
  {
    if keys == [] then map[]
    else Assign(keys[..|keys| - 1], vals[..|vals| - 1])[keys[|keys| - 1] := vals[|vals| - 1]]
  }

  predicate Distinct(keys: seq<string>)
  {
    forall i, j :: 0 <= i < j < |keys| ==> keys[i] != keys[j]
  }

  /** The keys of the object are the keys assigned; with distinct keys, key `k` holds `vals[k]`. */
  lemma {:induction false} AssignAt<V>(keys: seq<string>, vals: seq<V>)
    requires |keys| == |vals|
    ensures Assign(keys, vals).Keys == set k | k in keys
    ensures forall i :: 0 <= i < |keys| ==> keys[i] in Assign(keys, vals)
    ensures Distinct(keys) ==> forall i :: 0 <= i < |keys| ==> Assign(keys, vals)[keys[i]] == vals[i]
    decreases |keys|
  {
    if keys != [] {
      var n := |keys|;
      var pk, pv := keys[..n - 1], vals[..n - 1];
      AssignAt(pk, pv);
      var m := Assign(pk, pv);
      assert Assign(keys, vals) == m[keys[n - 1] := vals[n - 1]];
      assert forall k :: k in keys <==> k in pk || k == keys[n - 1] by {
        LastSplit(keys);
      }
      if Distinct(keys) {
        assert Distinct(pk) by {
          forall i, j | 0 <= i < j < |pk| ensures pk[i] != pk[j] {
            assert pk[i] == keys[i] && pk[j] == keys[j];
          }
        }
        forall i | 0 <= i < n ensures Assign(keys, vals)[keys[i]] == vals[i] {
          if i < n - 1 {
            assert keys[i] == pk[i] && keys[i] != keys[n - 1] && vals[i] == pv[i];
          }
        }
      }
    }
  }

  /** `bitmap`: one byte; flag `BitmapNames[k]` is digit `k` of its 8-digit binary text. */
  function ReadBitmap(bytes: seq<Byte>): (r: Result<map<string, bool>>)
    ensures r.Ok? <==> |bytes| == 1
  {
    if |bytes| != 1 then Err("Bitmap must have exactly 1 byte")
    else
      var i := IntOf(bytes);
      Ok(Assign(BitmapNames, ToBits(i, 8)))
  }

  lemma BitmapNamesDistinct()
    ensures Distinct(BitmapNames)
  {
  }

  /** Bit 7 of the status byte goes to `res2`, down to bit 0 to `ws_batt_ok`. */
  lemma BitmapFlags(b: Byte)
    ensures ReadBitmap([b]).Ok?
    ensures ReadBitmap([b]).value.Keys == set k | k in BitmapNames
    ensures forall k :: 0 <= k < 8 ==>
              BitmapNames[k] in ReadBitmap([b]).value && ReadBitmap([b]).value[BitmapNames[k]] == BitAt(b, 7 - k)
  {
    assert ReadBitmap([b]) == Ok(Assign(BitmapNames, ToBits(b, 8))) by {
      LittleEndian1([b]);
    }
    BitmapNamesDistinct();
    FlagsOf(BitmapNames, b);
  }

  /** Eight distinct names take the digits of a byte, most significant first. */
  lemma FlagsOf(names: seq<string>, b: Byte)
    requires |names| == 8 && Distinct(names)
    ensures var m := Assign(names, ToBits(b, 8));
            m.Keys == (set k | k in names)
            && forall k :: 0 <= k < 8 ==> names[k] in m && m[names[k]] == BitAt(b, 7 - k)
  {
    AssignAt(names, ToBits(b, 8));
    ToBitsEvery(b, 8);
  }

  /** In particular `res2` is set exactly for values from 0x80 up, and `ws_batt_ok` exactly
      for odd values. */
  lemma BitmapEnds(b: Byte)
    ensures ReadBitmap([b]).Ok?
    ensures var flags := ReadBitmap([b]).value;
            "res2" in flags && "ws_batt_ok" in flags
            && (flags["res2"] <==> b >= 0x80) && (flags["ws_batt_ok"] <==> b % 2 == 1)
  {
    BitmapFlags(b);
    assert BitmapNames[0] == "res2" && BitmapNames[7] == "ws_batt_ok";
    assert Pow2(8) == 0x100 && Pow2(7) == 0x80;
    TopBit(b, 7);
  }

  /** The top bit of a value below `2^(p+1)` is set exactly from `2^p` up. */
  lemma {:induction false} TopBit(v: nat, p: nat)
    requires v < Pow2(p + 1)
    ensures BitAt(v, p) <==> v >= Pow2(p)
    decreases p
  {
    if p > 0 {
      TopBit(v / 2, p - 1);
    }
  }

  // ---------------------------------------------------------------------------------------
  // decode

  /** The decoding functions a mask may list. */
  datatype Reader =
    | Unixtime | Uint8 | Uint16 | Uint16Fp1 | Uint32 | LatLng
    | Temperature | Humidity | RawFloat | Bitmap

  /** A decoded field: a plain number, a number of hundredths or tenths, the parts of a float,
      a pair of coordinates in millionths of a degree, or the flags of a status byte. */
  datatype Value =
    | Number(n: int) | Hundredths(h: int) | Tenths(t: int) | Float(parts: FloatParts)
    | Coordinates(lat: int, lng: int) | Flags(flags: map<string, bool>)

  /** Each function's `BYTES` property. */
  function Width(r: Reader): nat
  {
    match r
    case Unixtime => 4
    case Uint8 => 1
    case Uint16 => 2
    case Uint16Fp1 => 2
    case Uint32 => 4
    case LatLng => 8
    case Temperature => 2
    case Humidity => 2
    case RawFloat => 4
    case Bitmap => 1
  }

  /** Calling the decoding function `r` on `bytes`. */
  function Read(r: Reader, bytes: seq<Byte>): Result<Value>
  {
    match r
    case Unixtime => (match ReadUnixtime(bytes) case Ok(n) => Ok(Number(n)) case Err(e) => Err(e))
    case Uint8 => (match ReadUint8(bytes) case Ok(n) => Ok(Number(n)) case Err(e) => Err(e))
    case Uint16 => (match ReadUint16(bytes) case Ok(n) => Ok(Number(n)) case Err(e) => Err(e))
    case Uint16Fp1 => (match ReadUint16Fp1(bytes) case Ok(n) => Ok(Tenths(n)) case Err(e) => Err(e))
    case Uint32 => (match ReadUint32(bytes) case Ok(n) => Ok(Number(n)) case Err(e) => Err(e))
    case LatLng => (match ReadLatLng(bytes) case Ok(p) => Ok(Coordinates(p.0, p.1)) case Err(e) => Err(e))
    case Temperature => (match TemperatureValue(bytes) case Ok(n) => Ok(Hundredths(n)) case Err(e) => Err(e))
    case Humidity => (match ReadHumidity(bytes) case Ok(n) => Ok(Hundredths(n)) case Err(e) => Err(e))
    case RawFloat => (match ReadRawFloat(bytes) case Ok(f) => Ok(Float(f)) case Err(e) => Err(e))
    case Bitmap => (match ReadBitmap(bytes) case Ok(m) => Ok(Flags(m)) case Err(e) => Err(e))
  }

  /** What `decode` relies on of a function in the mask: it throws exactly when it is not given
      its `BYTES` bytes. */
  ghost predicate Checked(read: (Reader, seq<Byte>) -> Result<Value>)
  {
    forall r, bytes :: read(r, bytes).Ok? <==> |bytes| == Width(r)
  }

  /** Every decoding function checks the length of its input. */
  lemma ReadChecked()
    ensures Checked(Read)
  {
    forall r, bytes ensures Read(r, bytes).Ok? <==> |bytes| == Width(r) {
      ReadWidth(r, bytes);
    }
  }

  lemma ReadWidth(r: Reader, bytes: seq<Byte>)
    ensures Read(r, bytes).Ok? <==> |bytes| == Width(r)
  {
    match r
    case Unixtime =>
    case Uint8 =>
    case Uint16 =>
    case Uint16Fp1 =>
    case Uint32 =>
    case LatLng =>
    case Temperature =>
    case Humidity =>
    case RawFloat =>
    case Bitmap =>
  }

  /** The sum of the mask's widths. */
  function MaskLength(mask: seq<Reader>): nat
    decreases |mask|
  {
    if mask == [] then 0 else Width(mask[0]) + MaskLength(mask[1..])
  }

  /** `bytes.slice(from, to)`, clamped to the end of the input as JavaScript does. */
  function Slice(bytes: seq<Byte>, from: nat, to: nat): (s: seq<Byte>)
    requires from <= to
    ensures to <= |bytes| ==> s == bytes[from..to]
    ensures |s| <= to - from
  {
    if from >= |bytes| then [] else bytes[from..if to <= |bytes| then to else |bytes|]
  }

  /** The `map` of `decode`: each function of the mask, applied by `read`, reads the next
      `BYTES` bytes from a running offset; the first one that throws ends the decoding. */
  function ReadAll(read: (Reader, seq<Byte>) -> Result<Value>, bytes: seq<Byte>, mask: seq<Reader>,
                   offset: nat): (r: Result<seq<Value>>)
    ensures r.Ok? ==> |r.value| == |mask|
    decreases |mask|
  {
    if mask == [] then Ok([])
    else
      var w := Width(mask[0]);
      match read(mask[0], Slice(bytes, offset, offset + w))
      case Err(e) => Err(e)
      case Ok(v) =>
        match ReadAll(read, bytes, mask[1..], offset + w)
        case Err(e) => Err(e)
        case Ok(vs) => Ok([v] + vs)
  }

  /** The decimal text of a number, as JavaScript turns a number into a string. */
  function DecimalString(n: nat): (s: string)
    ensures |s| > 0
    decreases n
  {
    if n < 10 then ["0123456789"[n]] else DecimalString(n / 10) + ["0123456789"[n % 10]]
  }

  /** `names[idx] || idx`: the name, unless it is missing or empty. */
  function KeyFor(names: seq<string>, idx: nat): (key: string)
    ensures idx < |names| && names[idx] != "" ==> key == names[idx]
  {
    if idx < |names| && names[idx] != "" then names[idx] else DecimalString(idx)
  }

  /** The keys of the result object, in order. */
  function Keys(names: seq<string>, n: nat): (keys: seq<string>)
    ensures |keys| == n
  {
    seq(n, k requires 0 <= k < n => KeyFor(names, k))
  }

  /** `decode` with the decoding functions applied by `read`: throws when the input is shorter
      than the mask; otherwise reads the fields in order and stores field `k` under
      `names[k] || k`, a later field overwriting an earlier one with the same key. */
  function DecodeWith(read: (Reader, seq<Byte>) -> Result<Value>, bytes: seq<Byte>, mask: seq<Reader>,
                      names: seq<string>): (r: Result<map<string, Value>>)
    ensures |bytes| < MaskLength(mask) ==> r.Err?
    ensures r.Ok? ==> r.value.Keys == set k | k in Keys(names, |mask|)
  {
    var maskLength := MaskLength(mask);
    if |bytes| < maskLength then
      Err("Mask length is " + DecimalString(maskLength) + " whereas input is " + DecimalString(|bytes|))
    else
      match ReadAll(read, bytes, mask, 0)
      case Err(e) => Err(e)
      case Ok(vs) => AssignAt(Keys(names, |mask|), vs); Ok(Assign(Keys(names, |mask|), vs))
  }

  /** `decode` over the decoding functions of this file. */
  function Decode(bytes: seq<Byte>, mask: seq<Reader>, names: seq<string>): (r: Result<map<string, Value>>)
    ensures r.Err? <==> |bytes| < MaskLength(mask)
  {
    ReadChecked();
    DecodeFails(Read, bytes, mask, names);
    DecodeWith(Read, bytes, mask, names)
  }

  /** Where field `k` of the mask starts: the sum of the earlier widths. */
  function Offset(mask: seq<Reader>, k: nat): nat
    requires k <= |mask|
  {
    MaskLength(mask[..k])
  }

  /** The bytes field `k` is read from. */
  function FieldBytes(bytes: seq<Byte>, mask: seq<Reader>, k: nat): seq<Byte>
    requires k < |mask|
  {
    Slice(bytes, Offset(mask, k), Offset(mask, k) + Width(mask[k]))
  }

  /** Field `k` starts where field `k - 1` of the rest of the mask does, shifted by the first
      width. */
  lemma OffsetStep(mask: seq<Reader>, k: nat)
    requires 0 < k <= |mask|
    ensures Offset(mask, k) == Width(mask[0]) + Offset(mask[1..], k - 1)
  {
    assert mask[..k][1..] == mask[1..][..k - 1];
  }

  /** The fields all lie within the mask's length. */
  lemma {:induction false} OffsetBound(mask: seq<Reader>, k: nat)
    requires k < |mask|
    ensures Offset(mask, k) + Width(mask[k]) <= MaskLength(mask)
    decreases k
  {
    if k > 0 {
      OffsetStep(mask, k);
      OffsetBound(mask[1..], k - 1);
    } else {
      assert mask[..0] == [];
    }
  }

  /** With enough input every field reads successfully. */
  lemma {:induction false} ReadAllOk(read: (Reader, seq<Byte>) -> Result<Value>, bytes: seq<Byte>,
                                     mask: seq<Reader>, offset: nat)
    requires Checked(read) && offset + MaskLength(mask) <= |bytes|
    ensures ReadAll(read, bytes, mask, offset).Ok?
    decreases |mask|
  {
    if mask != [] {
      var w := Width(mask[0]);
      assert |Slice(bytes, offset, offset + w)| == w;
      ReadAllOk(read, bytes, mask[1..], offset + w);
    }
  }

  /** Field `k` is what its function reads from the `BYTES` bytes at its offset. */
  lemma {:induction false} ReadAllField(read: (Reader, seq<Byte>) -> Result<Value>, bytes: seq<Byte>,
                                        mask: seq<Reader>, offset: nat, k: nat)
    requires Checked(read) && offset + MaskLength(mask) <= |bytes| && k < |mask|
    ensures ReadAll(read, bytes, mask, offset).Ok?
    ensures offset + Offset(mask, k) + Width(mask[k]) <= |bytes|
    ensures Ok(ReadAll(read, bytes, mask, offset).value[k]) ==
              read(mask[k], bytes[offset + Offset(mask, k)..offset + Offset(mask, k) + Width(mask[k])])
    decreases k
  {
    ReadAllOk(read, bytes, mask, offset);
    OffsetBound(mask, k);
    if k == 0 {
      assert mask[..0] == [];
    } else {
      OffsetStep(mask, k);
      ReadAllField(read, bytes, mask[1..], offset + Width(mask[0]), k - 1);
    }
  }

  /** `decode` throws exactly when the input is shorter than the sum of the mask's widths. */
  lemma DecodeFails(read: (Reader, seq<Byte>) -> Result<Value>, bytes: seq<Byte>, mask: seq<Reader>,
                    names: seq<string>)
    requires Checked(read)
    ensures DecodeWith(read, bytes, mask, names).Err? <==> |bytes| < MaskLength(mask)
  {
    if |bytes| >= MaskLength(mask) {
      ReadAllOk(read, bytes, mask, 0);
    }
  }

  /** With enough input, field `k` is what function `k` of the mask reads from its own bytes. */
  lemma ReadAllFields(read: (Reader, seq<Byte>) -> Result<Value>, bytes: seq<Byte>, mask: seq<Reader>)
    requires Checked(read) && MaskLength(mask) <= |bytes|
    ensures ReadAll(read, bytes, mask, 0).Ok?
    ensures forall k :: 0 <= k < |mask| ==>
              Ok(ReadAll(read, bytes, mask, 0).value[k]) == read(mask[k], FieldBytes(bytes, mask, k))
  {
    ReadAllOk(read, bytes, mask, 0);
    forall k | 0 <= k < |mask|
      ensures Ok(ReadAll(read, bytes, mask, 0).value[k]) == read(mask[k], FieldBytes(bytes, mask, k))
    {
      ReadAllField(read, bytes, mask, 0, k);
    }
  }

  /** With enough input and distinct non-empty names for every field, the result has exactly
      those names as keys, and the field under `names[k]` is what function `k` of the mask reads
      from its own bytes. */
  lemma DecodeFields(read: (Reader, seq<Byte>) -> Result<Value>, bytes: seq<Byte>, mask: seq<Reader>,
                     names: seq<string>)
    requires Checked(read) && MaskLength(mask) <= |bytes|
    requires |mask| <= |names| && Distinct(names[..|mask|])
    requires forall k :: 0 <= k < |mask| ==> names[k] != ""
    ensures DecodeWith(read, bytes, mask, names).Ok?
    ensures DecodeWith(read, bytes, mask, names).value.Keys == set k | k in names[..|mask|]
    ensures forall k :: 0 <= k < |mask| ==>
              names[k] in DecodeWith(read, bytes, mask, names).value &&
              Ok(DecodeWith(read, bytes, mask, names).value[names[k]]) == read(mask[k], FieldBytes(bytes, mask, k))
  {
    ReadAllFields(read, bytes, mask);
    var vs := ReadAll(read, bytes, mask, 0).value;
    var keys := Keys(names, |mask|);
    assert keys == names[..|mask|] by {
      forall k | 0 <= k < |mask| ensures keys[k] == names[k] {
        assert KeyFor(names, k) == names[k];
      }
    }
    AssignAt(keys, vs);
    var m := Assign(keys, vs);
    assert DecodeWith(read, bytes, mask, names) == Ok(m);
    forall k | 0 <= k < |mask|
      ensures names[k] in m && Ok(m[names[k]]) == read(mask[k], FieldBytes(bytes, mask, k))
    {
      assert keys[k] == names[k];
    }
  }

  /** Bytes after the mask's length are ignored. */
  lemma {:induction false} ReadAllTrailing(read: (Reader, seq<Byte>) -> Result<Value>, bytes: seq<Byte>,
                                           extra: seq<Byte>, mask: seq<Reader>, offset: nat)
    requires offset + MaskLength(mask) <= |bytes|
    ensures ReadAll(read, bytes + extra, mask, offset) == ReadAll(read, bytes, mask, offset)
    decreases |mask|
  {
    if mask != [] {
      var w := Width(mask[0]);
      assert Slice(bytes + extra, offset, offset + w) == Slice(bytes, offset, offset + w);
      ReadAllTrailing(read, bytes, extra, mask[1..], offset + w);
    }
  }

  /** Appending bytes to an input long enough for the mask does not change the result. */
  lemma DecodeTrailing(read: (Reader, seq<Byte>) -> Result<Value>, bytes: seq<Byte>, extra: seq<Byte>,
                       mask: seq<Reader>, names: seq<string>)
    requires MaskLength(mask) <= |bytes|
    ensures DecodeWith(read, bytes + extra, mask, names) == DecodeWith(read, bytes, mask, names)
  {
    ReadAllTrailing(read, bytes, extra, mask, 0);
  }

  /** A missing or empty name falls back to the field's index as the key. */
  lemma KeyFallback(names: seq<string>, idx: nat)
    requires idx >= |names| || names[idx] == ""
    ensures KeyFor(names, idx) == DecimalString(idx)
  {
  }

  // ---------------------------------------------------------------------------------------
  // The active layout: weather sensor, supply and battery voltage, water temperature, indoor
  // temperature and humidity from a BLE sensor, soil temperature and moisture.

  /** The status byte and the weather sensor's readings: air temperature, humidity, wind gust,
      average speed and direction, rain. */
  const WeatherMask: seq<Reader> := [Bitmap, Temperature, Uint8, Uint16Fp1, Uint16Fp1, Uint16Fp1, RawFloat]

  /** Supply and battery voltage, water temperature, indoor temperature and humidity, soil
      temperature and moisture. */
  const AuxMask: seq<Reader> := [Uint16, Uint16, Temperature, Temperature, Uint8, Temperature, Uint8]

  const ActiveMask: seq<Reader> := WeatherMask + AuxMask

  const ActiveNames: seq<string> := [
    "status", "air_temp_c", "humidity", "wind_gust_meter_sec", "wind_avg_meter_sec", "wind_direction_deg",
    "rain_mm", "supply_v", "battery_v", "water_temp_c", "indoor_temp_c", "indoor_humidity",
    "soil_temp_c", "soil_moisture"]

  /** `ttn_decoder_fp`: the active layout applied to the uplink bytes. */
  function TtnDecoderFp(bytes: seq<Byte>): (r: Result<map<string, Value>>)
    ensures r.Err? <==> |bytes| < 26
  {
    ActiveMaskLength();
    Decode(bytes, ActiveMask, ActiveNames)
  }

  lemma ActiveNamesDistinct()
    ensures Distinct(ActiveNames)
  {
  }

  lemma ActiveMaskLength()
    ensures MaskLength(ActiveMask) == 26
  {
    WeatherMaskLength();
    AuxMaskLength();
    MaskLengthAppend(WeatherMask, AuxMask);
  }

  lemma WeatherMaskLength()
    ensures MaskLength(WeatherMask) == 14
  {
    var m := WeatherMask;
    assert MaskLength(m[4..]) == 8 by {
      assert MaskLength(m[6..]) == 4 by {
        assert m[6..][1..] == [];
      }
      assert m[4..][1..] == m[5..] && m[5..][1..] == m[6..];
    }
    assert m[1..][1..] == m[2..] && m[2..][1..] == m[3..] && m[3..][1..] == m[4..];
  }

  lemma AuxMaskLength()
    ensures MaskLength(AuxMask) == 12
  {
    var m := AuxMask;
    assert MaskLength(m[4..]) == 4 by {
      assert MaskLength(m[6..]) == 1 by {
        assert m[6..][1..] == [];
      }
      assert m[4..][1..] == m[5..] && m[5..][1..] == m[6..];
    }
    assert m[1..][1..] == m[2..] && m[2..][1..] == m[3..] && m[3..][1..] == m[4..];
  }

  lemma {:induction false} MaskLengthAppend(a: seq<Reader>, b: seq<Reader>)
    ensures MaskLength(a + b) == MaskLength(a) + MaskLength(b)
    decreases |a|
  {
    if a == [] {
      assert a + b == b;
    } else {
      assert (a + b)[1..] == a[1..] + b;
      MaskLengthAppend(a[1..], b);
    }
  }

  /** From 26 bytes on, the uplink yields its 14 names as keys, field `k` under name `k`
      read by function `k` of the mask from its own bytes. */
  lemma ActiveLayout(bytes: seq<Byte>)
    requires |bytes| >= 26
    ensures TtnDecoderFp(bytes).Ok?
    ensures TtnDecoderFp(bytes).value.Keys == set k | k in ActiveNames
    ensures forall k :: 0 <= k < 14 ==>
              ActiveNames[k] in TtnDecoderFp(bytes).value &&
              Ok(TtnDecoderFp(bytes).value[ActiveNames[k]]) == Read(ActiveMask[k], FieldBytes(bytes, ActiveMask, k))
  {
    ActiveMaskLength();
    ReadChecked();
    ActiveNamesDistinct();
    assert ActiveNames[..14] == ActiveNames;
    DecodeFields(Read, bytes, ActiveMask, ActiveNames);
    assert TtnDecoderFp(bytes) == DecodeWith(Read, bytes, ActiveMask, ActiveNames);
  }
}
