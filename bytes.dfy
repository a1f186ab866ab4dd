/** Fixed-width machine integers and their big-endian byte encodings.

    Rust's `u8` .. `i64` become subset types of `int`; the codec's shift-and-mask arithmetic is
    stated with `/` and `%`, which for a positive divisor round down exactly like an arithmetic
    right shift followed by `& 0xff`. */
module Bytes {

  type uint8 = x: int | 0 <= x < 0x100
  type uint16 = x: int | 0 <= x < 0x1_0000
  type uint32 = x: int | 0 <= x < 0x1_0000_0000
  type uint64 = x: int | 0 <= x < 0x1_0000_0000_0000_0000
  type int8 = x: int | -0x80 <= x < 0x80
  type int16 = x: int | -0x8000 <= x < 0x8000
  type int32 = x: int | -0x8000_0000 <= x < 0x8000_0000
  type int64 = x: int | -0x8000_0000_0000_0000 <= x < 0x8000_0000_0000_0000

  /** 256 to the power `n`: the number of values `n` bytes can hold. */
  function Pow256(n: nat): (p: nat)
    ensures p >= 1
  {
    if n == 0 then 1 else 0x100 * Pow256(n - 1)
  }

  /** The `width` low-order bytes of `i`, most significant first: the low byte last, and before
      it the bytes of `i` shifted right by 8. For a negative `i` these are the bytes of its two's
      complement. */
  function BigEndian(i: int, width: nat): (s: seq<uint8>)
    ensures |s| == width
    decreases width
  {
    if width == 0 then [] else BigEndian(i / 0x100, width - 1) + [i % 0x100]
  }

  /** Byte `k` of the encoding is the digit of weight 256^(width-1-k): the byte that the
      writer's arithmetic shift right by 8 * (width-1-k) followed by `& 0xff` keeps. */
  lemma {:induction false} BigEndianAt(i: int, width: nat, k: nat)
    requires k < width
    ensures BigEndian(i, width)[k] == (i / Pow256(width - 1 - k)) % 0x100
    decreases width
  {
    if k < width - 1 {
      BigEndianAt(i / 0x100, width - 1, k);
      DivDiv(i, 0x100, Pow256(width - 2 - k));
    }
  }

  /** The unsigned number whose big-endian bytes are `s`: each byte shifts the bytes before it
      up by 8 bits. */
  function FromBigEndian(s: seq<uint8>): (v: nat)
    ensures v < Pow256(|s|)
  {
    if s == [] then 0 else FromBigEndian(s[..|s| - 1]) * 0x100 + s[|s| - 1]
  }

  /** The signed number whose `width`-byte two's complement encoding has unsigned value `u`. */
  function FromTwosComplement(u: int, width: nat): (i: int)
    requires width > 0
    ensures 0 <= u < Pow256(width) ==> -0x80 * Pow256(width - 1) <= i < 0x80 * Pow256(width - 1)
    ensures 0 <= u < 0x80 * Pow256(width - 1) ==> i == u
  {
    if u >= 0x80 * Pow256(width - 1) then u - Pow256(width) else u
  }

  lemma AppendAssoc<T>(a: seq<T>, b: seq<T>, c: seq<T>)
    ensures a + (b + c) == a + b + c
  {
  }

  /** Euclidean division is unique: any quotient and remainder in range are the ones `/` and `%`
      compute. */
  lemma DivModUnique(i: int, m: int, q: int, r: int)
    requires m > 0 && 0 <= r < m && i == m * q + r
    ensures i / m == q && i % m == r
  {
    var q', r' := i / m, i % m;
    assert m * (q - q') == r' - r;
    if q > q' {
      MulAtLeast(q - q', m);
    } else if q < q' {
      MulAtLeast(q' - q, m);
    }
  }

  lemma MulAtLeast(d: int, m: int)
    requires d >= 1 && m > 0
    ensures d * m >= m
  {
  }

  lemma MulMono(a: int, b: int, m: int)
    requires a <= b && m >= 0
    ensures a * m <= b * m
  {
  }

  /** Dividing twice is dividing once by the product. */
  lemma DivDiv(i: int, a: int, b: int)
    requires a > 0 && b > 0
    ensures (i / a) / b == i / (a * b)
  {
    var q1, r1 := i / a, i % a;
    var q2, r2 := q1 / b, q1 % b;
    assert i == (a * b) * q2 + (a * r2 + r1) by {
      assert i == a * q1 + r1;
      assert q1 == b * q2 + r2;
      assert a * q1 == (a * b) * q2 + a * r2;
    }
    MulMono(r2, b - 1, a);
    DivModUnique(i, a * b, q2, a * r2 + r1);
  }

  /** Splitting off the lowest byte of the value modulo `256 * p`. */
  lemma ModSplit(i: int, p: int)
    requires p > 0
    ensures i % (0x100 * p) == ((i / 0x100) % p) * 0x100 + i % 0x100
  {
    var q, r := i / 0x100, i % 0x100;
    var hi, lo := q / p, q % p;
    assert i == (0x100 * p) * hi + (lo * 0x100 + r) by {
      assert q == p * hi + lo;
    }
    DivModUnique(i, 0x100 * p, hi, lo * 0x100 + r);
  }

  /** Reading back the bytes of a `width`-byte encoding gives the value modulo 256^width. */
  lemma {:induction false} BigEndianRoundTrip(i: int, width: nat)
    ensures FromBigEndian(BigEndian(i, width)) == i % Pow256(width)
    decreases width
  {
    if width > 0 {
      var s := BigEndian(i, width);
      assert s[..width - 1] == BigEndian(i / 0x100, width - 1);
      BigEndianRoundTrip(i / 0x100, width - 1);
      ModSplit(i, Pow256(width - 1));
    }
  }

  /** Reinterpreting the low `width` bytes of an in-range signed value gives the value back. */
  lemma SignedRoundTrip(i: int, width: nat)
    requires width > 0
    requires -0x80 * Pow256(width - 1) <= i < 0x80 * Pow256(width - 1)
    ensures FromTwosComplement(i % Pow256(width), width) == i
  {
    var m := Pow256(width);
    assert m == 0x100 * Pow256(width - 1);
    if i >= 0 {
      DivModUnique(i, m, 0, i);
    } else {
      DivModUnique(i, m, -1, i + m);
    }
  }

  /** An unsigned value of `width` bytes survives the write-then-read round trip. */
  lemma UnsignedRoundTrip(i: int, width: nat)
    requires 0 <= i < Pow256(width)
    ensures FromBigEndian(BigEndian(i, width)) == i
  {
    BigEndianRoundTrip(i, width);
    DivModUnique(i, Pow256(width), 0, i);
  }

  // Unfoldings of the definitions at the widths the codec uses, in the shape the shift
  // expressions of the source take.

  /** The powers of 256 the fixed widths need, as literals. */
  lemma Pow256Table()
    ensures Pow256(1) == 0x100 && Pow256(2) == 0x1_0000 && Pow256(3) == 0x100_0000
    ensures Pow256(4) == 0x1_0000_0000 && Pow256(5) == 0x100_0000_0000
    ensures Pow256(6) == 0x1_0000_0000_0000 && Pow256(7) == 0x100_0000_0000_0000
  {
  }

  lemma BigEndian2(i: int)
    ensures BigEndian(i, 2) == [(i / 0x100) % 0x100, i % 0x100]
  {
    BigEndianAt(i, 2, 0);
    BigEndianAt(i, 2, 1);
  }

  lemma BigEndian4(i: int)
    ensures BigEndian(i, 4) ==
      [(i / 0x100_0000) % 0x100, (i / 0x1_0000) % 0x100, (i / 0x100) % 0x100, i % 0x100]
  {
    BigEndianAt(i, 4, 0);
    BigEndianAt(i, 4, 1);
    BigEndianAt(i, 4, 2);
    BigEndianAt(i, 4, 3);
  }

  lemma BigEndian8(i: int)
    ensures BigEndian(i, 8) ==
      [(i / 0x100_0000_0000_0000) % 0x100, (i / 0x1_0000_0000_0000) % 0x100,
       (i / 0x100_0000_0000) % 0x100, (i / 0x1_0000_0000) % 0x100,
       (i / 0x100_0000) % 0x100, (i / 0x1_0000) % 0x100, (i / 0x100) % 0x100, i % 0x100]
  {
    Pow256Table();
    BigEndianAt(i, 8, 0);
    BigEndianAt(i, 8, 1);
    BigEndianAt(i, 8, 2);
    BigEndianAt(i, 8, 3);
    BigEndianAt(i, 8, 4);
    BigEndianAt(i, 8, 5);
    BigEndianAt(i, 8, 6);
    BigEndianAt(i, 8, 7);
  }

  lemma FromBigEndian2(s: seq<uint8>)
    requires |s| == 2
    ensures FromBigEndian(s) == s[0] as int * 0x100 + s[1]
  {
    assert s[..1][..0] == [];
  }

  lemma FromBigEndian4(s: seq<uint8>)
    requires |s| == 4
    ensures FromBigEndian(s) ==
      s[0] as int * 0x100_0000 + s[1] as int * 0x1_0000 + s[2] as int * 0x100 + s[3]
  {
    FromBigEndian2(s[..2]);
    assert s[..3][..2] == s[..2];
  }

  lemma FromBigEndian8(s: seq<uint8>)
    requires |s| == 8
    ensures FromBigEndian(s) ==
      s[0] as int * 0x100_0000_0000_0000 + s[1] as int * 0x1_0000_0000_0000 +
      s[2] as int * 0x100_0000_0000 + s[3] as int * 0x1_0000_0000 + s[4] as int * 0x100_0000 +
      s[5] as int * 0x1_0000 + s[6] as int * 0x100 + s[7]
  {
    FromBigEndian4(s[..4]);
    assert FromBigEndian(s[..5]) == FromBigEndian(s[..4]) * 0x100 + s[4] by {
      assert s[..5][..4] == s[..4];
    }
    assert FromBigEndian(s[..6]) == FromBigEndian(s[..5]) * 0x100 + s[5] by {
      assert s[..6][..5] == s[..5];
    }
    assert FromBigEndian(s[..7]) == FromBigEndian(s[..6]) * 0x100 + s[6] by {
      assert s[..7][..6] == s[..6];
    }
    assert s[..7] == s[..|s| - 1];
  }
}
