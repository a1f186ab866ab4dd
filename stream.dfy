/** The byte codec: an append-only `Writer` and a cursor `Reader`, both big-endian. */
module Stream {
  import opened Wrappers
  import opened Bytes
  import opened Utf8

  /** What `Writer.Str` appends: a 16-bit length prefix, truncated to the low 16 bits of the byte
      length, followed by every byte of the string, however long. */
  function EncodeStr(s: seq<uint8>): (r: seq<uint8>)
    ensures |r| == 2 + |s|
    ensures FromBigEndian(r[..2]) == |s| % 0x1_0000 && r[2..] == s
  {
    var prefix := BigEndian(|s| % 0x1_0000, 2);
    UnsignedRoundTrip(|s| % 0x1_0000, 2);
    assert (prefix + s)[..2] == prefix;
    prefix + s
  }

  /** The string whose length prefix is at `p` fits in `data`: both prefix bytes are there, and
      at least as many bytes as the prefix counts follow it. */
  predicate StrFits(data: seq<uint8>, p: nat) {
    p + 2 <= |data| && p + 2 + FromBigEndian(data[p..p + 2]) <= |data|
  }

  /** What `Reader.Str` returns when its cursor is at `p`: the prefix gives a byte count `n`, and
      the `n` bytes after the prefix become the text, or "" when they are not valid UTF-8. */
  function StrAt(data: seq<uint8>, p: nat): (r: Option<Text>)
    ensures r.Some? <==> StrFits(data, p)
    ensures r.Some? ==> p + 2 <= |data|
  {
    if |data| < p + 2 then None
    else
      var n := FromBigEndian(data[p..p + 2]);
      if |data| - (p + 2) < n then None else Some(FromUtf8OrEmpty(data[p + 2..p + 2 + n]))
  }

  /** Reading a string where one was written: the reader sees the first |s| mod 65536 bytes of
      it, which is all of it exactly when the string is shorter than 65536 bytes. */
  lemma StrAtEncodeStr(data: seq<uint8>, p: nat, s: seq<uint8>)
    requires p + 2 + |s| <= |data| && data[p..p + 2 + |s|] == EncodeStr(s)
    ensures StrAt(data, p) == Some(FromUtf8OrEmpty(s[..|s| % 0x1_0000]))
  {
    var e := EncodeStr(s);
    var n := |s| % 0x1_0000;
    assert data[p..p + 2] == e[..2];
    assert data[p + 2..p + 2 + n] == s[..n] by {
      assert data[p + 2..p + |e|] == e[2..];
    }
    StrAtPrefix(data, p, n, s[..n]);
  }

  lemma StrAtPrefix(data: seq<uint8>, p: nat, n: nat, body: seq<uint8>)
    requires p + 2 + n <= |data|
    requires FromBigEndian(data[p..p + 2]) == n && data[p + 2..p + 2 + n] == body
    ensures StrAt(data, p) == Some(FromUtf8OrEmpty(body))
  {
  }

  /** A text shorter than 65536 bytes reads back whole. */
  lemma StrRoundTrip(data: seq<uint8>, p: nat, s: Text)
    requires |s| < 0x1_0000
    requires p + 2 + |s| <= |data| && data[p..p + 2 + |s|] == EncodeStr(s)
    ensures StrAt(data, p) == Some(s)
  {
    StrAtEncodeStr(data, p, s);
    assert s[..|s| % 0x1_0000] == s;
  }

  /** An append-only byte buffer. */
  class Writer {
    var buf: seq<uint8>

    constructor ()
      ensures buf == []
    {
      buf := [];
    }

    method U64(i: uint64)
      modifies this
      ensures buf == old(buf) + BigEndian(i, 8)
    {
      BigEndian8(i);
      buf := buf + [(i / 0x100_0000_0000_0000) % 0x100, (i / 0x1_0000_0000_0000) % 0x100,
                    (i / 0x100_0000_0000) % 0x100, (i / 0x1_0000_0000) % 0x100,
                    (i / 0x100_0000) % 0x100, (i / 0x1_0000) % 0x100, (i / 0x100) % 0x100,
                    i % 0x100];
    }

    /** The bytes of `i`'s 64-bit two's complement (`BigEndian` of a negative number). */
    method I64(i: int64)
      modifies this
      ensures buf == old(buf) + BigEndian(i, 8)
    {
      BigEndian8(i);
      buf := buf + [(i / 0x100_0000_0000_0000) % 0x100, (i / 0x1_0000_0000_0000) % 0x100,
                    (i / 0x100_0000_0000) % 0x100, (i / 0x1_0000_0000) % 0x100,
                    (i / 0x100_0000) % 0x100, (i / 0x1_0000) % 0x100, (i / 0x100) % 0x100,
                    i % 0x100];
    }

    method U32(i: uint32)
      modifies this
      ensures buf == old(buf) + BigEndian(i, 4)
    {
      BigEndian4(i);
      buf := buf + [(i / 0x100_0000) % 0x100, (i / 0x1_0000) % 0x100, (i / 0x100) % 0x100,
                    i % 0x100];
    }

    /** The bytes of `i`'s 32-bit two's complement. */
    method I32(i: int32)
      modifies this
      ensures buf == old(buf) + BigEndian(i, 4)
    {
      BigEndian4(i);
      buf := buf + [(i / 0x100_0000) % 0x100, (i / 0x1_0000) % 0x100, (i / 0x100) % 0x100,
                    i % 0x100];
    }

    /** The bytes of `i`'s 16-bit two's complement. */
    method I16(i: int16)
      modifies this
      ensures buf == old(buf) + BigEndian(i, 2)
    {
      BigEndian2(i);
      buf := buf + [(i / 0x100) % 0x100, i % 0x100];
    }

    method U16(i: uint16)
      modifies this
      ensures buf == old(buf) + BigEndian(i, 2)
    {
      BigEndian2(i);
      buf := buf + [(i / 0x100) % 0x100, i % 0x100];
    }

    method U8(b: uint8)
      modifies this
      ensures buf == old(buf) + [b]
    {
      buf := buf + [b];
    }

    method Bool(b: bool)
      modifies this
      ensures buf == old(buf) + [if b then 1 else 0]
    {
      U8(if b then 1 else 0);
    }

    /** The length prefix is the byte length cast to 16 bits; nothing stops a string of 65536
        bytes or more, whose prefix then understates its length. */
    method Str(s: Text)
      modifies this
      ensures buf == old(buf) + EncodeStr(s)
    {
      U16(|s| % 0x1_0000);
      buf := buf + s;
    }

    method Bytes(s: seq<uint8>)
      modifies this
      ensures buf == old(buf) + s
    {
      buf := buf + s;
    }
  }

  /** A read-only byte slice with a cursor. Every read either succeeds and advances the cursor by
      the width it decoded, or fails and leaves the cursor alone; `PeekU8` and `Bytes` never move
      it, and `BytesRemaining` moves it to the end. */
  class Reader {
    const data: seq<uint8>
    var pos: nat

    /** The cursor never passes the end of the slice. */
    ghost predicate Valid()
      reads this
    {
      pos <= |data|
    }

    constructor (data: seq<uint8>)
      ensures this.data == data && pos == 0 && Valid()
    {
      this.data := data;
      pos := 0;
    }

    method U64() returns (r: Option<uint64>)
      requires Valid()
      modifies this
      ensures Valid()
      ensures |data| - old(pos) < 8 ==> r == None && pos == old(pos)
      ensures |data| - old(pos) >= 8 ==>
        pos == old(pos) + 8 && r == Some(FromBigEndian(data[old(pos)..pos]))
    {
      if |data| - pos < 8 {
        r := None;
      } else {
        var value := data[pos] as int * 0x100_0000_0000_0000 +
          data[pos + 1] as int * 0x1_0000_0000_0000 + data[pos + 2] as int * 0x100_0000_0000 +
          data[pos + 3] as int * 0x1_0000_0000 + data[pos + 4] as int * 0x100_0000 +
          data[pos + 5] as int * 0x1_0000 + data[pos + 6] as int * 0x100 + data[pos + 7];
        FromBigEndian8(data[pos..pos + 8]);
        pos := pos + 8;
        r := Some(value);
      }
    }

    /** The eight bytes reinterpreted as a 64-bit two's complement (Rust's wrapping `<<`). */
    method I64() returns (r: Option<int64>)
      requires Valid()
      modifies this
      ensures Valid()
      ensures |data| - old(pos) < 8 ==> r == None && pos == old(pos)
      ensures |data| - old(pos) >= 8 ==>
        pos == old(pos) + 8 && r == Some(FromTwosComplement(FromBigEndian(data[old(pos)..pos]), 8))
    {
      if |data| - pos < 8 {
        r := None;
      } else {
        var value := data[pos] as int * 0x100_0000_0000_0000 +
          data[pos + 1] as int * 0x1_0000_0000_0000 + data[pos + 2] as int * 0x100_0000_0000 +
          data[pos + 3] as int * 0x1_0000_0000 + data[pos + 4] as int * 0x100_0000 +
          data[pos + 5] as int * 0x1_0000 + data[pos + 6] as int * 0x100 + data[pos + 7];
        FromBigEndian8(data[pos..pos + 8]);
        pos := pos + 8;
        r := Some(if value >= 0x8000_0000_0000_0000 then value - 0x1_0000_0000_0000_0000 else value);
      }
    }

    method U32() returns (r: Option<uint32>)
      requires Valid()
      modifies this
      ensures Valid()
      ensures |data| - old(pos) < 4 ==> r == None && pos == old(pos)
      ensures |data| - old(pos) >= 4 ==>
        pos == old(pos) + 4 && r == Some(FromBigEndian(data[old(pos)..pos]))
    {
      if |data| - pos < 4 {
        r := None;
      } else {
        var value := data[pos] as int * 0x100_0000 + data[pos + 1] as int * 0x1_0000 +
          data[pos + 2] as int * 0x100 + data[pos + 3];
        FromBigEndian4(data[pos..pos + 4]);
        pos := pos + 4;
        r := Some(value);
      }
    }

    /** The four bytes reinterpreted as a 32-bit two's complement. */
    method I32() returns (r: Option<int32>)
      requires Valid()
      modifies this
      ensures Valid()
      ensures |data| - old(pos) < 4 ==> r == None && pos == old(pos)
      ensures |data| - old(pos) >= 4 ==>
        pos == old(pos) + 4 && r == Some(FromTwosComplement(FromBigEndian(data[old(pos)..pos]), 4))
    {
      if |data| - pos < 4 {
        r := None;
      } else {
        var value := data[pos] as int * 0x100_0000 + data[pos + 1] as int * 0x1_0000 +
          data[pos + 2] as int * 0x100 + data[pos + 3];
        FromBigEndian4(data[pos..pos + 4]);
        pos := pos + 4;
        r := Some(if value >= 0x8000_0000 then value - 0x1_0000_0000 else value);
      }
    }

    method U16() returns (r: Option<uint16>)
      requires Valid()
      modifies this
      ensures Valid()
      ensures |data| - old(pos) < 2 ==> r == None && pos == old(pos)
      ensures |data| - old(pos) >= 2 ==>
        pos == old(pos) + 2 && r == Some(FromBigEndian(data[old(pos)..pos]))
    {
      if |data| - pos < 2 {
        r := None;
      } else {
        var value := data[pos] as int * 0x100 + data[pos + 1];
        FromBigEndian2(data[pos..pos + 2]);
        pos := pos + 2;
        r := Some(value);
      }
    }

    /** The two bytes reinterpreted as a 16-bit two's complement. */
    method I16() returns (r: Option<int16>)
      requires Valid()
      modifies this
      ensures Valid()
      ensures |data| - old(pos) < 2 ==> r == None && pos == old(pos)
      ensures |data| - old(pos) >= 2 ==>
        pos == old(pos) + 2 && r == Some(FromTwosComplement(FromBigEndian(data[old(pos)..pos]), 2))
    {
      if |data| - pos < 2 {
        r := None;
      } else {
        var value := data[pos] as int * 0x100 + data[pos + 1];
        FromBigEndian2(data[pos..pos + 2]);
        pos := pos + 2;
        r := Some(if value >= 0x8000 then value - 0x1_0000 else value);
      }
    }

    method U8() returns (r: Option<uint8>)
      requires Valid()
      modifies this
      ensures Valid()
      ensures old(pos) == |data| ==> r == None && pos == old(pos)
      ensures old(pos) < |data| ==> pos == old(pos) + 1 && r == Some(data[old(pos)])
    {
      if |data| == pos {
        r := None;
      } else {
        var value := data[pos];
        pos := pos + 1;
        r := Some(value);
      }
    }

    method PeekU8() returns (r: Option<uint8>)
      requires Valid()
      ensures r == if pos == |data| then None else Some(data[pos])
    {
      if |data| == pos {
        r := None;
      } else {
        r := Some(data[pos]);
      }
    }

    /** The byte reinterpreted as an 8-bit two's complement (`v as i8`). */
    method I8() returns (r: Option<int8>)
      requires Valid()
      modifies this
      ensures Valid()
      ensures old(pos) == |data| ==> r == None && pos == old(pos)
      ensures old(pos) < |data| ==>
        pos == old(pos) + 1 && r == Some(FromTwosComplement(data[old(pos)], 1))
    {
      var v := U8();
      r := if v.None? then None else Some(if v.value >= 0x80 then v.value as int - 0x100 else v.value);
    }

    /** Any nonzero byte reads as `true`. */
    method Bool() returns (r: Option<bool>)
      requires Valid()
      modifies this
      ensures Valid()
      ensures old(pos) == |data| ==> r == None && pos == old(pos)
      ensures old(pos) < |data| ==> pos == old(pos) + 1 && r == Some(data[old(pos)] != 0)
    {
      var v := U8();
      r := if v.None? then None else Some(v.value != 0);
    }

    /** Reads the length prefix with `U16`, then takes the bytes with `Bytes`, which does not
        advance: after a successful read the cursor sits just past the prefix, at the first byte
        of the string itself. */
    method Str() returns (r: Option<Text>)
      requires Valid()
      modifies this
      ensures Valid()
      ensures r == StrAt(data, old(pos))
      ensures pos == if |data| - old(pos) < 2 then old(pos) else old(pos) + 2
    {
      var len := U16();
      if len.None? {
        return None;
      }
      var bytes := Bytes(len.value);
      if bytes.None? {
        return None;
      }
      r := Some(FromUtf8OrEmpty(bytes.value));
    }

    /** The `n` bytes at the cursor, without moving it. */
    method Bytes(n: nat) returns (r: Option<seq<uint8>>)
      requires Valid()
      ensures r == if |data| - pos < n then None else Some(data[pos..pos + n])
    {
      if |data| - pos < n {
        return None;
      }
      r := Some(data[pos..pos + n]);
    }

    /** Everything after the cursor; the cursor moves to the end. */
    method BytesRemaining() returns (r: seq<uint8>)
      requires Valid()
      modifies this
      ensures Valid()
      ensures r == data[old(pos)..] && pos == |data|
    {
      r := data[pos..];
      pos := |data|;
    }
  }

  /** Writes one unsigned value of every width with a `Writer`, then reads them back in order
      with a `Reader` over the bytes written: each comes back unchanged and the whole buffer is
      consumed. */
  method UnsignedWriteRead(a: uint64, b: uint32, c: uint16, d: uint8)
    returns (ra: Option<uint64>, rb: Option<uint32>, rc: Option<uint16>, rd: Option<uint8>,
             left: nat)
    ensures ra == Some(a) && rb == Some(b) && rc == Some(c) && rd == Some(d)
    ensures left == 0
  {
    var w := new Writer();
    w.U64(a);
    w.U32(b);
    w.U16(c);
    w.U8(d);
    var bytes := w.buf;
    UnsignedLayout(a, b, c, d, bytes);
    var r := new Reader(bytes);
    ra := r.U64();
    rb := r.U32();
    rc := r.U16();
    rd := r.U8();
    left := |r.data| - r.pos;
  }

  /** The same for the signed widths and a boolean: negative values come back unchanged. */
  method SignedWriteRead(a: int64, b: int32, c: int16, d: bool)
    returns (ra: Option<int64>, rb: Option<int32>, rc: Option<int16>, rd: Option<bool>,
             left: nat)
    ensures ra == Some(a) && rb == Some(b) && rc == Some(c) && rd == Some(d)
    ensures left == 0
  {
    var w := new Writer();
    w.I64(a);
    w.I32(b);
    w.I16(c);
    w.Bool(d);
    var bytes := w.buf;
    SignedLayout(a, b, c, d, bytes);
    var r := new Reader(bytes);
    ra := r.I64();
    rb := r.I32();
    rc := r.I16();
    rd := r.Bool();
    left := |r.data| - r.pos;
  }

  /** Where the pieces of a concatenation of four sit in it. */
  lemma ConcatSlices<T>(x: seq<T>, y: seq<T>, z: seq<T>, t: seq<T>)
    ensures var s := [] + x + y + z + t;
      s[..|x|] == x && s[|x|..|x| + |y|] == y && s[|x| + |y|..|x| + |y| + |z|] == z &&
      s[|x| + |y| + |z|..] == t
  {
    var s := [] + x + y + z + t;
    assert s == x + (y + (z + t));
    assert s[|x|..] == y + (z + t);
    assert s[|x|..][|y|..] == z + t;
  }

  /** Where each value sits in the bytes `UnsignedWriteRead` writes. */
  lemma UnsignedLayout(a: uint64, b: uint32, c: uint16, d: uint8, bytes: seq<uint8>)
    requires bytes == [] + BigEndian(a, 8) + BigEndian(b, 4) + BigEndian(c, 2) + [d]
    ensures |bytes| == 15 && bytes[14] == d
    ensures FromBigEndian(bytes[0..8]) == a && FromBigEndian(bytes[8..12]) == b
    ensures FromBigEndian(bytes[12..14]) == c
  {
    ConcatSlices(BigEndian(a, 8), BigEndian(b, 4), BigEndian(c, 2), [d]);
    UnsignedRoundTrip(a, 8);
    UnsignedRoundTrip(b, 4);
    UnsignedRoundTrip(c, 2);
  }

  /** Where each value sits in the bytes `SignedWriteRead` writes. */
  lemma SignedLayout(a: int64, b: int32, c: int16, d: bool, bytes: seq<uint8>)
    requires bytes ==
      [] + BigEndian(a, 8) + BigEndian(b, 4) + BigEndian(c, 2) + [if d then 1 else 0]
    ensures |bytes| == 15 && (bytes[14] != 0) == d
    ensures FromTwosComplement(FromBigEndian(bytes[0..8]), 8) == a
    ensures FromTwosComplement(FromBigEndian(bytes[8..12]), 4) == b
    ensures FromTwosComplement(FromBigEndian(bytes[12..14]), 2) == c
  {
    ConcatSlices(BigEndian(a, 8), BigEndian(b, 4), BigEndian(c, 2), [if d then 1 else 0]);
    Pow256Table();
    BigEndianRoundTrip(a, 8);
    SignedRoundTrip(a, 8);
    BigEndianRoundTrip(b, 4);
    SignedRoundTrip(b, 4);
    BigEndianRoundTrip(c, 2);
    SignedRoundTrip(c, 2);
  }

  /** Writes a string and reads it back: the text comes back whole, but the cursor has moved only
      past the two-byte prefix, so `left` counts the string's own bytes as still unread. */
  method StrReadBack(s: Text) returns (r: Option<Text>, left: nat)
    requires |s| < 0x1_0000
    ensures r == Some(s)
    ensures left == |s|
  {
    var w := new Writer();
    w.Str(s);
    StrRoundTrip(w.buf, 0, s);
    var rd := new Reader(w.buf);
    r := rd.Str();
    left := |rd.data| - rd.pos;
  }
}
