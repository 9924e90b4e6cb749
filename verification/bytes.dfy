/** Bytes and the one big-endian write primitive every VHD structure is
    encoded with (Node's `Buffer.writeUInt32BE` / `writeUInt16BE`). */
module Bytes {

  type byte = x: int | 0 <= x < 256

  const U32Limit: int := 0x1_0000_0000

  predicate IsU32(v: int) {
    0 <= v < U32Limit
  }

  /** `n` bytes of value `b`, what `Buffer.alloc(n, b)` yields. */
  function Fill(n: nat, b: byte): (r: seq<byte>)
    ensures |r| == n
    ensures forall i :: 0 <= i < n ==> r[i] == b
  {
    seq(n, _ => b)
  }

  function Zeros(n: nat): (r: seq<byte>)
    ensures |r| == n
    ensures forall i :: 0 <= i < n ==> r[i] == 0
  {
    Fill(n, 0)
  }

  /** Big-endian decoding of a byte string, most significant byte first. */
  function DecodeBE(b: seq<byte>): nat
  {
    if |b| == 0 then 0 else DecodeBE(b[..|b| - 1]) * 256 + b[|b| - 1]
  }

  /** Big-endian encoding of `v` on `width` bytes; `v` must fit. */
  function EncodeBE(v: nat, width: nat): (r: seq<byte>)
    decreases width
  {
    if width == 0 then [] else EncodeBE(v / 256, width - 1) + [v % 256]
  }

  function Pow256(n: nat): (r: nat)
    ensures r > 0
  {
    if n == 0 then 1 else 256 * Pow256(n - 1)
  }

  lemma {:induction false} EncodeDecode(v: nat, width: nat)
    requires v < Pow256(width)
    ensures |EncodeBE(v, width)| == width
    ensures DecodeBE(EncodeBE(v, width)) == v
  {
    if width > 0 {
      QuotientBound(v, Pow256(width - 1));
      EncodeDecode(v / 256, width - 1);
      var e := EncodeBE(v, width);
      assert e[..|e| - 1] == EncodeBE(v / 256, width - 1);
    }
  }

  lemma QuotientBound(v: nat, p: nat)
    requires v < 256 * p
    ensures v / 256 < p
  {
  }

  lemma {:induction false} DecodeEncode(b: seq<byte>)
    ensures DecodeBE(b) < Pow256(|b|)
    ensures EncodeBE(DecodeBE(b), |b|) == b
  {
    if |b| > 0 {
      var init := b[..|b| - 1];
      DecodeEncode(init);
      var d := DecodeBE(b);
      assert d / 256 == DecodeBE(init) && d % 256 == b[|b| - 1];
      assert b == init + [b[|b| - 1]];
    }
  }

  /** A 32-bit big-endian field as `Buffer.readUInt32BE` reads it. */
  function Be32(b: seq<byte>): nat
    requires |b| == 4
  {
    b[0] as int * 0x100_0000 + b[1] as int * 0x1_0000 + b[2] as int * 256 + b[3]
  }

  /** A 16-bit big-endian field as `Buffer.readUInt16BE` reads it. */
  function Be16(b: seq<byte>): nat
    requires |b| == 2
  {
    b[0] as int * 256 + b[1]
  }

  /** The fixed-width readers agree with the general decoding. */
  lemma FixedWidthDecode(b: seq<byte>)
    ensures |b| == 4 ==> Be32(b) == DecodeBE(b)
    ensures |b| == 2 ==> Be16(b) == DecodeBE(b)
  {
    if |b| >= 2 {
      assert b[..1][..0] == [];
      assert DecodeBE(b[..1]) == b[0];
      assert b[..2][..1] == b[..1];
      assert DecodeBE(b[..2]) == b[0] as int * 256 + b[1];
      if |b| == 2 {
        assert b[..2] == b;
      } else if |b| == 4 {
        assert b[..3][..2] == b[..2];
        assert b[..4][..3] == b[..3];
        assert b[..4] == b;
      }
    }
  }

  /** `Buffer.writeUInt32BE(v, ...)`'s four bytes, most significant first. */
  function U32BE(v: int): (r: seq<byte>)
    requires IsU32(v)
    ensures |r| == 4
    ensures Be32(r) == v
  {
    var a := v / 256;
    var b := a / 256;
    assert a < 0x100_0000 && b < 0x1_0000;
    assert v == (b * 256 + a % 256) * 256 + v % 256;
    [b / 256, b % 256, a % 256, v % 256]
  }

  /** `writeUInt32BE` is the general encoding on four bytes. */
  lemma U32BEIsEncodeBE(v: int)
    requires IsU32(v)
    ensures U32BE(v) == EncodeBE(v, 4)
  {
    var e := EncodeBE(v, 4);
    assert Pow256(4) == U32Limit;
    EncodeDecode(v, 4);
    DecodeEncode(U32BE(v));
    FixedWidthDecode(U32BE(v));
  }

  /** `Buffer.writeUInt16BE(v, ...)`'s two bytes. */
  function U16BE(v: int): (r: seq<byte>)
    requires 0 <= v < 0x1_0000
    ensures |r| == 2
    ensures Be16(r) == v
  {
    [v / 256, v % 256]
  }

  lemma U16BEIsEncodeBE(v: int)
    requires 0 <= v < 0x1_0000
    ensures U16BE(v) == EncodeBE(v, 2)
  {
    DecodeEncode(U16BE(v));
    FixedWidthDecode(U16BE(v));
  }

  predicate IsAscii(s: string) {
    forall i :: 0 <= i < |s| ==> s[i] as int < 128
  }

  /** `Buffer.from(s, 'ascii')` for a 7-bit string. */
  function Ascii(s: string): (r: seq<byte>)
    requires IsAscii(s)
    ensures |r| == |s|
    ensures forall i :: 0 <= i < |s| ==> r[i] == s[i] as int
  {
    seq(|s|, i requires 0 <= i < |s| => s[i] as int)
  }

  /** Sum of all bytes as unbounded integers. */
  function Sum(b: seq<byte>): nat
  {
    if |b| == 0 then 0 else Sum(b[..|b| - 1]) + b[|b| - 1]
  }

  lemma {:induction false} SumAppend(a: seq<byte>, b: seq<byte>)
    ensures Sum(a + b) == Sum(a) + Sum(b)
    decreases |b|
  {
    if |b| == 0 {
      assert a + b == a;
    } else {
      var b' := b[..|b| - 1];
      SumAppend(a, b');
      assert (a + b)[..|a + b| - 1] == a + b';
    }
  }

  lemma {:induction false} SumFill(n: nat, v: byte)
    ensures Sum(Fill(n, v)) == n * v
  {
    if n > 0 {
      SumFill(n - 1, v);
      assert Fill(n, v)[..n - 1] == Fill(n - 1, v);
    }
  }
}
