/** The VHD ones'-complement checksum (`computeChecksum`): the bytes are
    summed, and the result is the bitwise complement of that sum taken as an
    unsigned 32-bit integer. */
module VhdChecksum {
  import opened Bytes

  function Pow2(n: nat): (r: nat)
    ensures r > 0
  {
    if n == 0 then 1 else 2 * Pow2(n - 1)
  }

  /** Bitwise NOT of the low `n` bits of `x`, defined bit by bit. */
  function BitwiseNot(x: nat, n: nat): nat
  {
    if n == 0 then 0 else (1 - x % 2) + 2 * BitwiseNot(x / 2, n - 1)
  }

  /** On `n`-bit values the bitwise complement is `2^n - 1 - x`. */
  lemma {:induction false} BitwiseNotIsSubtraction(x: nat, n: nat)
    requires x < Pow2(n)
    ensures BitwiseNot(x, n) == Pow2(n) - 1 - x
  {
    if n > 0 {
      BitwiseNotIsSubtraction(x / 2, n - 1);
    }
  }

  lemma {:induction false} Pow2Add(a: nat, b: nat)
    ensures Pow2(a + b) == Pow2(a) * Pow2(b)
  {
    if a > 0 {
      Pow2Add(a - 1, b);
    }
  }

  lemma Pow2Of32()
    ensures Pow2(32) == U32Limit
  {
    assert Pow2(2) == 4;
    Pow2Add(2, 2);
    Pow2Add(4, 4);
    Pow2Add(8, 8);
    Pow2Add(16, 16);
  }

  /** The checksum of `b` is the 32-bit complement of the sum of its bytes. */
  function Checksum(b: seq<byte>): (r: int)
    ensures IsU32(r)
  {
    0xFFFF_FFFF - Sum(b) % U32Limit
  }

  /** The subtraction above is the bitwise complement on 32 bits. */
  lemma ChecksumIsComplement(b: seq<byte>)
    ensures Checksum(b) == BitwiseNot(Sum(b) % U32Limit, 32)
  {
    Pow2Of32();
    BitwiseNotIsSubtraction(Sum(b) % U32Limit, 32);
  }

  /** `computeChecksum` as written: one pass accumulating the byte sum. */
  method ComputeChecksum(buffer: seq<byte>) returns (c: int)
    ensures IsU32(c)
    ensures c == BitwiseNot(Sum(buffer) % U32Limit, 32)
  {
    var sum := 0;
    var i := 0;
    while i < |buffer|
      invariant 0 <= i <= |buffer|
      invariant sum == Sum(buffer[..i])
    {
      assert buffer[..i + 1][..i] == buffer[..i];
      sum := sum + buffer[i];
      i := i + 1;
    }
    assert buffer[..i] == buffer;
    // `(~sum) >>> 0`: the complement of the sum's low 32 bits
    c := 0xFFFF_FFFF - sum % U32Limit;
    ChecksumIsComplement(buffer);
  }

  /** A structure carries a valid checksum in its 4 bytes at `at` when those
      bytes hold the checksum of the structure with the field zeroed. */
  predicate ChecksumValid(b: seq<byte>, at: nat)
    requires at + 4 <= |b|
  {
    Be32(b[at..at + 4]) == Checksum(b[..at] + Zeros(4) + b[at + 4..])
  }

  /** Ones'-complement self-consistency: the checksum added to the sum of
      the zero-field structure gives all ones modulo 2^32. */
  lemma ComplementSumsToAllOnes(b: seq<byte>)
    ensures (Sum(b) + Checksum(b)) % U32Limit == 0xFFFF_FFFF
  {
  }
}
