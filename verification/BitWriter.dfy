/** The bit writer behind residues and compressed packets: a byte buffer filled from the most
    significant bit on, into which only 1 bits are ever OR-ed. */
module BitWriting {
  import opened Bytes

  /** `n` bits in a buffer of exactly the bytes they need, the rest of the last byte zero. */
  predicate Fits(buffer: seq<byte>, n: nat) {
    |buffer| == (n + 7) / 8 && Room(buffer, n)
  }

  /** `n` bits in a buffer that may be longer; everything after them is zero. */
  predicate Room(buffer: seq<byte>, n: nat) {
    n <= 8 * |buffer| && forall i :: n <= i < 8 * |buffer| ==> Bits(buffer)[i] == 0
  }

  function Written(buffer: seq<byte>, n: nat): seq<bit>
    requires n <= 8 * |buffer|
  {
    Bits(buffer)[..n]
  }

  /** The bits written determine the buffer: whole bytes of the bits followed by zeros. */
  lemma BufferIsPacked(buffer: seq<byte>, n: nat)
    requires Fits(buffer, n)
    ensures |Written(buffer, n) + Repeat(0, 8 * |buffer| - n)| % 8 == 0
    ensures buffer == Pack(Written(buffer, n) + Repeat(0, 8 * |buffer| - n))
  {
    assert Written(buffer, n) + Repeat(0, 8 * |buffer| - n) == Bits(buffer);
    PackOfBits(buffer);
  }

  /** `b |= 0x80 >> off` */
  function SetBit(b: byte, off: nat): byte
    requires off < 8
  {
    ByteOf(ByteBits(b)[off := 1])
  }

  lemma SetBitBits(b: byte, off: nat)
    requires off < 8
    ensures ByteBits(SetBit(b, off)) == ByteBits(b)[off := 1]
  {
    NatBitsOfValue(ByteBits(b)[off := 1]);
  }

  lemma BitsAfterSet(buffer: seq<byte>, i: nat)
    requires i < 8 * |buffer|
    ensures Bits(buffer[i / 8 := SetBit(buffer[i / 8], i % 8)]) == Bits(buffer)[i := 1]
  {
    SetBitBits(buffer[i / 8], i % 8);
    var after := buffer[i / 8 := SetBit(buffer[i / 8], i % 8)];
    forall j | 0 <= j < 8 * |buffer| ensures Bits(after)[j] == Bits(buffer)[i := 1][j] {
      if j / 8 == i / 8 && j != i {
        assert j % 8 != i % 8;
      }
    }
  }

  lemma ZeroBytes(n: nat)
    ensures Bits(Repeat(0, n)) == Repeat(0, 8 * n)
  {
    assert NatBits(0, 8) == Repeat(0, 8);
  }

  /** Copying whole bytes onto whole bytes is writing their bits one by one. */
  lemma ByteCopyIsBitCopy(buffer: seq<byte>, n: nat, data: seq<byte>, k: nat)
    requires n % 8 == 0 && n <= 8 * |buffer| && k <= |data|
    ensures Bits(buffer[..n / 8] + data[..k]) == Written(buffer, n) + Bits(data)[..8 * k]
  {
    BitsAppend(buffer[..n / 8], data[..k]);
    BitsPrefix(buffer, n / 8);
    BitsPrefix(data, k);
  }

  lemma BitsPrefix(data: seq<byte>, k: nat)
    requires k <= |data|
    ensures Bits(data[..k]) == Bits(data)[..8 * k]
  {
    BitsAppend(data[..k], data[k..]);
    assert data[..k] + data[k..] == data;
  }

  /** `(data[i / 8] >> (7 - i % 8)) & 1` */
  function BitAt(data: seq<byte>, i: nat): bit
    requires i < 8 * |data|
  {
    data[i / 8] / Pow2(7 - i % 8) % 2
  }

  lemma SourceBit(data: seq<byte>, i: nat)
    requires i < 8 * |data|
    ensures BitAt(data, i) == Bits(data)[i]
  {
    NatBitAt(data[i / 8], 8, i % 8);
  }

  class BitWriter {
    var buffer: seq<byte>
    var bitlen: nat

    ghost predicate Valid()
      reads this
    {
      Fits(buffer, bitlen)
    }

    /** Everything written so far. */
    ghost function Contents(): (bits: seq<bit>)
      requires Valid()
      reads this
      ensures |bits| == bitlen
    {
      Written(buffer, bitlen)
    }

    constructor ()
      ensures Valid() && Contents() == []
    {
      buffer, bitlen := [], 0;
    }

    method Clear()
      modifies this
      ensures Valid() && Contents() == []
    {
      buffer, bitlen := [], 0;
    }

    method EnsureCapacity(more: nat)
      requires Valid()
      modifies this`buffer
      ensures |buffer| == (bitlen + more + 7) / 8 && Room(buffer, bitlen)
      ensures Written(buffer, bitlen) == old(Contents())
    {
      var need := (bitlen + more + 7) / 8;
      if |buffer| < need {
        BitsAppend(buffer, Repeat(0, need - |buffer|));
        ZeroBytes(need - |buffer|);
        buffer := buffer + Repeat(0, need - |buffer|);
      }
    }

    method WriteOneBit(b: nat)
      requires Room(buffer, bitlen) && bitlen < 8 * |buffer|
      modifies this
      ensures |buffer| == old(|buffer|) && bitlen == old(bitlen) + 1 && Room(buffer, bitlen)
      ensures Written(buffer, bitlen) == old(Written(buffer, bitlen)) + [b % 2]
    {
      if b % 2 == 1 {
        BitsAfterSet(buffer, bitlen);
        buffer := buffer[bitlen / 8 := SetBit(buffer[bitlen / 8], bitlen % 8)];
      }
      bitlen := bitlen + 1;
    }

    method PadToByte()
      requires Valid()
      modifies this
      ensures Valid() && bitlen % 8 == 0
      ensures Contents() == old(Contents()) + Repeat(0, (8 - old(bitlen) % 8) % 8)
    {
      var rem := bitlen % 8;
      if rem == 0 {
        return;
      }
      EnsureCapacity(8 - rem);
      for i := 0 to 8 - rem
        invariant Room(buffer, bitlen) && |buffer| == (old(bitlen) + 8 - rem + 7) / 8
        invariant bitlen == old(bitlen) + i && Written(buffer, bitlen) == old(Contents()) + Repeat(0, i)
      {
        WriteOneBit(0);
      }
    }

    /** The low `nbits` bits of a value, most significant first. */
    method WriteU64(value: nat, nbits: nat) returns (ok: bool)
      requires Valid()
      modifies this
      ensures Valid() && ok == (nbits <= 64)
      ensures Contents() == old(Contents()) + if ok then NatBits(value, nbits) else []
    {
      if nbits == 0 {
        return true;
      }
      if nbits > 64 {
        return false;
      }
      EnsureCapacity(nbits);
      ghost var before, size := Written(buffer, bitlen), |buffer|;
      for i := 0 to nbits
        invariant Room(buffer, bitlen) && |buffer| == size
        invariant bitlen == old(bitlen) + i && Written(buffer, bitlen) == before + NatBits(value, nbits)[..i]
      {
        OneMore(before, NatBits(value, nbits), i);
        WriteBitOf(value, nbits, i);
      }
      return true;
    }

    method WriteBitOf(value: nat, nbits: nat, i: nat)
      requires Room(buffer, bitlen) && bitlen < 8 * |buffer| && i < nbits
      modifies this
      ensures |buffer| == old(|buffer|) && bitlen == old(bitlen) + 1 && Room(buffer, bitlen)
      ensures Written(buffer, bitlen) == old(Written(buffer, bitlen)) + [NatBits(value, nbits)[i]]
    {
      NatBitAt(value, nbits, i);
      WriteOneBit(value / Pow2(nbits - 1 - i) % 2);
    }

    /** `write_uint` of a `width`-bit type. */
    method WriteUint(value: nat, nbits: nat, width: nat) returns (ok: bool)
      requires Valid()
      modifies this
      ensures Valid() && ok == (nbits <= width && nbits <= 64)
      ensures Contents() == old(Contents()) + if ok then NatBits(value, nbits) else []
    {
      if nbits > width {
        return false;
      }
      ok := WriteU64(value, nbits);
    }

    /** The first `nbits` bits of a byte string: a byte copy when both sides are aligned, bit by bit
        otherwise. */
    method WriteMsb(data: seq<byte>, nbits: nat) returns (ok: bool)
      requires Valid()
      modifies this
      ensures Valid() && ok == (nbits <= 8 * |data|)
      ensures Contents() == old(Contents()) + if ok then Bits(data)[..nbits] else []
    {
      if nbits == 0 {
        return true;
      }
      if |data| < (nbits + 7) / 8 {
        return false;
      }
      EnsureCapacity(nbits);
      if bitlen % 8 == 0 && nbits % 8 == 0 {
        CopyBytes(data, nbits / 8);
        return true;
      }
      CopyBits(data, nbits);
      return true;
    }

    /** The general path. */
    method CopyBits(data: seq<byte>, n: nat)
      requires Room(buffer, bitlen) && n <= 8 * |data| && |buffer| == (bitlen + n + 7) / 8
      modifies this
      ensures Valid() && bitlen == old(bitlen) + n
      ensures Contents() == old(Written(buffer, bitlen)) + Bits(data)[..n]
    {
      ghost var before, size := Written(buffer, bitlen), |buffer|;
      for i := 0 to n
        invariant Room(buffer, bitlen) && |buffer| == size
        invariant bitlen == old(bitlen) + i && Written(buffer, bitlen) == before + Bits(data)[..i]
      {
        SourceBit(data, i);
        OneMore(before, Bits(data), i);
        WriteOneBit(BitAt(data, i));
      }
    }

    /** The fast path. */
    method CopyBytes(data: seq<byte>, n: nat)
      requires bitlen % 8 == 0 && n <= |data| && |buffer| == bitlen / 8 + n
      modifies this
      ensures Valid() && bitlen == old(bitlen) + 8 * n
      ensures Contents() == old(Written(buffer, bitlen)) + Bits(data)[..8 * n]
    {
      var dst := bitlen / 8;
      ghost var before := buffer;
      for i := 0 to n
        invariant bitlen == old(bitlen) && |buffer| == dst + n && buffer[..dst + i] == before[..dst] + data[..i]
      {
        buffer := buffer[dst + i := data[i]];
      }
      bitlen := bitlen + 8 * n;
      assert buffer == before[..dst] + data[..n];
      ByteCopyIsBitCopy(before, old(bitlen), data, n);
    }

    /** Whole bytes onto an aligned writer; refused otherwise, unless there is nothing to write. */
    method WriteBytesAligned(data: seq<byte>) returns (ok: bool)
      requires Valid()
      modifies this
      ensures Valid() && ok == (data == [] || old(bitlen) % 8 == 0)
      ensures Contents() == old(Contents()) + if ok then Bits(data) else []
    {
      if data == [] {
        return true;
      }
      if bitlen % 8 != 0 {
        return false;
      }
      EnsureCapacity(8 * |data|);
      CopyBytes(data, |data|);
      assert Bits(data)[..8 * |data|] == Bits(data);
      return true;
    }

    method WriteWriter(other: BitWriter)
      requires Valid() && other.Valid() && other != this
      modifies this
      ensures Valid() && Contents() == old(Contents()) + other.Contents()
    {
      var ok := WriteMsb(other.buffer, other.bitlen);
    }
  }
}
