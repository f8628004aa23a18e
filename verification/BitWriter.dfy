/** The sender's in-place, most-significant-bit-first bit writer. */
module BitWriting {
  import opened Wrappers
  import opened Bits

  /**
   * A zeroed byte buffer with a cursor. `written` is the bit string written so far; every bit of the
   * buffer beyond it is zero, which is why or-ing a bit in appends it.
   */
  class BitWriter {
    const buf: array<Byte>
    var bytePos: nat
    var bitPos: nat
    ghost var written: BitString

    ghost predicate Valid()
      reads this, buf
    {
      && bitPos < 8
      && |written| == 8 * bytePos + bitPos
      && |written| <= 8 * buf.Length
      && forall k, j: nat :: 0 <= k < buf.Length && j < 8 ==>
           Bit(buf[k], j) == (8 * k + j < |written| && written[8 * k + j])
    }

    constructor (capacity: nat)
      ensures Valid() && fresh(buf) && buf.Length == capacity && written == []
    {
      buf := new Byte[capacity](_ => 0);
      bytePos, bitPos, written := 0, 0, [];
      new;
      ZeroByte();
    }

    method WriteBit(bit: bool)
      requires Valid() && |written| < 8 * buf.Length
      modifies this, buf
      ensures Valid() && written == old(written) + [bit]
    {
      if bit {
        buf[bytePos] := OrBit(buf[bytePos], bitPos);
      }
      written := written + [bit];
      bitPos := bitPos + 1;
      if bitPos == 8 {
        bitPos := 0;
        bytePos := bytePos + 1;
      }
    }

    /** Appends the low n bits of value; stated also as the first field of whatever follows. */
    method Write(value: nat, n: nat)
      requires Valid() && n <= 32 && value < TWO_TO_32 && |written| + n <= 8 * buf.Length
      modifies this, buf
      ensures Valid() && written == old(written) + Code(value, n)
      ensures forall rest {:trigger PutU(n, value, rest)} :: written + rest == old(written) + PutU(n, value, rest)
    {
      var i: nat := n;
      while i > 0
        invariant Valid() && i <= n && |written| + i == |old(written)| + n
        invariant written + Code(value, i) == old(written) + Code(value, n)
      {
        i := i - 1;
        ghost var before := written;
        WriteBit(value / Pow2(i) % 2 == 1);
        assert written + Code(value, i) == before + Code(value, i + 1);
      }
      PutUAppends(old(written), n, value);
    }

    method Write1(bit: bool)
      requires Valid() && |written| < 8 * buf.Length
      modifies this, buf
      ensures Valid() && written == old(written) + [bit]
      ensures forall rest {:trigger PutFlag(bit, rest)} :: written + rest == old(written) + PutFlag(bit, rest)
    {
      Write(N(bit), 1);
      assert Code(N(bit), 1) == [bit];
      PutFlagAppends(old(written), bit);
    }

    static method CountDigits(v: nat) returns (bits: nat)
      ensures bits == BitLength(v)
    {
      bits := 0;
      var tmp: nat := v;
      while tmp > 0
        invariant bits + BitLength(tmp) == BitLength(v)
      {
        bits := bits + 1;
        tmp := tmp / 2;
      }
    }

    method WriteZeros(count: int)
      requires Valid() && |written| + count <= 8 * buf.Length
      modifies this, buf
      ensures Valid() && written == old(written) + Zeros(if count < 0 then 0 else count)
    {
      var i := 0;
      while i < count
        invariant Valid() && 0 <= i && (i <= count || i == 0)
        invariant written == old(written) + Zeros(i)
      {
        WriteBit(false);
        assert Zeros(i) + [false] == Zeros(i + 1);
        i := i + 1;
      }
    }

    method WriteUe(value: nat)
      requires Valid() && value < TWO_TO_32 && |written| + |UeCode(value)| <= 8 * buf.Length
      modifies this, buf
      ensures Valid() && written == old(written) + UeCode(value) && |written| <= |old(written)| + 63
      ensures forall rest {:trigger PutUe(value, rest)} :: written + rest == old(written) + PutUe(value, rest)
    {
      hide PutUe, UeCode, BitLength, Code;
      var v := (value + 1) % TWO_TO_32;
      var bits := CountDigits(v);
      DigitsOf32(v, bits);
      UeCodeParts(written, value, v, bits);
      WriteZeros(bits as int - 1);
      Write(v, bits);
      PutUeAppends(old(written), value);
    }

    method WriteSe(value: int)
      requires Valid() && InInt32(value)
      requires |written| + |UeCode(SeMapped(value))| <= 8 * buf.Length
      modifies this, buf
      ensures Valid() && written == old(written) + UeCode(SeMapped(value)) && |written| <= |old(written)| + 63
      ensures forall rest {:trigger PutSe(value, rest)} :: written + rest == old(written) + PutSe(value, rest)
    {
      WriteUe((if value > 0 then 2 * value - 1 else -2 * value) % TWO_TO_32);
      forall rest ensures written + rest == old(written) + PutSe(value, rest) {
        assert PutSe(value, rest) == PutUe(SeMapped(value), rest);
      }
    }

    /** A one and then zeros up to the next byte boundary. */
    method WriteTrailingBits()
      requires Valid() && |written| < 8 * buf.Length
      modifies this, buf
      ensures Valid() && bitPos == 0
      ensures written == old(written) + Trailing(|old(written)|)
    {
      WriteBit(true);
      ghost var n, pad := 0, 7 - old(bitPos);
      assert |old(written)| % 8 == old(bitPos);
      while bitPos != 0
        invariant Valid() && n <= pad && bitPos == (if n == pad then 0 else 8 + n - pad)
        invariant written == old(written) + ([true] + Zeros(n))
        decreases pad - n
      {
        WriteBit(false);
        assert [true] + Zeros(n) + [false] == [true] + Zeros(n + 1);
        n := n + 1;
      }
    }

    method WriteField(f: Field)
      requires Valid() && Writable(f) && |written| + |FieldBits(f)| <= 8 * buf.Length
      modifies this, buf
      ensures Valid() && written == old(written) + FieldBits(f)
    {
      match f
      case U(n, v) => Write(v, n);
      case Ue(v) => WriteUe(v);
      case Se(s) => WriteSe(s);
    }

    /**
     * Any series of writes that fits appends the codes in order. Read from the bit offset where the series
     * began, in whatever buffer it lies, the fields come back with nothing but zeros behind them.
     */
    method WriteFields(fields: seq<Field>)
      requires Valid() && |written| + |PutFields(fields, [])| <= 8 * buf.Length
      requires forall i :: 0 <= i < |fields| ==> Writable(fields[i])
      modifies this, buf
      ensures Valid() && written == old(written) + PutFields(fields, [])
      ensures AllInRange(fields) ==>
        ReadFields(fields, Unpack(buf[..])[|old(written)|..]) == Some((fields, Zeros(8 * buf.Length - |written|)))
    {
      hide FieldBits, PutField, ReadFields, Unpack;
      for i := 0 to |fields|
        invariant Valid() && written + PutFields(fields[i..], []) == old(written) + PutFields(fields, [])
      {
        NextField(written, fields, i);
        WriteField(fields[i]);
      }
      assert written == old(written) + PutFields(fields, []);
      var zeros := Zeros(8 * buf.Length - |written|);
      BufferBits();
      PutFieldsAppends(fields, [], zeros);
      if AllInRange(fields) { FieldsRoundTrip(fields, zeros); }
      assert (written + zeros)[|old(written)|..] == PutFields(fields, []) + zeros;
      assert [] + zeros == zeros;
    }

    function BytesWritten(): (n: nat)
      reads this
    {
      bytePos + if bitPos > 0 then 1 else 0
    }

    /** Once aligned, the bytes in front of the cursor are exactly the packed bits. */
    lemma PackedWritten()
      requires Valid() && bitPos == 0
      ensures BytesWritten() <= buf.Length && buf[..BytesWritten()] == Pack(written)
    {
      var bytes := buf[..bytePos];
      forall k, j: nat | 0 <= k < |bytes| && j < 8 ensures Bit(bytes[k], j) == written[8 * k + j] {
        assert Bit(buf[k], j) == (8 * k + j < |written| && written[8 * k + j]);
      }
      PackIsUnique(bytes, written);
    }

    /** The whole buffer, bit for bit: what was written, and zeros. */
    lemma BufferBits()
      requires Valid()
      ensures Unpack(buf[..]) == written + Zeros(8 * buf.Length - |written|)
    {
      var bytes, whole := buf[..], written + Zeros(8 * buf.Length - |written|);
      forall i: nat | i < 8 * buf.Length ensures Unpack(bytes)[i] == whole[i] {
        var k, j := i / 8, i % 8;
        assert Bit(buf[k], j) == (8 * k + j < |written| && written[8 * k + j]);
      }
    }
  }

  /** The values the writers take. */
  predicate Writable(f: Field) {
    match f
    case U(n, v) => n <= 32 && v < TWO_TO_32
    case Ue(v) => v < TWO_TO_32
    case Se(s) => InInt32(s)
  }

  lemma NextField(before: BitString, fields: seq<Field>, i: nat)
    requires i < |fields|
    ensures before + PutFields(fields[i..], []) == before + FieldBits(fields[i]) + PutFields(fields[i + 1..], [])
  {
    hide PutField, FieldBits;
    var rest := PutFields(fields[i + 1..], []);
    assert fields[i..][1..] == fields[i + 1..];
    PutFieldIs(fields[i], rest);
    assert before + (FieldBits(fields[i]) + rest) == before + FieldBits(fields[i]) + rest;
  }

  lemma PutUAppends(before: BitString, n: nat, value: nat)
    ensures forall rest :: before + Code(value, n) + rest == before + PutU(n, value, rest)
  {
    forall rest ensures before + Code(value, n) + rest == before + PutU(n, value, rest) {
      assert before + Code(value, n) + rest == before + (Code(value, n) + rest);
    }
  }

  lemma PutFlagAppends(before: BitString, bit: bool)
    ensures forall rest :: before + [bit] + rest == before + PutFlag(bit, rest)
  {
    forall rest ensures before + [bit] + rest == before + PutFlag(bit, rest) {
      assert before + [bit] + rest == before + ([bit] + rest);
    }
  }

  lemma PutUeAppends(before: BitString, value: nat)
    ensures forall rest :: before + UeCode(value) + rest == before + PutUe(value, rest)
  {
    forall rest ensures before + UeCode(value) + rest == before + PutUe(value, rest) {
      assert before + UeCode(value) + rest == before + (UeCode(value) + rest);
    }
  }

  lemma DigitsOf32(v: nat, bits: nat)
    requires v < TWO_TO_32 && bits == BitLength(v)
    ensures bits <= 32
  {
    Pow2Of32();
    BitLengthBound(v, 32);
  }

  lemma UeCodeParts(before: BitString, value: nat, v: nat, bits: nat)
    requires v == (value + 1) % TWO_TO_32 && bits == BitLength(v)
    ensures before + UeCode(value) == before + Zeros(if bits == 0 then 0 else bits - 1) + Code(v, bits)
    ensures |UeCode(value)| == if bits == 0 then 0 else 2 * bits - 1
  {
    var z := Zeros(if bits == 0 then 0 else bits - 1);
    assert UeCode(value) == z + Code(v, bits);
    assert before + z + Code(v, bits) == before + (z + Code(v, bits));
  }

  lemma ZeroByte()
    ensures forall j: nat :: j < 8 ==> !Bit(0, j)
  {
    forall j: nat | j < 8 ensures !Bit(0, j) { CodeZero(8, j); }
  }

  lemma {:induction false} CodeZero(n: nat, j: nat)
    requires j < n
    ensures !Code(0, n)[j]
  {
    if j == 0 {
    } else {
      CodeZero(n - 1, j - 1);
    }
  }

  /** rbsp_trailing_bits after a payload of the given number of bits. */
  function Trailing(length: nat): (t: BitString)
    ensures 1 <= |t| <= 8 && (length + |t|) % 8 == 0
  {
    [true] + Zeros(7 - length % 8)
  }

  predicate IsTrailing(b: BitString) {
    1 <= |b| <= 8 && b[0] && forall i :: 1 <= i < |b| ==> !b[i]
  }

  /** A payload that ends in trailing bits packs into bytes the last of which is not zero. */
  lemma LastByteNonZero(payload: BitString)
    ensures var bytes := Pack(payload + Trailing(|payload|));
            bytes != [] && bytes[|bytes| - 1] != 0
  {
    var all := payload + Trailing(|payload|);
    var k := |all| / 8 - 1;
    PackedBit(all, k, |payload| % 8);
    ZeroByte();
  }
}
