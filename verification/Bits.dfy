/** The conventional optional value, failure-compatible so that parsers can be chained with `:-`. */
module Wrappers {
  datatype Option<+T> = None | Some(value: T) {
    predicate IsFailure() { None? }

    function PropagateFailure<U>(): Option<U>
      requires None?
    {
      None
    }

    function Extract(): T
      requires Some?
    {
      value
    }
  }
}

/** Bit strings, the codes the sender writes, and the readers of section 9.2 of Rec. ITU-T H.265. */
module Bits {
  import opened Wrappers

  type Byte = x: int | 0 <= x < 256
  type BitString = seq<bool>
  /** What a reader returns: the value read and the bits left over. */
  type Parsed<T> = Option<(T, BitString)>

  const TWO_TO_32: nat := 0x1_0000_0000

  function Pow2(n: nat): (p: nat)
    ensures p >= 1
  {
    if n == 0 then 1 else 2 * Pow2(n - 1)
  }

  function Zeros(n: nat): BitString { seq(n, _ => false) }

  /** The low n bits of v, most significant first. */
  function Code(v: nat, n: nat): (b: BitString)
    ensures |b| == n
  {
    if n == 0 then [] else [v / Pow2(n - 1) % 2 == 1] + Code(v, n - 1)
  }

  /** read_bits: the unsigned number a bit string denotes, most significant bit first. */
  function Value(b: BitString): nat {
    if b == [] then 0 else (if b[0] then Pow2(|b| - 1) else 0) + Value(b[1..])
  }

  lemma ModSplit(v: nat, p: nat)
    requires p >= 1
    ensures v % (2 * p) == (v / p % 2) * p + v % p
  {
    var q, r := v / p, v % p;
    var h, l := q / 2, q % 2;
    assert v == p * q + r;
    assert q == 2 * h + l;
    assert p * q == (2 * p) * h + l * p by {
      assert p * (2 * h + l) == p * (2 * h) + p * l;
    }
    var rest := l * p + r;
    assert 0 <= rest < 2 * p by { if l == 1 { assert rest == p + r; } else { assert rest == r; } }
    DivModUnique(v, 2 * p, h, rest);
  }

  lemma DivModUnique(v: int, d: int, q: int, r: int)
    requires d > 0 && v == d * q + r && 0 <= r < d
    ensures v / d == q && v % d == r
  {
    var q' := v / d;
    assert d * (q - q') == d * q - d * q';
    assert d * (q' - q) == d * q' - d * q;
    if q' < q {
      MulMonotone(d, 1, q - q');
    } else if q' > q {
      MulMonotone(d, 1, q' - q);
    }
  }

  lemma MulMonotone(d: int, a: int, b: int)
    requires 0 <= d && a <= b
    ensures d * a <= d * b
  {
  }

  /** Reading back n bits returns the written value modulo 2^n. */
  lemma {:induction false} ValueOfCode(v: nat, n: nat)
    ensures Value(Code(v, n)) == v % Pow2(n)
  {
    if n == 0 {
    } else {
      ValueOfCode(v, n - 1);
      ModSplit(v, Pow2(n - 1));
      assert Code(v, n)[1..] == Code(v, n - 1);
    }
  }

  // ---- fixed-length fields, u(n) ----

  function ReadU(b: BitString, n: nat): Parsed<nat> {
    if |b| < n then None else Some((Value(b[..n]), b[n..]))
  }

  function PutU(n: nat, v: nat, rest: BitString): (b: BitString)
    ensures |b| == n + |rest|
    ensures v < Pow2(n) ==> ReadU(b, n) == Some((v, rest))
  {
    var b := Code(v, n) + rest;
    assert v < Pow2(n) ==> ReadU(b, n) == Some((v, rest)) by {
      ValueOfCode(v, n);
      assert b[..n] == Code(v, n) && b[n..] == rest;
      if v < Pow2(n) { DivModUnique(v, Pow2(n), 0, v); }
    }
    b
  }

  function ReadFlag(b: BitString): Parsed<bool> {
    if b == [] then None else Some((b[0], b[1..]))
  }

  function PutFlag(flag: bool, rest: BitString): (b: BitString)
    ensures |b| == 1 + |rest| && ReadFlag(b) == Some((flag, rest))
  {
    [flag] + rest
  }

  function ReadFlags(b: BitString, n: nat): Parsed<BitString> {
    if |b| < n then None else Some((b[..n], b[n..]))
  }

  function PutFlags(flags: BitString, rest: BitString): (b: BitString)
    ensures |b| == |flags| + |rest| && ReadFlags(b, |flags|) == Some((flags, rest))
  {
    flags + rest
  }

  // ---- Exp-Golomb, ue(v) and se(v) ----

  /** The number of binary digits of v. */
  function BitLength(v: nat): (n: nat)
    ensures v > 0 ==> n >= 1 && Pow2(n - 1) <= v < Pow2(n)
    ensures v == 0 ==> n == 0
  {
    if v == 0 then 0 else 1 + BitLength(v / 2)
  }

  lemma Pow2Of32()
    ensures Pow2(8) == 0x100 && Pow2(16) == 0x1_0000 && Pow2(32) == TWO_TO_32
  {
    assert Pow2(8) == 0x100;
    assert Pow2(12) == 0x1000;
    assert Pow2(16) == 0x1_0000;
    assert Pow2(20) == 0x10_0000;
    assert Pow2(24) == 0x100_0000;
    assert Pow2(28) == 0x1000_0000;
  }

  lemma {:induction false} BitLengthBound(v: nat, k: nat)
    requires v < Pow2(k)
    ensures BitLength(v) <= k
  {
    if v == 0 {
    } else {
      BitLengthBound(v / 2, k - 1);
    }
  }

  /** The code bs_write_ue emits, with the 32-bit wrap of value + 1. */
  function UeCode(value: nat): (b: BitString)
    ensures value < TWO_TO_32 ==> |b| <= 63
  {
    var v := (value + 1) % TWO_TO_32;
    Pow2Of32();
    BitLengthBound(v, 32);
    var n := BitLength(v);
    Zeros(if n == 0 then 0 else n - 1) + Code(v, n)
  }

  function LeadingZeros(b: BitString): (n: nat)
    ensures n <= |b|
  {
    if b == [] || b[0] then 0 else 1 + LeadingZeros(b[1..])
  }

  /** Section 9.2: leading zeros, the marker bit, then as many bits as there were zeros. */
  function ReadUe(b: BitString): Parsed<nat> {
    var z := LeadingZeros(b);
    if |b| < 2 * z + 1 then None
    else Some((Pow2(z) - 1 + Value(b[z + 1..2 * z + 1]), b[2 * z + 1..]))
  }

  lemma {:induction false} LeadingZerosOf(z: nat, b: BitString)
    requires b != [] && b[0]
    ensures LeadingZeros(Zeros(z) + b) == z
  {
    if z == 0 {
      assert Zeros(0) + b == b;
    } else {
      assert (Zeros(z) + b)[1..] == Zeros(z - 1) + b;
      LeadingZerosOf(z - 1, b);
    }
  }

  /** The parts of a marked code: the zeros, the marker, and the digits below it. */
  lemma MarkedParts(v: nat, z: nat, rest: BitString)
    requires Pow2(z) <= v < Pow2(z + 1)
    ensures var b := Zeros(z) + (Code(v, z + 1) + rest);
            && LeadingZeros(b) == z
            && b[z + 1..2 * z + 1] == Code(v, z)
            && b[2 * z + 1..] == rest
  {
    DivModUnique(v, Pow2(z), 1, v - Pow2(z));
    LeadingZerosOf(z, Code(v, z + 1) + rest);
  }

  lemma BelowTop(v: nat, z: nat)
    requires Pow2(z) <= v < Pow2(z + 1)
    ensures Pow2(z) - 1 + Value(Code(v, z)) == v - 1
  {
    ValueOfCode(v, z);
    DivModUnique(v, Pow2(z), 1, v - Pow2(z));
  }

  /** The code of a positive v whose leading digit has weight 2^z. */
  lemma ReadMarked(v: nat, z: nat, rest: BitString)
    requires Pow2(z) <= v < Pow2(z + 1)
    ensures ReadUe(Zeros(z) + (Code(v, z + 1) + rest)) == Some((v - 1, rest))
  {
    hide Code, LeadingZeros, Value, Pow2;
    MarkedParts(v, z, rest);
    BelowTop(v, z);
  }

  /** A code takes 2*floor(log2(value + 1)) + 1 bits, and is read back whatever follows it. */
  lemma UeRoundTrip(value: nat, rest: BitString)
    requires value < TWO_TO_32 - 1
    ensures ReadUe(UeCode(value) + rest) == Some((value, rest))
    ensures var z := BitLength(value + 1) - 1;
            |UeCode(value)| == 2 * z + 1 && Pow2(z) <= value + 1 < Pow2(z + 1)
  {
    hide ReadUe, Code;
    var z := BitLength(value + 1) - 1;
    assert (value + 1) % TWO_TO_32 == value + 1;
    assert UeCode(value) + rest == Zeros(z) + (Code(value + 1, z + 1) + rest);
    ReadMarked(value + 1, z, rest);
  }

  /** The one 32-bit value that is not coded is the one whose successor wraps to zero: it emits nothing. */
  lemma UeRoundTripExactly(value: nat)
    requires value < TWO_TO_32
    ensures value < TWO_TO_32 - 1 <==>
            forall rest: BitString :: ReadUe(UeCode(value) + rest) == Some((value, rest))
  {
    if value < TWO_TO_32 - 1 {
      forall rest: BitString ensures ReadUe(UeCode(value) + rest) == Some((value, rest)) {
        UeRoundTrip(value, rest);
      }
    } else {
      assert UeCode(value) + [] == [];
      assert ReadUe(UeCode(value) + []) == None;
    }
  }

  function PutUe(v: nat, rest: BitString): (b: BitString)
    ensures v < TWO_TO_32 ==> |rest| <= |b| <= 63 + |rest|
    ensures v < TWO_TO_32 - 1 ==> ReadUe(b) == Some((v, rest))
  {
    assert v < TWO_TO_32 - 1 ==> ReadUe(UeCode(v) + rest) == Some((v, rest)) by {
      if v < TWO_TO_32 - 1 { UeRoundTrip(v, rest); }
    }
    UeCode(v) + rest
  }

  predicate InInt32(x: int) { -0x8000_0000 <= x < 0x8000_0000 }

  /** No 32-bit signed product or difference on the way to the code number overflows. */
  predicate SeDefined(value: int) {
    if value > 0 then InInt32(2 * value) && InInt32(2 * value - 1) else InInt32(-2 * value)
  }

  /** The code number bs_write_se picks. Where signed overflow is undefined in C, it is taken to wrap here. */
  function SeMapped(value: int): (mapped: nat)
    ensures mapped < TWO_TO_32
    ensures SeDefined(value) ==> mapped == if value > 0 then 2 * value - 1 else -2 * value
  {
    (if value > 0 then 2 * value - 1 else -2 * value) % TWO_TO_32
  }

  /** Section 9.2.2: code numbers 1, 2, 3, 4 stand for 1, -1, 2, -2. */
  function ReadSe(b: BitString): Parsed<int> {
    var (k, rest) :- ReadUe(b);
    Some((SeValue(k), rest))
  }

  function SeValue(k: nat): int {
    if k % 2 == 1 then (k + 1) / 2 else -(k / 2)
  }

  lemma SeMappedOf(v: int)
    requires -0x8000_0000 < v < 0x8000_0000
    ensures SeMapped(v) < TWO_TO_32 - 1 && SeValue(SeMapped(v)) == v
  {
  }

  lemma ReadSeCode(v: int, rest: BitString)
    requires -0x8000_0000 < v < 0x8000_0000
    ensures ReadSe(UeCode(SeMapped(v)) + rest) == Some((v, rest))
  {
    SeMappedOf(v);
    UeRoundTrip(SeMapped(v), rest);
  }

  function PutSe(v: int, rest: BitString): (b: BitString)
    ensures |rest| <= |b| <= 63 + |rest|
    ensures -0x8000_0000 < v < 0x8000_0000 ==> ReadSe(b) == Some((v, rest))
  {
    assert -0x8000_0000 < v < 0x8000_0000 ==> ReadSe(UeCode(SeMapped(v)) + rest) == Some((v, rest)) by {
      if -0x8000_0000 < v < 0x8000_0000 { ReadSeCode(v, rest); }
    }
    PutUe(SeMapped(v), rest)
  }

  /** Signed codes are computed without overflow, and come back, exactly for magnitudes below 2^30. */
  lemma SeRoundTripExactly(value: int)
    requires InInt32(value)
    ensures SeDefined(value) && (forall rest: BitString :: ReadSe(PutSe(value, rest)) == Some((value, rest)))
            <==> -0x4000_0000 < value < 0x4000_0000
  {
  }

  /** If signed overflow wraps, every 32-bit value comes back but the least, whose code number wraps to zero. */
  lemma SeRoundTripIfWrapping(value: int)
    requires InInt32(value)
    ensures value != -0x8000_0000 <==>
            forall rest: BitString :: ReadSe(PutSe(value, rest)) == Some((value, rest))
  {
    if value == -0x8000_0000 {
      assert SeMapped(value) == 0;
      UeRoundTrip(0, []);
      assert ReadSe(PutSe(value, [])) == Some((0, []));
    }
  }

  // ---- series of fields ----

  datatype Field = U(n: nat, v: nat) | Ue(v: nat) | Se(s: int)

  predicate InRange(f: Field) {
    match f
    case U(n, v) => v < Pow2(n)
    case Ue(v) => v < TWO_TO_32 - 1
    case Se(s) => -0x8000_0000 < s < 0x8000_0000
  }

  ghost predicate AllInRange(fields: seq<Field>) { forall i :: 0 <= i < |fields| ==> InRange(fields[i]) }

  function PutField(f: Field, rest: BitString): BitString {
    match f
    case U(n, v) => PutU(n, v, rest)
    case Ue(v) => PutUe(v, rest)
    case Se(s) => PutSe(s, rest)
  }

  /** Reads a field of the same kind as shape. */
  function ReadField(shape: Field, b: BitString): Parsed<Field> {
    match shape
    case U(n, _) => var (v, rest) :- ReadU(b, n); Some((U(n, v), rest))
    case Ue(_) => var (v, rest) :- ReadUe(b); Some((Ue(v), rest))
    case Se(_) => var (s, rest) :- ReadSe(b); Some((Se(s), rest))
  }

  /** The bits of one field alone. */
  function FieldBits(f: Field): BitString {
    match f
    case U(n, v) => Code(v, n)
    case Ue(v) => UeCode(v)
    case Se(s) => UeCode(SeMapped(s))
  }

  lemma PutFieldIs(f: Field, rest: BitString)
    ensures PutField(f, rest) == FieldBits(f) + rest
  {
  }

  function PutFields(fields: seq<Field>, rest: BitString): BitString {
    if fields == [] then rest else PutField(fields[0], PutFields(fields[1..], rest))
  }

  function ReadFields(shapes: seq<Field>, b: BitString): Parsed<seq<Field>>
    decreases |shapes|
  {
    if shapes == [] then Some(([], b))
    else
      var (f, b) :- ReadField(shapes[0], b);
      var (fs, b) :- ReadFields(shapes[1..], b);
      Some(([f] + fs, b))
  }

  /** What is put behind a series may be appended later. */
  lemma {:induction false} PutFieldsAppends(fields: seq<Field>, r: BitString, t: BitString)
    ensures PutFields(fields, r) + t == PutFields(fields, r + t)
  {
    hide PutField, FieldBits;
    if fields == [] {
    } else {
      var f, more := fields[0], PutFields(fields[1..], r);
      PutFieldsAppends(fields[1..], r, t);
      PutFieldIs(f, more);
      PutFieldIs(f, more + t);
      assert FieldBits(f) + more + t == FieldBits(f) + (more + t);
    }
  }

  /** Any series of fields is read back, value for value, leaving exactly what was written behind it. */
  lemma {:induction false} FieldsRoundTrip(fields: seq<Field>, rest: BitString)
    requires AllInRange(fields)
    ensures ReadFields(fields, PutFields(fields, rest)) == Some((fields, rest))
  {
    hide PutU, PutUe, PutSe;
    if fields == [] {
    } else {
      FieldsRoundTrip(fields[1..], rest);
      assert InRange(fields[0]);
      assert [fields[0]] + fields[1..] == fields;
    }
  }

  // ---- bytes ----

  lemma {:induction false} ValueBound(b: BitString)
    ensures Value(b) < Pow2(|b|)
  {
    if b == [] {
    } else {
      ValueBound(b[1..]);
    }
  }

  lemma TopDigit(v: nat, p: nat, high: nat)
    requires p >= 1
    ensures (v + 2 * p * high) / p % 2 == v / p % 2
  {
    var q := v / p;
    assert v + 2 * p * high == p * (q + 2 * high) + v % p by {
      assert p * (q + 2 * high) == p * q + 2 * p * high;
    }
    DivModUnique(v + 2 * p * high, p, q + 2 * high, v % p);
  }

  lemma MulSwap(p: nat, high: nat)
    ensures p * (2 * high) == 2 * p * high
  {
  }

  /** Adding a multiple of 2^n does not change the low n bits. */
  lemma {:induction false} CodeIgnoresHigh(v: nat, n: nat, high: nat)
    ensures Code(v + Pow2(n) * high, n) == Code(v, n)
  {
    if n == 0 {
    } else {
      var p := Pow2(n - 1);
      TopDigit(v, p, high);
      CodeIgnoresHigh(v, n - 1, 2 * high);
      MulSwap(p, high);
    }
  }

  /** Writing the value of a bit string in as many bits gives the bit string. */
  lemma {:induction false} CodeOfValue(b: BitString)
    ensures Code(Value(b), |b|) == b
  {
    if b == [] {
    } else {
      var n, w := |b| - 1, Value(b[1..]);
      ValueBound(b[1..]);
      CodeOfValue(b[1..]);
      DivModUnique(Value(b), Pow2(n), if b[0] then 1 else 0, w);
      if b[0] { CodeIgnoresHigh(w, n, 1); }
    }
  }

  /** The number of two bit strings written one after the other. */
  lemma {:induction false} ValueAppend(a: BitString, b: BitString)
    ensures Value(a + b) == Value(a) * Pow2(|b|) + Value(b)
  {
    if a == [] {
      assert a + b == b;
    } else {
      assert (a + b)[1..] == a[1..] + b;
      ValueAppend(a[1..], b);
      Pow2Sum(|a| - 1, |b|);
      if a[0] { assert (Pow2(|a| - 1) + Value(a[1..])) * Pow2(|b|) == Pow2(|a| - 1) * Pow2(|b|) + Value(a[1..]) * Pow2(|b|); }
    }
  }

  lemma {:induction false} Pow2Sum(m: nat, n: nat)
    ensures Pow2(m + n) == Pow2(m) * Pow2(n)
  {
    if m == 0 {
    } else {
      Pow2Sum(m - 1, n);
    }
  }

  /** Bit strings of one length with one number are the same. */
  lemma ValueIsUnique(a: BitString, b: BitString)
    requires |a| == |b| && Value(a) == Value(b)
    ensures a == b
  {
    CodeOfValue(a);
    CodeOfValue(b);
  }

  /** The byte with the given eight bits, most significant first. */
  function ByteOf(b: BitString): (x: Byte)
    requires |b| == 8
    ensures Code(x, 8) == b
  {
    ValueBound(b);
    Pow2Of32();
    CodeOfValue(b);
    Value(b)
  }

  /** Bit j of a byte, bit 0 being the most significant: (x >> (7 - j)) & 1. */
  predicate Bit(x: Byte, j: nat)
    requires j < 8
  {
    Code(x, 8)[j]
  }

  function N(b: bool): nat { if b then 1 else 0 }

  /** Setting a clear digit adds its weight. */
  lemma {:induction false} SetDigit(b: BitString, j: nat)
    requires j < |b| && !b[j]
    ensures Value(b[j := true]) == Value(b) + Pow2(|b| - 1 - j)
  {
    if j == 0 {
      assert b[0 := true][1..] == b[1..];
    } else {
      assert b[j := true][1..] == b[1..][j - 1 := true];
      SetDigit(b[1..], j - 1);
    }
  }

  lemma OrBitSets(x: Byte, j: nat)
    requires j < 8
    ensures !Bit(x, j) ==> x + Pow2(7 - j) < 256 && Code(x + Pow2(7 - j), 8) == Code(x, 8)[j := true]
  {
    hide Code, Value;
    if !Bit(x, j) {
      var b := Code(x, 8)[j := true];
      ByteOfCode(x);
      SetDigit(Code(x, 8), j);
      CodeOfValue(b);
      ValueBound(b);
      Pow2Of32();
    }
  }

  /** x | (1 << (7 - j)): the weight is added if the bit is clear, so that bit is set and every other kept. */
  function OrBit(x: Byte, j: nat): (y: Byte)
    requires j < 8
    ensures forall k: nat :: k < 8 ==> Bit(y, k) == (k == j || Bit(x, k))
  {
    OrBitSets(x, j);
    if Bit(x, j) then x else x + Pow2(7 - j)
  }

  /** A byte is determined by its bits. */
  lemma ByteOfCode(x: Byte)
    ensures ByteOf(Code(x, 8)) == x
  {
    ValueOfCode(x, 8);
    Pow2Of32();
  }

  // ---- packing bits into bytes ----

  /** The bits of a byte string, in reading order. */
  function Unpack(bytes: seq<Byte>): (b: BitString)
    ensures |b| == 8 * |bytes|
  {
    seq(8 * |bytes|, i requires 0 <= i < 8 * |bytes| => Bit(bytes[i / 8], i % 8))
  }

  /** The first byte's bits come first. */
  lemma UnpackFirst(bytes: seq<Byte>)
    requires bytes != []
    ensures Unpack(bytes) == Code(bytes[0], 8) + Unpack(bytes[1..])
  {
    hide Code;
    var rest := bytes[1..];
    forall i | 0 <= i < 8 * |bytes| ensures Unpack(bytes)[i] == (Code(bytes[0], 8) + Unpack(rest))[i] {
      if i >= 8 {
        DivModUnique(i, 8, (i - 8) / 8 + 1, (i - 8) % 8);
        assert rest[(i - 8) / 8] == bytes[i / 8];
      }
    }
  }

  /** A byte string as one number, most significant byte first. */
  lemma ValueOfBytes(bytes: seq<Byte>)
    requires bytes != []
    ensures Value(Unpack(bytes)) == bytes[0] as int * Pow2(8 * (|bytes| - 1)) + Value(Unpack(bytes[1..]))
  {
    hide Value, Unpack, Code;
    UnpackFirst(bytes);
    ValueAppend(Code(bytes[0], 8), Unpack(bytes[1..]));
    ValueOfCode(bytes[0], 8);
    assert Pow2(8) == 256;
    hide Pow2;
    assert bytes[0] % 256 == bytes[0];
  }

  function Chunk(b: BitString, k: nat): (c: BitString)
    requires 8 * k + 8 <= |b|
    ensures |c| == 8 && forall j :: 0 <= j < 8 ==> c[j] == b[8 * k + j]
  {
    b[8 * k..8 * k + 8]
  }

  function Pack(b: BitString): (bytes: seq<Byte>)
    requires |b| % 8 == 0
    ensures 8 * |bytes| == |b|
  {
    seq(|b| / 8, k requires 0 <= k < |b| / 8 => ByteOf(Chunk(b, k)))
  }

  lemma UnpackPack(b: BitString)
    requires |b| % 8 == 0
    ensures Unpack(Pack(b)) == b
  {
    forall i | 0 <= i < |b| ensures Unpack(Pack(b))[i] == b[i] {
      PackedBit(b, i / 8, i % 8);
    }
  }

  lemma PackedBit(b: BitString, k: nat, j: nat)
    requires |b| % 8 == 0 && 8 * k < |b| && j < 8
    ensures Bit(Pack(b)[k], j) == b[8 * k + j]
  {
  }

  /** The only bytes with the bits b are Pack(b). */
  lemma PackIsUnique(bytes: seq<Byte>, b: BitString)
    requires |b| == 8 * |bytes|
    requires forall k, j: nat :: 0 <= k < |bytes| && j < 8 ==> Bit(bytes[k], j) == b[8 * k + j]
    ensures bytes == Pack(b)
  {
    forall k | 0 <= k < |bytes| ensures bytes[k] == Pack(b)[k] {
      forall j: nat | j < 8 ensures Bit(bytes[k], j) == Chunk(b, k)[j] {}
      ByteIsUnique(bytes[k], Chunk(b, k));
    }
  }

  lemma ByteIsUnique(x: Byte, chunk: BitString)
    requires |chunk| == 8 && forall j: nat :: j < 8 ==> Bit(x, j) == chunk[j]
    ensures x == ByteOf(chunk)
  {
    ByteOfCode(x);
    assert Code(x, 8) == chunk by {
      forall j: nat | j < 8 ensures Code(x, 8)[j] == chunk[j] { assert Bit(x, j) == chunk[j]; }
    }
  }
}
