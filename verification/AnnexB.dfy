/** The receiver's Annex B splitter and its length-prefixed re-framing. */
module AnnexB {
  import opened Wrappers
  import opened Bits
  import opened Emulation

  datatype Nalu = Nalu(kind: nat, data: seq<Byte>)

  /** A start code found by the scan: where it begins and where the bytes after it begin. */
  datatype Mark = Mark(offset: nat, naluStart: nat)

  /** The unit made of the given bytes, with the type field of its first header byte. */
  function NaluOf(data: seq<Byte>): Nalu
    requires data != []
  {
    Nalu(data[0] / 2 % 64, data)
  }

  /** Section 7.3.1.2: the six bits behind the forbidden zero bit. */
  lemma KindIsTypeField(data: seq<Byte>)
    requires data != []
    ensures ReadU(Unpack(data)[1..], 6) == Some((NaluOf(data).kind, Unpack(data)[7..]))
  {
    hide Unpack, Code, ReadU;
    var x := data[0] as int;
    var top, kind, low := x / 128 == 1, x / 2 % 64, x % 2 == 1;
    UnpackFirst(data);
    ByteParts(x);
    HeaderBits(x, top, kind, low);
    assert Unpack(data)[1..] == Code(kind, 6) + Unpack(data)[7..];
    assert Unpack(data)[1..] == PutU(6, kind, Unpack(data)[7..]);
    assert Pow2(6) == 64;
  }

  lemma ByteParts(x: nat)
    requires x < 256
    ensures x == 128 * N(x / 128 == 1) + 2 * (x / 2 % 64) + N(x % 2 == 1)
  {
    var h := x / 2;
    assert x == 2 * h + x % 2 && h == 64 * (h / 64) + h % 64;
  }

  lemma OneBit(bit: bool)
    ensures Value([bit]) == N(bit)
  {
  }

  lemma HeaderBits(x: nat, top: bool, kind: nat, low: bool)
    requires x < 256 && x == 128 * N(top) + 2 * kind + N(low) && kind < 64
    ensures Code(x, 8) == [top] + Code(kind, 6) + [low]
  {
    OneBit(top);
    OneBit(low);
    assert Pow2(6) == 64 && Pow2(8) == 256 && Pow2(1) == 2;
    hide Code, Value, Pow2;
    var bits := [top] + Code(kind, 6) + [low];
    ValueAppend([top] + Code(kind, 6), [low]);
    ValueAppend([top], Code(kind, 6));
    ValueOfCode(kind, 6);
    ValueOfCode(x, 8);
    assert x % 256 == x && kind % 64 == kind;
    ValueIsUnique(Code(x, 8), bits);
  }

  predicate LongCodeAt(b: seq<Byte>, i: nat) { PatternAt(b, i, 0) && i + 3 < |b| && b[i + 3] == 1 }

  predicate ShortCodeAt(b: seq<Byte>, i: nat) { PatternAt(b, i, 1) }

  function Scan(b: seq<Byte>, i: nat): seq<Mark>
    decreases |b| - i
  {
    if i + 2 >= |b| then []
    else if LongCodeAt(b, i) then [Mark(i, i + 4)] + Scan(b, i + 4)
    else if ShortCodeAt(b, i) then [Mark(i, i + 3)] + Scan(b, i + 3)
    else Scan(b, i + 1)
  }

  /** Where the unit of the j-th start code ends. */
  function EndOf(b: seq<Byte>, marks: seq<Mark>, j: nat): nat
    requires j < |marks|
  {
    if j + 1 < |marks| then marks[j + 1].offset else |b|
  }

  lemma {:induction false} ScanInOrder(b: seq<Byte>, i: nat)
    ensures forall j :: 0 <= j < |Scan(b, i)| ==> i <= Scan(b, i)[j].offset < Scan(b, i)[j].naluStart <= |b|
    decreases |b| - i
  {
    if i + 2 < |b| {
      ScanInOrder(b, if LongCodeAt(b, i) then i + 4 else if ShortCodeAt(b, i) then i + 3 else i + 1);
    }
  }

  /** The unit of the j-th start code, unless it is empty. */
  function UnitAt(b: seq<Byte>, marks: seq<Mark>, j: nat): seq<Nalu>
    requires j < |marks|
  {
    var s, e := marks[j].naluStart, EndOf(b, marks, j);
    if s < e <= |b| then [NaluOf(b[s..e])] else []
  }

  /** The non-empty units of the start codes from the j-th on. */
  function Cut(b: seq<Byte>, marks: seq<Mark>, j: nat): seq<Nalu>
    decreases |marks| - j
  {
    if j >= |marks| then [] else UnitAt(b, marks, j) + Cut(b, marks, j + 1)
  }

  function Parse(b: seq<Byte>): seq<Nalu> {
    if |b| <= 4 then [] else Cut(b, Scan(b, 0), 0)
  }

  /** The first loop: collect the start codes. */
  method FindStartPositions(bytes: seq<Byte>) returns (startPositions: seq<Mark>)
    requires |bytes| > 4
    ensures startPositions == Scan(bytes, 0)
  {
    startPositions := [];
    var count := |bytes|;
    var i: nat := 0;
    while i < count - 2
      invariant i <= count
      invariant startPositions + Scan(bytes, i) == Scan(bytes, 0)
      decreases count - i
    {
      ScanStep(bytes, i, startPositions);
      if bytes[i] == 0 && bytes[i + 1] == 0 {
        if i + 3 < count && bytes[i + 2] == 0 && bytes[i + 3] == 1 {
          startPositions := startPositions + [Mark(i, i + 4)];
          i := i + 4;
          continue;
        } else if bytes[i + 2] == 1 {
          startPositions := startPositions + [Mark(i, i + 3)];
          i := i + 3;
          continue;
        }
      }
      i := i + 1;
    }
  }

  lemma ScanStep(b: seq<Byte>, i: nat, done: seq<Mark>)
    requires i + 2 < |b|
    ensures LongCodeAt(b, i) ==> done + Scan(b, i) == done + [Mark(i, i + 4)] + Scan(b, i + 4)
    ensures !LongCodeAt(b, i) && ShortCodeAt(b, i) ==> done + Scan(b, i) == done + [Mark(i, i + 3)] + Scan(b, i + 3)
    ensures !LongCodeAt(b, i) && !ShortCodeAt(b, i) ==> Scan(b, i) == Scan(b, i + 1)
  {
  }

  method ParseAnnexB(bytes: seq<Byte>) returns (nalus: seq<Nalu>)
    ensures nalus == Parse(bytes)
  {
    hide Scan, Cut;
    nalus := [];
    if |bytes| <= 4 {
      return;
    }
    var startPositions := FindStartPositions(bytes);
    ScanInOrder(bytes, 0);
    CutEnd(bytes, startPositions);
    for j := 0 to |startPositions|
      invariant nalus + Cut(bytes, startPositions, j) == Cut(bytes, startPositions, 0)
    {
      CutStep(bytes, startPositions, j, nalus);
      var naluStart := startPositions[j].naluStart;
      var naluEnd;
      if j + 1 < |startPositions| {
        naluEnd := startPositions[j + 1].offset;
      } else {
        naluEnd := |bytes|;
      }
      if naluEnd <= naluStart {
        continue;
      }
      var naluData := bytes[naluStart..naluEnd];
      nalus := nalus + [Nalu(naluData[0] / 2 % 64, naluData)];
    }
  }

  lemma CutEnd(b: seq<Byte>, marks: seq<Mark>)
    ensures Cut(b, marks, |marks|) == []
  {
  }

  lemma CutStep(b: seq<Byte>, marks: seq<Mark>, j: nat, done: seq<Nalu>)
    requires j < |marks|
    ensures done + Cut(b, marks, j) == done + UnitAt(b, marks, j) + Cut(b, marks, j + 1)
  {
  }

  // ---- what the sender's framing turns into ----

  const START_CODE: seq<Byte> := [0, 0, 0, 1]

  /** Each unit behind a four-byte start code. */
  function Stream(units: seq<seq<Byte>>): seq<Byte> {
    if units == [] then [] else START_CODE + units[0] + Stream(units[1..])
  }

  ghost predicate Clean(unit: seq<Byte>) { forall i: nat :: !PatternAt(unit, i, 1) }

  ghost predicate AllClean(units: seq<seq<Byte>>) { forall i :: 0 <= i < |units| ==> Clean(units[i]) }

  predicate NoneEmpty(units: seq<seq<Byte>>) { forall i :: 0 <= i < |units| ==> units[i] != [] }

  predicate Fit32(units: seq<seq<Byte>>) { forall i :: 0 <= i < |units| ==> |units[i]| < TWO_TO_32 }

  /** A unit behind a start code of four or of three bytes. */
  datatype Framed = Framed(long: bool, unit: seq<Byte>)

  function CodeOf(long: bool): seq<Byte> { if long then START_CODE else [0, 0, 1] }

  function Mixed(fs: seq<Framed>): seq<Byte> {
    if fs == [] then [] else CodeOf(fs[0].long) + fs[0].unit + Mixed(fs[1..])
  }

  /** The next start code cannot be taken for one that begins a byte earlier. */
  predicate Ends(unit: seq<Byte>, rest: seq<Framed>) {
    unit != [] && (rest != [] && !rest[0].long ==> unit[|unit| - 1] != 0)
  }

  /** Every unit is non-empty and clean, and none ends in a zero byte before a three-byte start code. */
  ghost predicate Separable(fs: seq<Framed>) {
    forall i :: 0 <= i < |fs| ==> Clean(fs[i].unit) && Ends(fs[i].unit, fs[i + 1..])
  }

  lemma TailSeparable(fs: seq<Framed>)
    requires fs != [] && Separable(fs)
    ensures Clean(fs[0].unit) && Ends(fs[0].unit, fs[1..]) && Separable(fs[1..])
  {
    hide Clean;
    forall i | 0 <= i < |fs[1..]| ensures Clean(fs[1..][i].unit) && Ends(fs[1..][i].unit, fs[1..][i + 1..]) {
      assert fs[1..][i] == fs[i + 1] && fs[1..][i + 1..] == fs[i + 2..];
    }
  }

  /** The marks of a stream whose first start code is at offset p. */
  function MarksOf(p: nat, fs: seq<Framed>): seq<Mark>
    decreases |fs|
  {
    if fs == [] then []
    else
      var start := p + |CodeOf(fs[0].long)|;
      [Mark(p, start)] + MarksOf(start + |fs[0].unit|, fs[1..])
  }

  lemma {:induction false} ScanSkips(b: seq<Byte>, i: nat, q: nat)
    requires i <= q <= |b|
    requires forall k: nat :: i <= k < q ==> !LongCodeAt(b, k) && !ShortCodeAt(b, k)
    ensures Scan(b, i) == Scan(b, q)
    decreases q - i
  {
    if i == q {
    } else {
      ScanSkips(b, i + 1, q);
    }
  }

  /** No start code begins inside a clean unit, even where its last zero bytes run into the next start code. */
  lemma NoCodeInside(b: seq<Byte>, p: nat, unit: seq<Byte>, rest: seq<Framed>, k: nat)
    requires p <= |b| && b[p..] == unit + Mixed(rest)
    requires Clean(unit) && Ends(unit, rest) && p <= k < p + |unit|
    ensures !LongCodeAt(b, k) && !ShortCodeAt(b, k)
  {
    var tail := Mixed(rest);
    assert rest != [] && rest[0].long ==> tail[..4] == START_CODE;
    assert forall n :: p <= n < p + |unit| ==> b[n] == b[p..][n - p] == unit[n - p];
    assert forall n :: p + |unit| <= n < |b| ==> b[n] == b[p..][n - p] == tail[n - p - |unit|];
    assert |b| == p + |unit| + |tail|;
    assert k - p + 2 < |unit| ==> !PatternAt(unit, k - p, 1);
    assert k - p + 3 < |unit| ==> !PatternAt(unit, k - p + 1, 1);
  }

  /** The scan goes from one start code of the stream to the next. */
  lemma {:induction false} ScanMixed(b: seq<Byte>, p: nat, fs: seq<Framed>)
    requires p <= |b| && b[p..] == Mixed(fs) && Separable(fs)
    ensures Scan(b, p) == MarksOf(p, fs)
    decreases |fs|
  {
    hide Scan, PatternAt, LongCodeAt, ShortCodeAt, Separable, Ends, Clean;
    if fs == [] {
      ScanEnd(b, p);
    } else {
      var unit, rest := fs[0].unit, fs[1..];
      var start := p + |CodeOf(fs[0].long)|;
      var q := start + |unit|;
      TailSeparable(fs);
      MixedParts(b, p, fs[0], rest);
      ScanStep(b, p, []);
      assert Scan(b, p) == [] + Scan(b, p) == [Mark(p, start)] + Scan(b, start);
      forall k: nat | start <= k < q ensures !LongCodeAt(b, k) && !ShortCodeAt(b, k) {
        NoCodeInside(b, start, unit, rest, k);
      }
      ScanSkips(b, start, q);
      ScanMixed(b, q, rest);
    }
  }

  lemma ScanEnd(b: seq<Byte>, p: nat)
    requires p <= |b| && b[p..] == []
    ensures Scan(b, p) == []
  {
  }

  lemma MixedParts(b: seq<Byte>, p: nat, f: Framed, rest: seq<Framed>)
    requires p <= |b| && b[p..] == CodeOf(f.long) + f.unit + Mixed(rest)
    ensures p + 2 < |b| && LongCodeAt(b, p) == f.long && ShortCodeAt(b, p) == !f.long
    ensures var start := p + |CodeOf(f.long)|;
            && start + |f.unit| <= |b| && b[start..] == f.unit + Mixed(rest)
            && b[start + |f.unit|..] == Mixed(rest)
  {
    hide Mixed, LongCodeAt, ShortCodeAt, CodeOf;
    StartsWithCode(b, p, f.long, f.unit + Mixed(rest));
    assert CodeOf(f.long) + f.unit + Mixed(rest) == CodeOf(f.long) + (f.unit + Mixed(rest));
    Dropped(b, p, CodeOf(f.long), f.unit + Mixed(rest));
    Dropped(b, p + |CodeOf(f.long)|, f.unit, Mixed(rest));
  }

  lemma StartsWithCode(b: seq<Byte>, p: nat, long: bool, more: seq<Byte>)
    requires p <= |b| && b[p..] == CodeOf(long) + more
    ensures p + 2 < |b| && LongCodeAt(b, p) == long && ShortCodeAt(b, p) == !long
  {
    assert b[p] == b[p..][0] && b[p + 1] == b[p..][1] && b[p + 2] == b[p..][2];
    if long { assert b[p + 3] == b[p..][3]; }
  }

  lemma Dropped(b: seq<Byte>, p: nat, first: seq<Byte>, more: seq<Byte>)
    requires p <= |b| && b[p..] == first + more
    ensures p + |first| <= |b| && b[p + |first|..] == more
  {
    assert b[p + |first|..] == b[p..][|first|..];
  }

  function NalusOf(units: seq<seq<Byte>>): (n: seq<Nalu>)
    requires NoneEmpty(units)
    ensures |n| == |units|
  {
    seq(|units|, i requires 0 <= i < |units| => NaluOf(units[i]))
  }

  function UnitsOf(fs: seq<Framed>): (units: seq<seq<Byte>>)
    ensures |units| == |fs|
  {
    seq(|fs|, i requires 0 <= i < |fs| => fs[i].unit)
  }

  /** The first unit of a stream is what lies between its start code and the next mark or the end. */
  lemma FirstUnit(b: seq<Byte>, p: nat, done: seq<Mark>, f: Framed, rest: seq<Framed>)
    requires p <= |b| && b[p..] == CodeOf(f.long) + f.unit + Mixed(rest) && f.unit != []
    ensures var start := p + |CodeOf(f.long)|;
            var marks := done + [Mark(p, start)] + MarksOf(start + |f.unit|, rest);
            UnitAt(b, marks, |done|) == [NaluOf(f.unit)]
  {
    hide NaluOf, LongCodeAt, ShortCodeAt;
    var start := p + |CodeOf(f.long)|;
    var q := start + |f.unit|;
    var marks := done + [Mark(p, start)] + MarksOf(q, rest);
    MixedParts(b, p, f, rest);
    assert b[start..q] == b[start..][..|f.unit|] == f.unit;
    assert marks[|done|] == Mark(p, start);
    if rest == [] {
      assert |b[q..]| == 0;
    } else {
      assert marks[|done| + 1] == MarksOf(q, rest)[0];
    }
  }

  lemma NalusStep(fs: seq<Framed>)
    requires fs != [] && NoneEmpty(UnitsOf(fs))
    ensures fs[0].unit != [] && NoneEmpty(UnitsOf(fs[1..]))
    ensures NalusOf(UnitsOf(fs)) == [NaluOf(fs[0].unit)] + NalusOf(UnitsOf(fs[1..]))
  {
    hide NaluOf;
    assert UnitsOf(fs)[0] == fs[0].unit && UnitsOf(fs)[1..] == UnitsOf(fs[1..]);
  }

  lemma {:induction false} CutMixed(b: seq<Byte>, p: nat, done: seq<Mark>, fs: seq<Framed>)
    requires p <= |b| && b[p..] == Mixed(fs) && NoneEmpty(UnitsOf(fs))
    ensures Cut(b, done + MarksOf(p, fs), |done|) == NalusOf(UnitsOf(fs))
    decreases |fs|
  {
    hide UnitAt, NaluOf, LongCodeAt, ShortCodeAt, CodeOf, UnitsOf, NoneEmpty;
    if fs == [] {
      assert NalusOf(UnitsOf(fs)) == [];
    } else {
      var rest := fs[1..];
      var start := p + |CodeOf(fs[0].long)|;
      var q := start + |fs[0].unit|;
      var done' := done + [Mark(p, start)];
      assert done + MarksOf(p, fs) == done' + MarksOf(q, rest);
      MixedParts(b, p, fs[0], rest);
      NalusStep(fs);
      FirstUnit(b, p, done, fs[0], rest);
      CutMixed(b, q, done', rest);
      hide NalusOf, Mixed;
    }
  }

  lemma SeparableUnits(fs: seq<Framed>)
    requires Separable(fs)
    ensures NoneEmpty(UnitsOf(fs))
  {
    forall i | 0 <= i < |fs| ensures UnitsOf(fs)[i] != [] { assert Ends(fs[i].unit, fs[i + 1..]); }
  }

  lemma MixedLength(fs: seq<Framed>)
    requires fs != [] && Separable(fs)
    ensures |Mixed(fs)| >= 4
    ensures |Mixed(fs)| == 4 ==> fs == [Framed(false, fs[0].unit)] && |fs[0].unit| == 1
  {
    TailSeparable(fs);
    if |fs| > 1 {
      assert |Mixed(fs[1..])| >= 3;
    }
  }

  /**
   * Start codes of both lengths in any order: parsing returns exactly the units, except from the one stream
   * that is too short for the parser to look at, a single byte behind a three-byte start code.
   */
  lemma ParseMixedExactly(fs: seq<Framed>)
    requires Separable(fs)
    ensures NoneEmpty(UnitsOf(fs)) && (Parse(Mixed(fs)) == NalusOf(UnitsOf(fs)) <==> |Mixed(fs)| != 4)
  {
    hide Scan, Cut, Separable;
    SeparableUnits(fs);
    var b := Mixed(fs);
    if fs != [] {
      MixedLength(fs);
      assert b[0..] == b;
      ScanMixed(b, 0, fs);
      CutMixed(b, 0, [], fs);
      assert [] + MarksOf(0, fs) == MarksOf(0, fs);
    }
  }

  // ---- four-byte start codes only, as the sender frames ----

  function AllLong(units: seq<seq<Byte>>): (fs: seq<Framed>)
    ensures |fs| == |units|
  {
    seq(|units|, i requires 0 <= i < |units| => Framed(true, units[i]))
  }

  lemma {:induction false} StreamIsMixed(units: seq<seq<Byte>>)
    ensures Stream(units) == Mixed(AllLong(units)) && UnitsOf(AllLong(units)) == units
  {
    if units == [] {
    } else {
      StreamIsMixed(units[1..]);
      assert AllLong(units)[1..] == AllLong(units[1..]);
    }
  }

  /** Framing and then parsing returns the units. */
  lemma ParseStream(units: seq<seq<Byte>>)
    requires NoneEmpty(units) && AllClean(units)
    ensures Parse(Stream(units)) == NalusOf(units)
  {
    hide Parse, Clean;
    var fs := AllLong(units);
    StreamIsMixed(units);
    assert Separable(fs) by {
      forall i | 0 <= i < |fs| ensures Clean(fs[i].unit) && Ends(fs[i].unit, fs[i + 1..]) {
        assert fs[i].unit == units[i];
        if i + 1 < |fs| { assert fs[i + 1..][0] == fs[i + 1]; }
      }
    }
    if units != [] { MixedLength(fs); }
    ParseMixedExactly(fs);
  }

  // ---- and only then ----

  /** Between a point of the scan and the next start code found there is no 00 00 01. */
  lemma {:induction false} GapIsClean(b: seq<Byte>, i: nat, k: nat)
    requires i <= k
    requires k + 2 < if Scan(b, i) == [] then |b| else Scan(b, i)[0].offset
    ensures !ShortCodeAt(b, k)
    decreases |b| - i
  {
    if i + 2 < |b| && !LongCodeAt(b, i) && !ShortCodeAt(b, i) && i < k {
      GapIsClean(b, i + 1, k);
    }
  }

  /** Scanning on from just behind a start code finds the remaining start codes. */
  lemma {:induction false} ScanTail(b: seq<Byte>, i: nat, j: nat)
    requires j < |Scan(b, i)|
    ensures Scan(b, Scan(b, i)[j].naluStart) == Scan(b, i)[j + 1..]
    decreases |b| - i
  {
    if LongCodeAt(b, i) || ShortCodeAt(b, i) {
      var next := if LongCodeAt(b, i) then i + 4 else i + 3;
      assert Scan(b, i) == [Mark(i, next)] + Scan(b, next);
      if j > 0 {
        ScanTail(b, next, j - 1);
        assert Scan(b, i)[j + 1..] == Scan(b, next)[j..];
      }
    } else {
      ScanTail(b, i + 1, j);
    }
  }

  /** No unit the parser returns, for any input at all, is empty or contains 00 00 01. */
  lemma {:induction false} CutIsClean(b: seq<Byte>, j: nat, n: Nalu)
    requires n in Cut(b, Scan(b, 0), j)
    ensures n.data != [] && Clean(n.data) && n == NaluOf(n.data)
    decreases |Scan(b, 0)| - j
  {
    var marks := Scan(b, 0);
    var s, e := marks[j].naluStart, EndOf(b, marks, j);
    if n in UnitAt(b, marks, j) {
      ScanTail(b, 0, j);
      assert marks[j + 1..] != [] ==> marks[j + 1..][0] == marks[j + 1];
      forall i: nat ensures !PatternAt(n.data, i, 1) {
        if i + 2 < |n.data| {
          GapIsClean(b, s, s + i);
        }
      }
    } else {
      CutIsClean(b, j + 1, n);
    }
  }

  lemma ParsedUnitsAreClean(b: seq<Byte>)
    ensures forall n :: n in Parse(b) ==> n.data != [] && Clean(n.data) && n == NaluOf(n.data)
  {
    if |b| > 4 {
      forall n | n in Parse(b) ensures n.data != [] && Clean(n.data) && n == NaluOf(n.data) {
        CutIsClean(b, 0, n);
      }
    }
  }

  function Payloads(nalus: seq<Nalu>): (p: seq<seq<Byte>>)
    ensures |p| == |nalus|
  {
    seq(|nalus|, i requires 0 <= i < |nalus| => nalus[i].data)
  }

  /** Parsing a framed list returns the list exactly when every unit is non-empty and free of 00 00 01. */
  lemma ParseStreamExactly(units: seq<seq<Byte>>)
    ensures Payloads(Parse(Stream(units))) == units <==> NoneEmpty(units) && AllClean(units)
  {
    if NoneEmpty(units) && AllClean(units) {
      ParseStream(units);
      assert Payloads(NalusOf(units)) == units;
    } else {
      var nalus := Parse(Stream(units));
      ParsedUnitsAreClean(Stream(units));
      assert forall k :: 0 <= k < |nalus| ==> nalus[k] in nalus && Payloads(nalus)[k] == nalus[k].data;
      assert NoneEmpty(Payloads(nalus)) && AllClean(Payloads(nalus));
    }
  }

  // ---- length-prefixed re-framing ----

  function BigEndian(n: nat): (b: seq<Byte>)
    ensures |b| == 4
    ensures n < TWO_TO_32 ==> FromBigEndian(b) == n
  {
    var h1 := n / 256;
    var h2 := h1 / 256;
    var h3 := h2 / 256;
    [h3 % 256, h2 % 256, h1 % 256, n % 256]
  }

  /** The four bytes are the 32 binary digits of the length, most significant first. */
  lemma BigEndianIsMsbFirst(n: nat)
    requires n < TWO_TO_32
    ensures Unpack(BigEndian(n)) == Code(n, 32)
  {
    hide BigEndian, Unpack, Value, Code, FromBigEndian;
    ValueOfFour(BigEndian(n));
    CodeOfValue(Unpack(BigEndian(n)));
  }

  lemma ValueOfFour(b: seq<Byte>)
    requires |b| == 4
    ensures Value(Unpack(b)) == FromBigEndian(b)
  {
    hide Unpack, Value, Pow2;
    BytePowers();
    Leading(b, 0x100_0000, b[1..]);
    Leading(b[1..], 0x1_0000, b[2..]);
    Leading(b[2..], 0x100, b[3..]);
    Leading(b[3..], 1, []);
    NoBytes();
  }

  lemma BytePowers()
    ensures Pow2(0) == 1 && Pow2(8) == 0x100 && Pow2(16) == 0x1_0000 && Pow2(24) == 0x100_0000
  {
    assert Pow2(8) == 0x100;
    Pow2Sum(8, 8);
    Pow2Sum(16, 8);
  }

  lemma Leading(b: seq<Byte>, weight: nat, rest: seq<Byte>)
    requires b != [] && rest == b[1..] && weight == Pow2(8 * |rest|)
    ensures Value(Unpack(b)) == b[0] as int * weight + Value(Unpack(rest))
  {
    hide Unpack, Value, Pow2;
    ValueOfBytes(b);
  }

  lemma NoBytes()
    ensures Value(Unpack([])) == 0
  {
  }

  function FromBigEndian(b: seq<Byte>): nat
    requires |b| == 4
  {
    b[0] as int * 0x100_0000 + b[1] as int * 0x1_0000 + b[2] as int * 0x100 + b[3]
  }

  function Avcc(units: seq<seq<Byte>>): seq<Byte> {
    if units == [] then [] else BigEndian(|units[0]|) + units[0] + Avcc(units[1..])
  }

  /** How a decoder takes the buffer apart: a length, then that many bytes, to the end. */
  function SplitByLength(b: seq<Byte>): Option<seq<seq<Byte>>>
    decreases |b|
  {
    if b == [] then Some([])
    else if |b| < 4 || |b| < 4 + FromBigEndian(b[..4]) then None
    else
      var n := FromBigEndian(b[..4]);
      var rest :- SplitByLength(b[4 + n..]);
      Some([b[4..4 + n]] + rest)
  }

  lemma {:induction false} SplitAvcc(units: seq<seq<Byte>>)
    requires Fit32(units)
    ensures SplitByLength(Avcc(units)) == Some(units)
  {
    if units == [] {
    } else {
      SplitAvcc(units[1..]);
      SplitOne(units[0], Avcc(units[1..]));
      assert Avcc(units) == BigEndian(|units[0]|) + units[0] + Avcc(units[1..]);
      assert [units[0]] + units[1..] == units;
    }
  }

  lemma SplitOne(unit: seq<Byte>, rest: seq<Byte>)
    requires |unit| < TWO_TO_32 && SplitByLength(rest).Some?
    ensures SplitByLength(BigEndian(|unit|) + unit + rest) == Some([unit] + SplitByLength(rest).value)
  {
    var b, n := BigEndian(|unit|) + unit + rest, |unit|;
    assert b[..4] == BigEndian(n);
    assert b[4..4 + n] == unit;
    assert b[4 + n..] == rest;
  }

  function Slices(nalus: seq<Nalu>): seq<seq<Byte>> {
    if nalus == [] then []
    else (if nalus[0].kind <= 31 then [nalus[0].data] else []) + Slices(nalus[1..])
  }

  method FilterSlices(nalus: seq<Nalu>) returns (slices: seq<Nalu>)
    ensures Payloads(slices) == Slices(nalus)
    ensures forall n :: n in slices ==> n in nalus
  {
    slices := [];
    for i := 0 to |nalus|
      invariant Payloads(slices) + Slices(nalus[i..]) == Slices(nalus)
      invariant forall n :: n in slices ==> n in nalus
    {
      assert nalus[i..][1..] == nalus[i + 1..];
      if nalus[i].kind <= 31 {
        assert Payloads(slices + [nalus[i]]) == Payloads(slices) + [nalus[i].data];
        slices := slices + [nalus[i]];
      }
    }
  }

  /** The part of decode that drops parameter sets and re-frames the slices. */
  method BuildAvcc(nalus: seq<Nalu>) returns (avcc: seq<Byte>)
    requires forall n :: n in nalus ==> |n.data| < TWO_TO_32
    ensures avcc == Avcc(Slices(nalus))
  {
    var slices := FilterSlices(nalus);
    avcc := [];
    for i := 0 to |slices|
      invariant avcc + Avcc(Payloads(slices)[i..]) == Avcc(Payloads(slices))
    {
      AvccStep(Payloads(slices), i, avcc);
      avcc := avcc + BigEndian(|slices[i].data|);
      avcc := avcc + slices[i].data;
    }
  }

  lemma AvccStep(units: seq<seq<Byte>>, i: nat, done: seq<Byte>)
    requires i < |units|
    ensures done + Avcc(units[i..]) == done + BigEndian(|units[i]|) + units[i] + Avcc(units[i + 1..])
  {
    assert units[i..][1..] == units[i + 1..];
  }

  /** The slices among the units, by the type field of the first header byte. */
  function SliceUnits(units: seq<seq<Byte>>): seq<seq<Byte>>
    requires NoneEmpty(units)
  {
    if units == [] then []
    else (if units[0][0] / 2 % 64 <= 31 then [units[0]] else []) + SliceUnits(units[1..])
  }

  lemma {:induction false} SlicesOfNalus(units: seq<seq<Byte>>)
    requires NoneEmpty(units)
    ensures Slices(NalusOf(units)) == SliceUnits(units)
    ensures Fit32(units) ==> Fit32(SliceUnits(units))
  {
    if units == [] {
    } else {
      assert NalusOf(units)[1..] == NalusOf(units[1..]);
      SlicesOfNalus(units[1..]);
    }
  }

  /** A whole frame: what the decoder gets splits back into exactly the frame's slices, in order. */
  lemma FrameRoundTrip(units: seq<seq<Byte>>)
    requires NoneEmpty(units) && AllClean(units) && Fit32(units)
    ensures SplitByLength(Avcc(Slices(Parse(Stream(units))))) == Some(SliceUnits(units))
  {
    ParseStream(units);
    SlicesOfNalus(units);
    SplitAvcc(SliceUnits(units));
  }
}
