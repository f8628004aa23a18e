/** Emulation prevention (sections 7.3.1.1 and 7.4.2.1 of Rec. ITU-T H.265). */
module Emulation {
  import opened Bits

  /** The state after a byte: how many zero bytes the output now ends in, as the sender counts them. */
  function Next(zeros: nat, c: Byte): nat {
    if c == 0 then (if zeros >= 2 then 1 else zeros + 1) else 0
  }

  predicate NeedsEscape(zeros: nat, c: Byte) { zeros >= 2 && c <= 3 }

  /** What the sender emits for src when its output already ends in the given number of zero bytes. */
  function Escape(zeros: nat, src: seq<Byte>): seq<Byte>
    decreases |src|
  {
    if src == [] then [] else Emit(zeros, src[0]) + Escape(Next(zeros, src[0]), src[1..])
  }

  function Emit(zeros: nat, c: Byte): seq<Byte> {
    if NeedsEscape(zeros, c) then [3, c] else [c]
  }

  /** For each emitted byte, whether the sender inserted it. */
  function Inserted(zeros: nat, src: seq<Byte>): (m: seq<bool>)
    ensures |m| == |Escape(zeros, src)|
    decreases |src|
  {
    if src == [] then [] else EmitMarks(zeros, src[0]) + Inserted(Next(zeros, src[0]), src[1..])
  }

  function EmitMarks(zeros: nat, c: Byte): seq<bool> {
    if NeedsEscape(zeros, c) then [true, false] else [false]
  }

  /** The receiving side of section 7.3.1.1: the third byte of every 00 00 03 is dropped. */
  function Unescape(s: seq<Byte>): seq<Byte> {
    if s == [] then []
    else if |s| >= 3 && s[0] == 0 && s[1] == 0 && s[2] == 3 then [0, 0] + Unescape(s[3..])
    else [s[0]] + Unescape(s[1..])
  }

  /** 00 00 followed by the byte c. */
  predicate PatternAt(s: seq<Byte>, i: nat, c: Byte) {
    i + 2 < |s| && s[i] == 0 && s[i + 1] == 0 && s[i + 2] == c
  }

  function ZeroBytes(n: nat): seq<Byte> { seq(n, _ => 0) }

  /** Copies src into dst, escaping; dst has room for every escape. */
  method AddEmulationPrevention(dst: array<Byte>, src: array<Byte>, srcLen: nat) returns (dp: nat)
    requires dst != src && srcLen <= src.Length
    requires srcLen + (if srcLen == 0 then 0 else (srcLen - 1) / 2) <= dst.Length
    modifies dst
    ensures dp <= dst.Length && dst[..dp] == Escape(0, src[..srcLen])
    ensures forall k :: dp <= k < dst.Length ==> dst[k] == old(dst[k])
  {
    hide Escape;
    dp := 0;
    var zeros: nat := 0;
    ghost var whole := src[..srcLen];
    EscapeBound(0, whole);
    var i: nat := 0;
    while i < srcLen
      invariant i <= srcLen && zeros <= 2 && src[..srcLen] == whole
      invariant dp + |Escape(zeros, whole[i..])| == |Escape(0, whole)|
      invariant dst[..dp] + Escape(zeros, whole[i..]) == Escape(0, whole)
      invariant forall k :: dp <= k < dst.Length ==> dst[k] == old(dst[k])
    {
      var c := src[i];
      ghost var done, emitted := dst[..dp], Emit(zeros, c);
      EscapeAt(zeros, whole, i, done);
      assert dp + |emitted| <= dst.Length by { EscapeBound(Next(zeros, c), whole[i + 1..]); }
      if zeros >= 2 && c <= 3 {
        dst[dp] := 3;
        dp := dp + 1;
        zeros := 0;
      }
      dst[dp] := c;
      dp := dp + 1;
      assert dst[..dp] == done + emitted;
      if c == 0 {
        zeros := zeros + 1;
      } else {
        zeros := 0;
      }
      i := i + 1;
    }
    EscapeBound(zeros, whole[i..]);
  }

  lemma EscapeAt(zeros: nat, src: seq<Byte>, i: nat, done: seq<Byte>)
    requires i < |src|
    ensures var c := src[i];
            && done + Escape(zeros, src[i..]) == done + Emit(zeros, c) + Escape(Next(zeros, c), src[i + 1..])
            && |Escape(zeros, src[i..])| == |Emit(zeros, c)| + |Escape(Next(zeros, c), src[i + 1..])|
  {
    assert src[i..][1..] == src[i + 1..];
  }

  /** Stripping the escapes returns what was escaped. */
  lemma {:induction false} UnescapeEscape(zeros: nat, src: seq<Byte>)
    requires zeros <= 2
    ensures Unescape(ZeroBytes(zeros) + Escape(zeros, src)) == ZeroBytes(zeros) + src
    decreases |src|
  {
    if src == [] {
      UnescapeZeros(zeros);
    } else {
      var c, rest := src[0], src[1..];
      var out := Escape(Next(zeros, c), rest);
      UnescapeEscape(Next(zeros, c), rest);
      UnescapeEmitted(zeros, c, out, rest);
      assert ZeroBytes(zeros) + (Emit(zeros, c) + out) == ZeroBytes(zeros) + Escape(zeros, src);
      assert ZeroBytes(zeros) + ([c] + rest) == ZeroBytes(zeros) + src;
    }
  }

  /** One step: out unescapes to rest after the zero bytes that c leaves behind. */
  lemma UnescapeEmitted(zeros: nat, c: Byte, out: seq<Byte>, rest: seq<Byte>)
    requires zeros <= 2
    requires Unescape(ZeroBytes(Next(zeros, c)) + out) == ZeroBytes(Next(zeros, c)) + rest
    ensures Unescape(ZeroBytes(zeros) + (Emit(zeros, c) + out)) == ZeroBytes(zeros) + ([c] + rest)
  {
    if NeedsEscape(zeros, c) {
      var s := ZeroBytes(2) + ([3, c] + out);
      assert s[3..] == [c] + out;
      UnescapeByte(c, out, rest);
      assert [0, 0] + ([c] + rest) == ZeroBytes(2) + ([c] + rest);
    } else if c == 0 {
      assert ZeroBytes(zeros) + ([c] + out) == ZeroBytes(zeros + 1) + out;
      assert ZeroBytes(zeros) + ([c] + rest) == ZeroBytes(zeros + 1) + rest;
    } else {
      UnescapeByte(c, out, rest);
      UnescapePlain(zeros, c, out);
    }
  }

  lemma UnescapeZeros(n: nat)
    requires n <= 2
    ensures Unescape(ZeroBytes(n)) == ZeroBytes(n)
  {
    assert ZeroBytes(0) == [];
    assert ZeroBytes(1) == [0] + ZeroBytes(0);
    if n == 2 { assert ZeroBytes(2)[1..] == ZeroBytes(1); }
  }

  /** One byte after an escape or after a non-zero byte. */
  lemma UnescapeByte(c: Byte, out: seq<Byte>, rest: seq<Byte>)
    requires Unescape(ZeroBytes(Next(0, c)) + out) == ZeroBytes(Next(0, c)) + rest
    ensures Unescape([c] + out) == [c] + rest
  {
    if c == 0 {
      assert ZeroBytes(1) == [c];
    } else {
      assert ZeroBytes(0) + out == out && ZeroBytes(0) + rest == rest;
      assert ([c] + out)[1..] == out;
    }
  }

  /** Up to two zero bytes and then a byte that is no escape pass through unchanged. */
  lemma UnescapePlain(zeros: nat, c: Byte, out: seq<Byte>)
    requires zeros <= 2 && c != 0 && (zeros < 2 || c > 3)
    ensures Unescape(ZeroBytes(zeros) + ([c] + out)) == ZeroBytes(zeros) + Unescape([c] + out)
    decreases zeros
  {
    var s := ZeroBytes(zeros) + ([c] + out);
    if zeros == 0 {
      assert s == [c] + out;
      assert ZeroBytes(0) + Unescape(s) == Unescape(s);
    } else {
      assert s[1..] == ZeroBytes(zeros - 1) + ([c] + out);
      UnescapePlain(zeros - 1, c, out);
      assert ZeroBytes(zeros) + Unescape([c] + out) == [0] + (ZeroBytes(zeros - 1) + Unescape([c] + out));
    }
  }

  /**
   * Two zero bytes are never followed by 0, 1 or 2, and are followed by 3 exactly where an escape was
   * inserted; s is the output from the given number of zero bytes on, marks says which bytes after them
   * were inserted.
   */
  ghost predicate WellEscaped(zeros: nat, s: seq<Byte>, marks: seq<bool>) {
    && |s| == zeros + |marks|
    && forall i: nat ::
         && !PatternAt(s, i, 0) && !PatternAt(s, i, 1) && !PatternAt(s, i, 2)
         && (PatternAt(s, i, 3) <==> zeros <= i + 2 < |s| && marks[i + 2 - zeros])
  }

  lemma {:induction false} NoForbiddenPattern(zeros: nat, src: seq<Byte>)
    requires zeros <= 2
    ensures WellEscaped(zeros, ZeroBytes(zeros) + Escape(zeros, src), Inserted(zeros, src))
    decreases |src|
  {
    hide WellEscaped, Emit, EmitMarks;
    if src == [] {
      OnlyZeros(zeros);
      assert ZeroBytes(zeros) + [] == ZeroBytes(zeros);
    } else {
      var n := Next(zeros, src[0]);
      NoForbiddenPattern(n, src[1..]);
      NotInsertedEarly(n, src[1..]);
      AfterByte(zeros, src[0], Escape(n, src[1..]), Inserted(n, src[1..]));
    }
  }

  /** One step: out is well escaped after the zero bytes that c leaves behind. */
  lemma AfterByte(zeros: nat, c: Byte, out: seq<Byte>, marks: seq<bool>)
    requires zeros <= 2
    requires WellEscaped(Next(zeros, c), ZeroBytes(Next(zeros, c)) + out, marks)
    requires forall k :: 0 <= k < |marks| && Next(zeros, c) + k < 2 ==> !marks[k]
    ensures WellEscaped(zeros, ZeroBytes(zeros) + (Emit(zeros, c) + out), EmitMarks(zeros, c) + marks)
  {
    hide WellEscaped;
    if NeedsEscape(zeros, c) {
      assert ZeroBytes(2) + ([3, c] + out) == [0, 0, 3, c] + out;
      AfterEscape(c, out, marks);
    } else if c == 0 {
      assert ZeroBytes(zeros) + ([c] + out) == ZeroBytes(zeros + 1) + out;
      AfterZero(zeros, ZeroBytes(zeros + 1) + out, marks);
    } else {
      assert ZeroBytes(0) + out == out;
      AfterPlain(zeros, c, out, marks);
    }
  }

  lemma OnlyZeros(zeros: nat)
    requires zeros <= 2
    ensures WellEscaped(zeros, ZeroBytes(zeros), [])
  {
  }

  lemma AfterZero(zeros: nat, s: seq<Byte>, marks: seq<bool>)
    requires zeros <= 1 && WellEscaped(zeros + 1, s, marks)
    ensures WellEscaped(zeros, s, [false] + marks)
  {
  }

  lemma AfterEscape(c: Byte, out: seq<Byte>, marks: seq<bool>)
    requires WellEscaped(Next(0, c), ZeroBytes(Next(0, c)) + out, marks)
    requires forall k :: 0 <= k < |marks| && Next(0, c) + k < 2 ==> !marks[k]
    ensures WellEscaped(2, [0, 0, 3, c] + out, [true, false] + marks)
  {
    var n := Next(0, c);
    var s, t, skip := [0, 0, 3, c] + out, ZeroBytes(n) + out, 4 - n;
    assert forall k :: 0 <= k < |t| ==> s[skip + k] == t[k];
    forall i: nat
      ensures !PatternAt(s, i, 0) && !PatternAt(s, i, 1) && !PatternAt(s, i, 2)
      ensures PatternAt(s, i, 3) <==> 2 <= i + 2 < |s| && ([true, false] + marks)[i]
    {
      if i >= skip {
        assert forall b: Byte :: PatternAt(s, i, b) == PatternAt(t, i - skip, b);
      }
    }
  }

  lemma AfterPlain(zeros: nat, c: Byte, out: seq<Byte>, marks: seq<bool>)
    requires zeros <= 2 && c != 0 && (zeros < 2 || c > 3)
    requires WellEscaped(0, out, marks)
    requires forall k :: 0 <= k < |marks| && k < 2 ==> !marks[k]
    ensures WellEscaped(zeros, ZeroBytes(zeros) + ([c] + out), [false] + marks)
  {
    var s, skip := ZeroBytes(zeros) + ([c] + out), zeros + 1;
    assert forall k :: 0 <= k < |out| ==> s[skip + k] == out[k];
    forall i: nat
      ensures !PatternAt(s, i, 0) && !PatternAt(s, i, 1) && !PatternAt(s, i, 2)
      ensures PatternAt(s, i, 3) <==> zeros <= i + 2 < |s| && ([false] + marks)[i + 2 - zeros]
    {
      if i >= skip {
        assert forall b: Byte :: PatternAt(s, i, b) == PatternAt(out, i - skip, b);
      }
    }
  }

  /** No escape can come before two bytes of zeros. */
  lemma NotInsertedEarly(zeros: nat, src: seq<Byte>)
    ensures forall k :: 0 <= k < |Inserted(zeros, src)| && zeros + k < 2 ==> !Inserted(zeros, src)[k]
  {
  }

  /** An escape is made only where section 7.4.2 allows one: before a byte of at most 3 from the input. */
  lemma {:induction false} EscapesAreNeeded(zeros: nat, src: seq<Byte>, k: nat)
    requires k < |Inserted(zeros, src)| && Inserted(zeros, src)[k]
    ensures var out, marks := Escape(zeros, src), Inserted(zeros, src);
            k + 1 < |out| && out[k] == 3 && out[k + 1] <= 3 && !marks[k + 1]
    decreases |src|
  {
    var n := |Emit(zeros, src[0])|;
    if k >= n {
      EscapesAreNeeded(Next(zeros, src[0]), src[1..], k - n);
    }
  }

  /** At most one escape for every two bytes after the first. */
  lemma {:induction false} EscapeBound(zeros: nat, src: seq<Byte>)
    requires zeros <= 2
    ensures |src| <= |Escape(zeros, src)|
    ensures src == [] ==> Escape(zeros, src) == []
    ensures src != [] ==> 2 * |Escape(zeros, src)| <= 3 * |src| - 1 + zeros
    decreases |src|
  {
    if src == [] {
    } else {
      EscapeBound(Next(zeros, src[0]), src[1..]);
    }
  }

  /** The bound n + (n - 1) / 2 is met by every run of zero bytes. */
  lemma {:induction false} EscapeBoundIsTight(n: nat)
    requires n >= 1
    ensures |Escape(0, ZeroBytes(n))| == n + (n - 1) / 2
  {
    EscapedZeros(0, n);
  }

  lemma {:induction false} EscapedZeros(zeros: nat, n: nat)
    requires zeros <= 2
    ensures |Escape(zeros, ZeroBytes(n))| == n + if n == 0 then 0 else (n - 1 + zeros) / 2
    decreases n
  {
    if n == 0 {
    } else {
      assert ZeroBytes(n)[1..] == ZeroBytes(n - 1);
      EscapedZeros(Next(zeros, 0), n - 1);
    }
  }

  /** Escaping the payload alone protects the whole NAL unit, because the second header byte is not zero. */
  lemma WholeNalIsProtected(h0: Byte, h1: Byte, src: seq<Byte>, i: nat)
    requires h1 != 0
    ensures var nal := [h0, h1] + Escape(0, src);
            !PatternAt(nal, i, 0) && !PatternAt(nal, i, 1) && !PatternAt(nal, i, 2)
  {
    var nal := [h0, h1] + Escape(0, src);
    if i >= 2 {
      NoForbiddenPattern(0, src);
      assert ZeroBytes(0) + Escape(0, src) == Escape(0, src);
      assert forall b: Byte :: PatternAt(nal, i, b) == PatternAt(Escape(0, src), i - 2, b);
    }
  }
}
